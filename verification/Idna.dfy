/** libuv's conversion of a whole domain name, label by label. */
module Idna {
  import opened Common
  import opened PunycodeSpec
  import opened Punycode

  /** The full stop and its three ideographic and width variants. */
  predicate IsDot(c: nat) { c == 0x2E || c == 0x3002 || c == 0xFF0E || c == 0xFF61 }

  function FirstDot(s: seq<nat>): (i: nat)
    ensures i <= |s| && (i < |s| ==> IsDot(s[i])) && forall k :: 0 <= k < i ==> !IsDot(s[k])
  {
    if s == [] || IsDot(s[0]) then 0 else 1 + FirstDot(s[1..])
  }

  lemma {:induction false} FirstDotAt(s: seq<nat>, i: nat)
    requires i <= |s| && (i < |s| ==> IsDot(s[i])) && forall k :: 0 <= k < i ==> !IsDot(s[k])
    ensures FirstDot(s) == i
  {
    var j := FirstDot(s);
  }

  function Labels(s: seq<nat>): (ls: seq<seq<nat>>)
    ensures |ls| >= 1
    decreases |s|
  {
    var i := FirstDot(s);
    if i == |s| then [s] else [s[..i]] + Labels(s[i + 1..])
  }

  /** What becomes of a label or a domain: a text, or an error code. */
  datatype Out = Written(s: string) | Refused(rc: int)

  function LabelOut(s: seq<nat>): (o: Out)
    requires Read(s)
    ensures o.Refused? ==> o.rc < 0
    ensures o.Written? ==> ValidLabel(s)
  {
    if NO_CODE_POINT in s then Refused(UV_EINVAL)
    else
      WellFormedRead(s);
      if !Wide(s) then
        BelowAll(s);
        if AsInt(|s|) < 0 then Refused(AsInt(|s|)) else Written(Chars(s))
      else if Encoded(s).Overflow? then Refused(UV_E2BIG)
      else Written("xn--" + Encoded(s).s)
  }

  lemma {:induction false} BelowAll(s: seq<nat>)
    requires !Wide(s)
    ensures forall i :: 0 <= i < |s| ==> s[i] < 128
  {
    assert Below(s, 128) == s;
  }

  /** The first error counts. */
  function Then(a: Out, b: Out): (o: Out) {
    if a.Refused? then a else if b.Refused? then b else Written(a.s + b.s)
  }

  /** The labels with full stops between them. */
  function Domain(s: seq<nat>): (o: Out)
    requires Read(s)
    ensures o.Refused? ==> o.rc < 0
    decreases |s|
  {
    var i := FirstDot(s);
    if i == |s| then LabelOut(s) else Then(Then(LabelOut(s[..i]), Written(".")), Domain(s[i + 1..]))
  }

  // ----- uv__idna_toascii -----

  method PutLabel(s: seq<nat>, d0: string, cap: nat, ghost t: string) returns (rc: int, d: string)
    requires Read(s) && d0 == Cut(t, cap)
    ensures rc < 0 <==> LabelOut(s).Refused?
    ensures rc < 0 ==> rc == LabelOut(s).rc
    ensures rc >= 0 ==> d == Cut(t + LabelOut(s).s, cap)
  {
    rc, d := ToAsciiLabel(s, d0, cap);
    if LabelOut(s).Written? {
      CutTwice(t, LabelText(s), cap);
    }
  }

  lemma {:induction false} CutTwice(a: string, b: string, cap: nat)
    ensures Cut(Cut(a, cap) + b, cap) == Cut(a + b, cap)
  {
  }

  /** What is still to be written when the current label starts at `from`. Unfolds only where Domain
      is named. */
  ghost predicate Ahead(s: seq<nat>, from: nat, t: string, goal: Out)
    requires Read(s) && from <= |s|
  {
    forall rest :: rest == s[from..] && Read(rest) ==> goal == Then(Written(t), Domain(rest))
  }

  lemma {:induction false} AheadMeans(s: seq<nat>, from: nat, t: string, goal: Out)
    requires Read(s) && from <= |s|
    ensures Ahead(s, from, t, goal) <==> goal == Then(Written(t), Domain(s[from..]))
  {
    var d := Domain(s[from..]);
  }

  lemma {:induction false} LabelEnds(s: seq<nat>, from: nat, i: nat, t: string, goal: Out)
    requires Read(s) && from <= i < |s| && IsDot(s[i]) && forall k :: from <= k < i ==> !IsDot(s[k])
    requires Ahead(s, from, t, goal)
    ensures var l := LabelOut(s[from..i]);
      if l.Refused? then goal == l else Ahead(s, i + 1, t + l.s + ".", goal)
  {
    AheadMeans(s, from, t, goal);
    DomainFrom(s, from, i);
    var l := LabelOut(s[from..i]);
    Chained(t, l, Domain(s[i + 1..]));
    if l.Written? { AheadMeans(s, i + 1, t + l.s + ".", goal); }
  }

  lemma {:induction false} DomainFrom(s: seq<nat>, from: nat, i: nat)
    requires Read(s) && from <= i < |s| && IsDot(s[i]) && forall k :: from <= k < i ==> !IsDot(s[k])
    ensures Domain(s[from..]) == Then(Then(LabelOut(s[from..i]), Written(".")), Domain(s[i + 1..]))
  {
    var rest, n := s[from..], i - from;
    FirstDotAt(rest, n);
    assert rest[..n] == s[from..i] && rest[n + 1..] == s[i + 1..];
    DomainSplit(rest, n);
  }

  lemma {:induction false} DomainSplit(s: seq<nat>, i: nat)
    requires Read(s) && i < |s| && FirstDot(s) == i
    ensures Domain(s) == Then(Then(LabelOut(s[..i]), Written(".")), Domain(s[i + 1..]))
  {
  }

  lemma {:induction false} Chained(t: string, l: Out, more: Out)
    ensures Then(Written(t), Then(Then(l, Written(".")), more)) ==
      if l.Refused? then l else Then(Written(t + l.s + "."), more)
  {
    if l.Written? && more.Written? {
      assert t + (l.s + "." + more.s) == t + l.s + "." + more.s;
    }
  }

  lemma {:induction false} LastLabel(s: seq<nat>, from: nat, t: string, goal: Out)
    requires Read(s) && from <= |s| && forall k :: from <= k < |s| ==> !IsDot(s[k])
    requires Ahead(s, from, t, goal)
    ensures goal == Then(Written(t), LabelOut(s[from..]))
    ensures from == |s| ==> goal == Written(t)
  {
    FirstDotAt(s[from..], |s| - from);
    DomainOne(s[from..]);
    AheadMeans(s, from, t, goal);
    if from == |s| {
      assert s[from..] == [];
      EmptyLabel();
      assert t + "" == t;
    }
  }

  lemma {:induction false} DomainOne(s: seq<nat>)
    requires Read(s) && FirstDot(s) == |s|
    ensures Domain(s) == LabelOut(s)
  {
  }

  lemma {:induction false} EmptyLabel()
    ensures LabelOut([]) == Written("")
  {
    assert Below([], 128) == [];
  }

  /** The label that ends in front of the dot at i, and a full stop. */
  method PutDotted(s: seq<nat>, from: nat, i: nat, d0: string, cap: nat, ghost t: string, ghost goal: Out)
    returns (rc: int, d: string, ghost t': string)
    requires Read(s) && from <= i < |s| && IsDot(s[i]) && (forall k :: from <= k < i ==> !IsDot(s[k]))
    requires d0 == Cut(t, cap) && Ahead(s, from, t, goal)
    ensures rc < 0 ==> goal == Refused(rc)
    ensures rc >= 0 ==> d == Cut(t', cap) && Ahead(s, i + 1, t', goal)
  {
    LabelEnds(s, from, i, t, goal);
    t' := t;
    rc, d := PutLabel(s[from..i], d0, cap, t);
    if rc >= 0 {
      t' := t + LabelOut(s[from..i]).s;
      d := Put(d, '.', cap, t');
      t' := t' + ".";
    }
  }

  method PutDomain(s: seq<nat>, cap: nat, ghost goal: Out) returns (rc: int, d: string)
    requires Read(s) && Ahead(s, 0, "", goal)
    ensures rc < 0 <==> goal.Refused?
    ensures rc < 0 ==> rc == goal.rc
    ensures rc >= 0 ==> d == Cut(goal.s + ['\0'], cap) && rc == |d|
  {
    d := "";
    var from := 0;
    ghost var t := "";
    for i := 0 to |s|
      invariant 0 <= from <= i && d == Cut(t, cap) && Ahead(s, from, t, goal)
      invariant forall k :: from <= k < i ==> !IsDot(s[k])
    {
      if !IsDot(s[i]) {
        continue;
      }
      rc, d, t := PutDotted(s, from, i, d, cap, t, goal);
      if rc < 0 {
        return;
      }
      from := i + 1;
    }
    rc, d := PutLast(s, from, d, cap, t, goal);
  }

  /** The last label, unless it is empty, and the terminator. */
  method PutLast(s: seq<nat>, from: nat, d0: string, cap: nat, ghost t: string, ghost goal: Out)
    returns (rc: int, d: string)
    requires Read(s) && from <= |s| && forall k :: from <= k < |s| ==> !IsDot(s[k])
    requires d0 == Cut(t, cap) && Ahead(s, from, t, goal)
    ensures rc < 0 <==> goal.Refused?
    ensures rc < 0 ==> rc == goal.rc
    ensures rc >= 0 ==> d == Cut(goal.s + ['\0'], cap) && rc == |d|
  {
    d := d0;
    LastLabel(s, from, t, goal);
    if from < |s| {
      rc, d := PutLabel(s[from..], d, cap, t);
      if rc < 0 {
        return;
      }
    }
    d := Put(d, '\0', cap, goal.s);
    rc := |d|;
  }

  /** uv__idna_toascii over what the character reader returns: the number of bytes written, or the error of the
      first label that is refused. */
  method ToAscii(s: seq<nat>, cap: nat) returns (rc: int, d: string)
    requires Read(s)
    ensures rc < 0 <==> Domain(s).Refused?
    ensures rc < 0 ==> rc == Domain(s).rc
    ensures rc >= 0 ==> d == Cut(Domain(s).s + ['\0'], cap) && rc == |d|
  {
    WholeAhead(s);
    rc, d := PutDomain(s, cap, Domain(s));
  }

  lemma {:induction false} WholeAhead(s: seq<nat>)
    requires Read(s)
    ensures Ahead(s, 0, "", Domain(s))
  {
    var o := Domain(s);
    assert s[0..] == s && (o.Written? ==> "" + o.s == o.s);
  }

  // ----- the labels can be told apart again -----

  function FirstStop(t: string): (i: nat)
    ensures i <= |t| && (i < |t| ==> t[i] == '.') && forall k :: 0 <= k < i ==> t[k] != '.'
  {
    if t == [] || t[0] == '.' then 0 else 1 + FirstStop(t[1..])
  }

  /** A text cut at its full stops. */
  function Pieces(t: string): (ps: seq<string>)
    ensures |ps| >= 1
    decreases |t|
  {
    var i := FirstStop(t);
    if i == |t| then [t] else [t[..i]] + Pieces(t[i + 1..])
  }

  predicate NoStop(t: string) { '.' !in t }

  lemma {:induction false} PiecesSplit(a: string, b: string)
    requires NoStop(a)
    ensures Pieces(a) == [a] && Pieces(a + "." + b) == [a] + Pieces(b)
  {
    assert FirstStop(a) == |a|;
    var t := a + "." + b;
    assert t[|a|] == '.' && forall k :: 0 <= k < |a| ==> t[k] == a[k];
    assert FirstStop(t) == |a|;
    assert t[..|a|] == a && t[|a| + 1..] == b;
  }

  lemma {:induction false} DigitsNoStop(q: nat, k: nat, bias: nat)
    ensures NoStop(Digits(q, k, bias))
    decreases q
  {
    var t := Clamp(k, bias);
    if q >= t {
      DivideRest(q - t, 36 - t);
      DigitsNoStop((q - t) / (36 - t), k + 36, bias);
    }
  }

  lemma {:induction false} PassNoStop(s: seq<nat>, n: nat, delta: nat, bias: nat, h: nat, first: bool)
    requires ValidLabel(s) && n <= MAX_CODE_POINT + 1 && Pass(s, n, delta, bias, h, first).Text?
    ensures NoStop(Pass(s, n, delta, bias, h, first).s)
    decreases MAX_CODE_POINT + 1 - n, 1, 0
  {
    var m := Least(s, n);
    if m != NO_CODE_POINT {
      Gap(n, m, n, h + 1);
      ScanNoStop(s, m, 0, delta + (m - n) * (h + 1), bias, h, first);
    }
  }

  lemma {:induction false} ScanNoStop(s: seq<nat>, n: nat, j: nat, delta: nat, bias: nat, h: nat, first: bool)
    requires ValidLabel(s) && n <= MAX_CODE_POINT && j <= |s| && Scan(s, n, j, delta, bias, h, first).Text?
    ensures NoStop(Scan(s, n, j, delta, bias, h, first).s)
    decreases MAX_CODE_POINT + 1 - n, 0, |s| - j
  {
    if j == |s| {
      PassNoStop(s, n + 1, delta + 1, bias, h, first);
    } else if s[j] == n {
      ScanNoStop(s, n, j + 1, 0, Adapt(delta, h + 1, first), h + 1, false);
      DigitsNoStop(delta, 36, bias);
    } else {
      ScanNoStop(s, n, j + 1, if s[j] < n then delta + 1 else delta, bias, h, first);
    }
  }

  lemma {:induction false} CharsNoStop(b: seq<nat>)
    requires forall i :: 0 <= i < |b| ==> b[i] < 128 && !IsDot(b[i])
    ensures NoStop(Chars(b))
  {
    var t := Chars(b);
    assert forall i :: 0 <= i < |t| ==> t[i] as nat == b[i];
  }

  lemma {:induction false} BelowIn(s: seq<nat>, n: nat)
    ensures forall x :: x in Below(s, n) ==> x in s
  {
    if s != [] { BelowIn(s[..|s| - 1], n); }
  }

  lemma {:induction false} LabelNoStop(s: seq<nat>)
    requires Read(s) && LabelOut(s).Written? && forall i :: 0 <= i < |s| ==> !IsDot(s[i])
    ensures NoStop(LabelOut(s).s)
  {
    if Wide(s) {
      var basic := Below(s, 128);
      BelowIn(s, 128);
      assert forall i :: 0 <= i < |basic| ==> basic[i] in s;
      CharsNoStop(basic);
      PassNoStop(s, 128, 0, 72, |basic|, true);
    } else {
      BelowAll(s);
      CharsNoStop(s);
    }
  }

  /** The piece for a label gives the label back. */
  predicate Reads(piece: string, label_: seq<nat>) {
    if Wide(label_) then |piece| >= 4 && piece[..4] == "xn--" && Decode(piece[4..]) == Some(label_)
    else CodePoints(piece) == label_
  }

  lemma {:induction false} LabelReads(s: seq<nat>)
    requires Read(s) && LabelOut(s).Written?
    ensures Reads(LabelOut(s).s, s)
  {
    if Wide(s) {
      LabelRoundTrip(s);
      assert ("xn--" + Encoded(s).s)[4..] == Encoded(s).s;
    } else {
      BelowAll(s);
      assert CodePoints(Chars(s)) == s;
    }
  }

  /** A domain is refused exactly when one of its labels is: for malformed text, for an overflow of the encoder, or
      for a plain label of 2^31 characters or more. */
  lemma {:induction false} DomainRefused(s: seq<nat>)
    requires Read(s)
    ensures AllRead(Labels(s))
    ensures Domain(s).Refused? <==> SomeRefused(Labels(s))
    decreases |s|
  {
    var i := FirstDot(s);
    if i == |s| {
      DomainOne(s);
      OneRefused(s, []);
      assert [s] + [] == [s];
    } else {
      DomainRefused(s[i + 1..]);
      OneRefused(s[..i], Labels(s[i + 1..]));
      DomainSplit(s, i);
    }
  }

  predicate AllRead(ls: seq<seq<nat>>) { forall k :: 0 <= k < |ls| ==> Read(ls[k]) }

  predicate SomeRefused(ls: seq<seq<nat>>)
    requires AllRead(ls)
  {
    exists k :: 0 <= k < |ls| && LabelOut(ls[k]).Refused?
  }

  /** A domain of well-formed labels of at most 3853 characters each is never refused. */
  lemma {:induction false} ShortLabelsWritten(s: seq<nat>)
    requires Read(s)
    requires forall k :: 0 <= k < |Labels(s)| ==> |Labels(s)[k]| <= MAX_SAFE_LENGTH && NO_CODE_POINT !in Labels(s)[k]
    ensures Domain(s).Written?
  {
    DomainRefused(s);
    NoneRefused(Labels(s));
  }

  lemma {:induction false} NoneRefused(ls: seq<seq<nat>>)
    requires AllRead(ls) && forall k :: 0 <= k < |ls| ==> |ls[k]| <= MAX_SAFE_LENGTH && NO_CODE_POINT !in ls[k]
    ensures !SomeRefused(ls)
  {
    forall k | 0 <= k < |ls| ensures LabelOut(ls[k]).Written? {
      ShortLabelWritten(ls[k]);
    }
  }

  lemma {:induction false} ShortLabelWritten(l: seq<nat>)
    requires Read(l) && |l| <= MAX_SAFE_LENGTH && NO_CODE_POINT !in l
    ensures LabelOut(l).Written?
  {
    WellFormedRead(l);
    ShortLabelFits(l);
  }

  lemma {:induction false} OneRefused(l: seq<nat>, ls: seq<seq<nat>>)
    requires Read(l) && AllRead(ls)
    ensures AllRead([l] + ls)
    ensures SomeRefused([l] + ls) <==> LabelOut(l).Refused? || SomeRefused(ls)
  {
    var all := [l] + ls;
    assert all[0] == l;
    if SomeRefused(ls) {
      var k :| 0 <= k < |ls| && LabelOut(ls[k]).Refused?;
      assert all[k + 1] == ls[k];
    }
  }

  /** The text of a domain has one piece for each label of the name, and every piece reads as its
      label: with the decoder of RFC 3492 behind xn--, or as it stands. */
  lemma {:induction false} DomainRoundTrip(s: seq<nat>)
    requires Read(s) && Domain(s).Written?
    ensures |Pieces(Domain(s).s)| == |Labels(s)|
    ensures forall k :: 0 <= k < |Labels(s)| ==> Reads(Pieces(Domain(s).s)[k], Labels(s)[k])
    decreases |s|
  {
    var i := FirstDot(s);
    LabelPiece(s, i);
    if i < |s| {
      var rest := s[i + 1..];
      DomainRoundTrip(rest);
      Consecutive(LabelOut(s[..i]).s, Pieces(Domain(rest).s), s[..i], Labels(rest));
    }
  }

  lemma {:induction false} Consecutive(p: string, ps: seq<string>, l: seq<nat>, ls: seq<seq<nat>>)
    requires |ps| == |ls| && Reads(p, l) && forall k :: 0 <= k < |ls| ==> Reads(ps[k], ls[k])
    ensures var qs, ms := [p] + ps, [l] + ls;
      |qs| == |ms| && forall k :: 0 <= k < |ms| ==> Reads(qs[k], ms[k])
  {
  }

  /** The first label and its piece. */
  lemma {:induction false} LabelPiece(s: seq<nat>, i: nat)
    requires Read(s) && Domain(s).Written? && i == FirstDot(s)
    ensures Read(s[..i]) && LabelOut(s[..i]).Written? && Reads(LabelOut(s[..i]).s, s[..i])
    ensures i == |s| ==> s[..i] == s && Pieces(Domain(s).s) == [LabelOut(s).s] && Labels(s) == [s]
    ensures i < |s| ==>
      && Read(s[i + 1..]) && Domain(s[i + 1..]).Written? && Labels(s) == [s[..i]] + Labels(s[i + 1..])
      && Pieces(Domain(s).s) == [LabelOut(s[..i]).s] + Pieces(Domain(s[i + 1..]).s)
  {
    var first := s[..i];
    if i == |s| { assert first == s; }
    LabelReads(first);
    LabelNoStop(first);
    PiecesSplit(LabelOut(first).s, if i < |s| then Domain(s[i + 1..]).s else "");
  }
}
