/** What the decoder reads from any bytes, by the wire format alone: numbers of every length, skipped fields, integers
    and texts that are refused. */
module ReaderForm {
  import opened Common
  import opened Arithmetic
  import opened Varint
  import opened Schema
  import opened DecodeSpec
  import opened WireFormat

  // ----- where a varint ends -----

  /** How many bytes there are up to the first below 128, or 0 if there is none. */
  function Ends(s: seq<Byte>): (k: nat)
    ensures k <= |s|
  {
    if s == [] then 0 else if s[0] < 128 then 1 else if Ends(s[1..]) == 0 then 0 else 1 + Ends(s[1..])
  }

  lemma {:induction false} EndsMeans(s: seq<Byte>, k: nat)
    requires k <= |s|
    ensures Groups(s[..k]) <==> k == Ends(s) && k > 0
    decreases |s|
  {
    if s == [] || k == 0 {
    } else if s[0] < 128 {
      assert s[..k][0] == s[0];
    } else if k == 1 {
      assert s[..k] == [s[0]];
      assert Ends(s) != 1;
    } else {
      EndsMeans(s[1..], k - 1);
      GroupsCons(s[0], s[1..][..k - 1]);
      assert s[..k] == [s[0]] + s[1..][..k - 1];
    }
  }

  lemma {:induction false} GroupsCons(b: Byte, g: seq<Byte>)
    requires b >= 128 && g != []
    ensures Groups([b] + g) <==> Groups(g)
  {
    var h := [b] + g;
    assert forall i :: 0 <= i < |g| ==> h[i + 1] == g[i];
    if Groups(h) {
      forall i | 0 <= i < |g| - 1 ensures g[i] >= 128 { assert h[i + 1] == g[i]; }
    }
  }

  lemma {:induction false} EndsStep(s: seq<Byte>)
    requires Ends(s) > 1
    ensures s[0] >= 128 && Ends(s[1..]) == Ends(s) - 1
    ensures s[..Ends(s)] == [s[0]] + s[1..][..Ends(s) - 1] && s[Ends(s)..] == s[1..][Ends(s) - 1..]
    ensures Number(s[..Ends(s)], 128) == s[0] % 128 + 128 * Number(s[1..][..Ends(s) - 1], 128)
  {
    var k := Ends(s);
    assert s[..k] == [s[0]] + s[1..][..k - 1];
    assert s[..k][1..] == s[1..][..k - 1];
  }

  lemma {:induction false} EndsOne(s: seq<Byte>)
    requires Ends(s) == 1
    ensures s[0] < 128 && Number(s[..1], 128) == s[0]
  {
    assert s[..1][1..] == [];
  }

  // ----- 64 bits -----

  lemma {:induction false} CutGroup(low: nat, high: nat, k: nat)
    requires low < 128 && k < 9
    ensures (low + 128 * high) % Room64(k) == low + 128 * (high % Room64(k + 1))
  {
    var room := Room64(k + 1);
    var v := low + 128 * high;
    assert v / 128 == high && v % 128 == low;
    DivTwice(v, 128, room);
  }

  /** The number that the 64-bit reader makes of a varint of n bytes, from its k-th group on. */
  function Cut64(s: seq<Byte>, n: nat, k: nat): (r: Parsed<nat>)
    requires n <= |s| && k <= 9
  {
    Ok(Number(s[..n], 128) % Room64(k), s[n..])
  }

  lemma {:induction false} LastGroup64(s: seq<Byte>, k: nat)
    requires Ends(s) == 1 && k <= 9
    ensures Decode64From(s, k) == Cut64(s, 1, k)
  {
    EndsOne(s);
    assert k < 9 ==> Room64(k) >= 128 by { Rooms(); }
  }

  lemma {:induction false} FirstGroup64(s: seq<Byte>, k: nat)
    requires Ends(s) > 1 && k < 9 && Decode64From(s[1..], k + 1) == Cut64(s[1..], Ends(s) - 1, k + 1)
    ensures Decode64From(s, k) == Cut64(s, Ends(s), k)
  {
    EndsStep(s);
    CutGroup(s[0] % 128, Number(s[1..][..Ends(s) - 1], 128), k);
  }

  lemma {:induction false} Refused64(s: seq<Byte>, k: nat)
    requires k <= 9 && s != [] && s[0] >= 128 && (k < 9 ==> Decode64From(s[1..], k + 1).Err?)
    ensures Decode64From(s, k).Err?
  {
  }

  lemma {:induction false} Decode64FromExact(s: seq<Byte>, k: nat)
    requires k <= 9
    ensures if 0 < Ends(s) <= 10 - k then Decode64From(s, k) == Cut64(s, Ends(s), k) else Decode64From(s, k).Err?
    decreases |s|
  {
    if Ends(s) == 1 {
      LastGroup64(s, k);
    } else if s != [] {
      if k < 9 { Decode64FromExact(s[1..], k + 1); }
      if 1 < Ends(s) <= 10 - k { FirstGroup64(s, k); } else { Refused64(s, k); }
    }
  }

  /** The 64-bit reader accepts exactly the varints of at most ten bytes, in shortest form or not, and returns their
      number cut to 64 bits. */
  lemma {:induction false} Decode64Exact(s: seq<Byte>)
    ensures var n := Ends(s);
      if 0 < n <= 10 then Decode64(s) == Ok(Number(s[..n], 128) % TWO_64, s[n..]) else Decode64(s).Err?
  {
    Rooms();
    Decode64FromExact(s, 0);
  }

  // ----- 32 bits -----

  /** A byte that may stand in the i-th place of a 32-bit number, beyond bit 34. */
  predicate Passes(b: Byte, i: nat, negative: bool) { b % 128 == 0 || (negative && b == if i < 9 then 255 else 1) }

  /** The varints that the 32-bit reader accepts from their k-th group on: four groups and a fifth below 16, or more,
      where the groups from bit 35 on are zeros, or repeat the sign if bit 31 is set. */
  predicate Accepted32(g: seq<Byte>, k: nat)
    requires k <= 4
  {
    && (|g| == 5 - k ==> g[4 - k] < 16)
    && (forall i :: 5 - k <= i < |g| ==> Passes(g[i], k + i, g[4 - k] % 16 >= 8))
  }

  /** The number in the first five groups, cut to 32 bits. */
  function Value32(g: seq<Byte>, k: nat): (v: nat)
    requires k <= 4
  {
    Number(if |g| > 5 - k then g[..5 - k] else g, 128) % Room32(k)
  }

  /** The groups from the k-th on, all passing. */
  predicate Passing(g: seq<Byte>, k: nat, negative: bool) {
    forall i :: 0 <= i < |g| ==> Passes(g[i], k + i, negative)
  }

  lemma {:induction false} PassingStep(s: seq<Byte>, k: nat, negative: bool)
    requires Ends(s) > 1
    ensures Passing(s[..Ends(s)], k, negative) <==>
      && Passes(s[0], k, negative)
      && Passing(s[1..][..Ends(s) - 1], k + 1, negative)
  {
    var n := Ends(s);
    var g, h := s[..n], s[1..][..n - 1];
    EndsStep(s);
    assert forall i :: 0 <= i < |h| ==> h[i] == g[i + 1];
    if Passing(g, k, negative) {
      forall i | 0 <= i < |h| ensures Passes(h[i], k + 1 + i, negative) {
        assert g[i + 1] == h[i];
      }
    }
    if Passing(h, k + 1, negative) && Passes(s[0], k, negative) {
      forall i | 0 <= i < |g| ensures Passes(g[i], k + i, negative) {
        if i > 0 { assert h[i - 1] == g[i]; }
      }
    }
  }

  lemma {:induction false} SkipSignExactly(s: seq<Byte>, k: nat, negative: bool)
    ensures var n := Ends(s);
      if n > 0 && Passing(s[..n], k, negative) then SkipSign(s, k, negative) == Ok((), s[n..])
      else SkipSign(s, k, negative).Err?
    decreases |s|
  {
    var n := Ends(s);
    if n == 1 {
      assert s[..1] == [s[0]];
    } else if s != [] {
      SkipSignExactly(s[1..], k + 1, negative);
      if n > 1 {
        EndsStep(s);
        PassingStep(s, k, negative);
      }
    }
  }

  /** What the 32-bit reader makes of s from its k-th group on. */
  predicate Reads32(s: seq<Byte>, k: nat, r: Parsed<nat>)
    requires k <= 4
  {
    var n := Ends(s);
    var g := s[..n];
    if n > 0 && Accepted32(g, k) then r == Ok(Value32(g, k), s[n..]) else r.Err?
  }

  lemma {:induction false} FifthGroup32(s: seq<Byte>)
    ensures Reads32(s, 4, Decode32From(s, 4))
  {
    var n := Ends(s);
    if n == 1 {
      EndsOne(s);
      assert s[..1] == [s[0]];
    } else if s != [] {
      SkipSignExactly(s[1..], 5, s[0] % 16 >= 8);
      if n > 1 { FifthPassing(s); }
    }
  }

  lemma {:induction false} FifthPassing(s: seq<Byte>)
    requires Ends(s) > 1
    ensures Accepted32(s[..Ends(s)], 4) <==> Passing(s[1..][..Ends(s) - 1], 5, s[0] % 16 >= 8)
    ensures Value32(s[..Ends(s)], 4) == s[0] % 16 && s[Ends(s)..] == s[1..][Ends(s) - 1..]
  {
    var g, h := s[..Ends(s)], s[1..][..Ends(s) - 1];
    assert g[0] == s[0] && |g| > 1 && h == g[1..] && s[Ends(s)..] == s[1..][Ends(s) - 1..] by { EndsStep(s); }
    FifthMarks(g, h);
    FifthValue(g);
  }

  lemma {:induction false} FifthMarks(g: seq<Byte>, h: seq<Byte>)
    requires |g| > 1 && h == g[1..]
    ensures Accepted32(g, 4) <==> Passing(h, 5, g[0] % 16 >= 8)
  {
    if Accepted32(g, 4) { FifthForward(g, h); }
    if Passing(h, 5, g[0] % 16 >= 8) { FifthBack(g, h); }
  }

  lemma {:induction false} FifthValue(g: seq<Byte>)
    requires |g| > 1
    ensures Value32(g, 4) == g[0] % 16
  {
    var a := g[..1];
    assert a[0] == g[0] && a[1..] == [];
    assert Number(a, 128) == g[0] % 128;
    assert g[0] % 128 % 16 == g[0] % 16;
  }

  lemma {:induction false} FifthForward(g: seq<Byte>, h: seq<Byte>)
    requires |g| > 1 && h == g[1..] && Accepted32(g, 4)
    ensures Passing(h, 5, g[0] % 16 >= 8)
  {
    forall i | 0 <= i < |h| ensures Passes(h[i], 5 + i, g[0] % 16 >= 8) {
      assert g[i + 1] == h[i] && Passes(g[i + 1], 4 + (i + 1), g[4 - 4] % 16 >= 8);
    }
  }

  lemma {:induction false} FifthBack(g: seq<Byte>, h: seq<Byte>)
    requires |g| > 1 && h == g[1..] && Passing(h, 5, g[0] % 16 >= 8)
    ensures Accepted32(g, 4)
  {
    forall i | 1 <= i < |g| ensures Passes(g[i], 4 + i, g[4 - 4] % 16 >= 8) {
      assert h[i - 1] == g[i] && Passes(h[i - 1], 5 + (i - 1), g[0] % 16 >= 8);
    }
  }

  lemma {:induction false} AcceptedStep(g: seq<Byte>, k: nat)
    requires k < 4 && |g| > 1
    ensures Accepted32(g, k) <==> Accepted32(g[1..], k + 1)
  {
    var h := g[1..];
    assert forall i :: 0 <= i < |h| ==> h[i] == g[i + 1];
    if Accepted32(h, k + 1) {
      forall i | 5 - k <= i < |g|
        ensures Passes(g[i], k + i, g[4 - k] % 16 >= 8)
      {
        assert h[i - 1] == g[i];
      }
    }
    if Accepted32(g, k) {
      forall i | 5 - (k + 1) <= i < |h|
        ensures Passes(h[i], k + 1 + i, h[4 - (k + 1)] % 16 >= 8)
      {
        assert g[i + 1] == h[i];
      }
    }
  }

  lemma {:induction false} ValueStep(g: seq<Byte>, k: nat)
    requires k < 4 && |g| > 1
    ensures Value32(g, k) == g[0] % 128 + 128 * Value32(g[1..], k + 1)
  {
    var a := if |g| > 5 - k then g[..5 - k] else g;
    var b := if |g| > 5 - k then g[1..][..4 - k] else g[1..];
    assert a[1..] == b && a[0] == g[0];
    var v := Number(a, 128);
    assert v / 128 == Number(b, 128) && v % 128 == g[0] % 128;
    LowGroup(v, k);
  }

  lemma {:induction false} LaterGroup32(s: seq<Byte>, k: nat)
    requires k < 4 && Ends(s) > 1 && Reads32(s[1..], k + 1, Decode32From(s[1..], k + 1))
    ensures Reads32(s, k, Decode32From(s, k))
  {
    EndsStep(s);
    var g := s[..Ends(s)];
    assert g[1..] == s[1..][..Ends(s) - 1];
    AcceptedStep(g, k);
    ValueStep(g, k);
  }

  lemma {:induction false} LastGroup32(s: seq<Byte>, k: nat)
    requires k < 4 && Ends(s) == 1
    ensures Reads32(s, k, Decode32From(s, k))
  {
    var g := s[..1];
    assert g[0] == s[0] < 128 && Number(g, 128) == s[0] by { EndsOne(s); }
    assert Room32(k) >= 128 by { LowGroup(s[0], k); }
    assert Value32(g, k) == s[0];
    assert Accepted32(g, k);
  }

  lemma {:induction false} Decode32FromExactly(s: seq<Byte>, k: nat)
    requires k <= 4
    ensures Reads32(s, k, Decode32From(s, k))
    decreases |s|
  {
    if k == 4 {
      FifthGroup32(s);
    } else if Ends(s) == 1 {
      LastGroup32(s, k);
    } else if s != [] {
      Decode32FromExactly(s[1..], k + 1);
      if Ends(s) > 1 { LaterGroup32(s, k); }
    }
  }

  /** The 32-bit reader, on any bytes. */
  lemma {:induction false} Decode32Exactly(s: seq<Byte>)
    ensures Reads32(s, 0, Decode32(s)) && Room32(0) == TWO_32
  {
    Rooms();
    Decode32FromExactly(s, 0);
  }

  // ----- skipping -----

  lemma {:induction false} SkipVarintExact(s: seq<Byte>)
    ensures if Ends(s) > 0 then SkipVarint(s) == Ok((), s[Ends(s)..]) else SkipVarint(s).Err?
    decreases |s|
  {
    if s != [] {
      SkipVarintExact(s[1..]);
      if Ends(s) > 1 { EndsStep(s); }
    }
  }

  /** A payload that the reader can skip: by the wire format, with a length that it accepts as a 32-bit number. */
  ghost predicate IsSkippable(wire: nat, p: seq<Byte>) {
    || (wire == 0 && Groups(p))
    || (wire == 1 && |p| == 8)
    || (wire == 2 && exists k :: 0 <= k <= |p| && Length32(p, k))
    || (wire == 5 && |p| == 4)
  }

  /** The first k bytes are read as the number of the others. */
  predicate Length32(p: seq<Byte>, k: nat) {
    k <= |p| && Groups(p[..k]) && Accepted32(p[..k], 0) && Value32(p[..k], 0) == |p| - k
  }

  lemma {:induction false} SkipDelimited(s: seq<Byte>, m: nat)
    requires m <= |s|
    ensures IsSkippable(2, s[..m]) <==> Skip(2, s) == Ok((), s[m..])
  {
    var n, r := Ends(s), Decode32(s);
    Decode32Exactly(s);
    if k :| 0 <= k <= m && Length32(s[..m], k) {
      assert s[..m][..k] == s[..k];
      EndsMeans(s, k);
      assert s[k..][m - k..] == s[m..];
    }
    if Skip(2, s) == Ok((), s[m..]) {
      SuffixLength(s, n, r.value, m);
      EndsMeans(s, n);
      assert s[..m][..n] == s[..n];
      assert Length32(s[..m], n);
    }
  }

  lemma {:induction false} SuffixLength(s: seq<Byte>, n: nat, v: nat, m: nat)
    requires n <= |s| && v <= |s[n..]| && m <= |s| && s[n..][v..] == s[m..]
    ensures m == n + v
  {
    assert |s[m..]| == |s| - m && |s[n..][v..]| == |s| - n - v;
  }

  /** pb_skip_field skips exactly a payload of the wire type. */
  lemma {:induction false} SkipExact(wire: nat, s: seq<Byte>, m: nat)
    requires m <= |s|
    ensures Skip(wire, s) == Ok((), s[m..]) <==> IsSkippable(wire, s[..m])
  {
    if wire == 2 {
      SkipDelimited(s, m);
    } else if wire == 0 {
      SkipVarintExact(s);
      EndsMeans(s, m);
      if Skip(0, s) == Ok((), s[m..]) { assert |s[m..]| == |s[Ends(s)..]|; }
    } else if wire == 1 || wire == 5 {
      var n := if wire == 1 then 8 else 4;
      if Skip(wire, s) == Ok((), s[m..]) { assert |s[m..]| == |s[n..]|; }
    }
  }

  lemma {:induction false} SkipNothing(wire: nat, s: seq<Byte>)
    requires forall m :: 0 <= m <= |s| ==> !IsSkippable(wire, s[..m])
    ensures Skip(wire, s).Err?
  {
    var r := Skip(wire, s);
    if r.Ok? {
      var m := |s| - |r.rest|;
      assert r.value == () by { match r.value case () => }
      SkipExact(wire, s, m);
    }
  }
}
