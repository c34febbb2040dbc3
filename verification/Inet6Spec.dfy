/** IPv6 text: what inet_ntop6 prints, what inet_pton6 reads, and that reading undoes printing. */
module Inet6Spec {
  import opened Common
  import opened InetSpec

  type Word = x: int | 0 <= x < 65536

  function BytesOf(ws: seq<Word>): (b: seq<Byte>)
    ensures |b| == 2 * |ws|
  {
    if ws == [] then [] else BytesOf(ws[..|ws| - 1]) + [ws[|ws| - 1] / 256, ws[|ws| - 1] % 256]
  }

  // ----- printing -----

  /** The run of zero words that is abbreviated, if any. */
  datatype Run = NoRun | Zeros(base: nat, len: nat)

  predicate InRun(r: Run, i: nat) { r.Zeros? && r.base <= i < r.base + r.len }

  predicate AllZero(ws: seq<Word>, base: nat, len: nat) {
    base + len <= |ws| && forall i :: base <= i < base + len ==> ws[i] == 0
  }

  /** Section 4.2 of RFC 5952: the left-most of the longest runs of at least two zero words. */
  ghost predicate Canonical(ws: seq<Word>, r: Run) {
    match r
    case NoRun => forall b: nat, l: nat :: AllZero(ws, b, l) ==> l < 2
    case Zeros(base, len) =>
      && len >= 2 && AllZero(ws, base, len)
      && (forall b: nat, l: nat :: AllZero(ws, b, l) ==> l <= len)
      && (forall b: nat, l: nat :: AllZero(ws, b, l) && l == len ==> base <= b)
  }

  /** Slot 6 starts an embedded IPv4 address. The third alternative of the C condition, a run of
      seven words, cannot hold here: slot 6 would be inside the run. */
  predicate Embeds(ws: seq<Word>, r: Run, i: nat)
    requires |ws| == 8
  {
    i == 6 && r.Zeros? && r.base == 0 && (r.len == 6 || (r.len == 7 && ws[7] != 1) || (r.len == 5 && ws[5] == 0xffff))
  }

  /** The formatting loop from word i on. */
  function Text6From(ws: seq<Word>, r: Run, i: nat): (s: string)
    requires |ws| == 8 && i <= 8
    decreases 8 - i
  {
    if i == 8 then
      if r.Zeros? && r.base + r.len == 8 then ":" else ""
    else if InRun(r, i) then
      (if i == r.base then ":" else "") + Text6From(ws, r, i + 1)
    else
      (if i != 0 then ":" else "") +
      (if Embeds(ws, r, i) then Text4(BytesOf(ws)[12..16]) else Hex(ws[i]) + Text6From(ws, r, i + 1))
  }

  // ----- reading -----

  /** inet_pton6: `tok` is the text from the start of the current group, `out` the bytes written,
      `colon` where :: stood, `seen` and `val` the hex digits of the current group. */
  function Parse6(s: string, tok: string, out: seq<Byte>, colon: Option<nat>, seen: nat,
                  val: nat): (r: Option<seq<Byte>>)
    requires |out| <= 16 && (colon.Some? ==> colon.value <= |out|)
    decreases |s|
  {
    if s == [] then Finish(out, colon, seen, val)
    else if HexValue(s[0]).Some? then
      if seen + 1 > 4 then None
      else Parse6(s[1..], tok, out, colon, seen + 1, val * 16 + HexValue(s[0]).value)
    else if s[0] == ':' then
      if seen == 0 then
        if colon.Some? then None else Parse6(s[1..], s[1..], out, Some(|out|), 0, val)
      else if s[1..] == [] || |out| + 2 > 16 then None
      else Parse6(s[1..], s[1..], out + [val / 256 % 256, val % 256], colon, 0, 0)
    else if s[0] == '.' && |out| + 4 <= 16 && Pton4(tok).Some? then
      Finish(out + Pton4(tok).value, colon, 0, 0)
    else None
  }

  function Finish(out: seq<Byte>, colon: Option<nat>, seen: nat, val: nat): (r: Option<seq<Byte>>)
    requires |out| <= 16 && (colon.Some? ==> colon.value <= |out|)
    ensures r.Some? ==> |r.value| == 16
  {
    if seen > 0 && |out| + 2 > 16 then None
    else
      var all := if seen > 0 then out + [val / 256 % 256, val % 256] else out;
      if colon.Some? then
        if |all| == 16 then None else Some(Spread(all, colon.value))
      else if |all| == 16 then Some(all) else None
  }

  /** Move what follows position c to the end of sixteen bytes, with zeros in between. */
  function Spread(b: seq<Byte>, c: nat): (r: seq<Byte>)
    requires c <= |b| <= 16
    ensures |r| == 16
  {
    b[..c] + seq(16 - |b|, _ => 0) + b[c..]
  }

  function Pton6(s: string): (r: Option<seq<Byte>>) {
    if s != [] && s[0] == ':' then
      if |s| < 2 || s[1] != ':' then None else Parse6(s[1..], s[1..], [], None, 0, 0)
    else Parse6(s, s, [], None, 0, 0)
  }

  // ----- the printed form in three parts -----

  /** Words separated by colons. */
  function Join(ws: seq<Word>): (s: string)
    ensures ws != [] ==> s != []
  {
    if ws == [] then "" else if |ws| == 1 then Hex(ws[0]) else Hex(ws[0]) + ":" + Join(ws[1..])
  }

  /** What follows the abbreviated run. */
  function Tail(ws: seq<Word>, r: Run): (s: string)
    requires |ws| == 8 && r.Zeros? && r.base + r.len <= 8
  {
    if Embeds(ws, r, 6) && r.len == 6 then Text4(BytesOf(ws)[12..16])
    else if Embeds(ws, r, 6) && r.len == 5 then Hex(ws[5]) + ":" + Text4(BytesOf(ws)[12..16])
    else Join(ws[r.base + r.len..])
  }

  predicate FitsRun(ws: seq<Word>, r: Run) {
    |ws| == 8 && (r.Zeros? ==> r.len >= 2 && AllZero(ws, r.base, r.len))
  }

  lemma {:induction false} TextStep(ws: seq<Word>, r: Run, i: nat)
    requires |ws| == 8 && i < 8 && !InRun(r, i) && !Embeds(ws, r, i)
    ensures Text6From(ws, r, i) == (if i != 0 then ":" else "") + (Hex(ws[i]) + Text6From(ws, r, i + 1))
  {
  }

  /** The leading word of ws[i..j], with the rest behind it. */
  lemma {:induction false} JoinStep(ws: seq<Word>, i: nat, j: nat, x: string)
    requires i < j <= |ws|
    ensures Join(ws[i..j]) + x == Hex(ws[i]) + ((if i + 1 < j then ":" else "") + (Join(ws[i + 1..j]) + x))
  {
    var here := ws[i..j];
    assert here[0] == ws[i] && here[1..] == ws[i + 1..j];
    if i + 1 == j { assert Join(ws[i + 1..j]) == ""; }
  }

  /** Behind the run, or without one, words follow each other. */
  lemma {:induction false} JoinFrom(ws: seq<Word>, r: Run, i: nat)
    requires |ws| == 8 && i < 8 && (r.Zeros? ==> r.base + r.len <= i)
    requires i <= 6 ==> !Embeds(ws, r, 6)
    ensures Text6From(ws, r, i) == (if 0 < i then ":" else "") + (Join(ws[i..8]) + "")
    decreases 8 - i
  {
    TextStep(ws, r, i);
    JoinStep(ws, i, 8, "");
    if i == 7 {
      assert Text6From(ws, r, 8) == "" == "" + (Join(ws[8..8]) + "");
    } else {
      JoinFrom(ws, r, i + 1);
    }
  }

  lemma {:induction false} SkipRun(ws: seq<Word>, r: Run, i: nat)
    requires FitsRun(ws, r) && r.Zeros? && r.base < i <= r.base + r.len
    ensures Text6From(ws, r, i) == Text6From(ws, r, r.base + r.len)
    decreases 8 - i
  {
    if i < r.base + r.len {
      SkipRun(ws, r, i + 1);
      assert "" + Text6From(ws, r, i + 1) == Text6From(ws, r, i + 1);
    }
  }

  lemma {:induction false} AfterFive(ws: seq<Word>, r: Run)
    requires FitsRun(ws, r) && Embeds(ws, r, 6) && r.len == 5
    ensures Text6From(ws, r, 5) == ":" + Tail(ws, r)
  {
    TextStep(ws, r, 5);
    var quad := Text4(BytesOf(ws)[12..16]);
    assert Text6From(ws, r, 6) == ":" + quad;
    assert Hex(ws[5]) + (":" + quad) == Hex(ws[5]) + ":" + quad;
  }

  lemma {:induction false} AfterRun(ws: seq<Word>, r: Run)
    requires FitsRun(ws, r) && r.Zeros?
    ensures Text6From(ws, r, r.base + r.len) == ":" + Tail(ws, r)
  {
    var e := r.base + r.len;
    if e == 8 {
      assert Tail(ws, r) == "" by { assert ws[8..] == []; }
      assert ":" + "" == ":";
    } else if Embeds(ws, r, 6) && r.len == 6 {
    } else if Embeds(ws, r, 6) && r.len == 5 {
      AfterFive(ws, r);
    } else {
      JoinFrom(ws, r, e);
      assert ws[e..8] == ws[e..] && Join(ws[e..]) + "" == Join(ws[e..]);
    }
  }

  lemma {:induction false} AtRun(ws: seq<Word>, r: Run)
    requires FitsRun(ws, r) && r.Zeros?
    ensures Text6From(ws, r, r.base) == "::" + Tail(ws, r)
  {
    SkipRun(ws, r, r.base + 1);
    AfterRun(ws, r);
    assert ":" + (":" + Tail(ws, r)) == "::" + Tail(ws, r);
  }

  lemma {:induction false} BeforeRun(ws: seq<Word>, r: Run, i: nat)
    requires FitsRun(ws, r) && r.Zeros? && i <= r.base
    ensures Text6From(ws, r, i) == (if 0 < i < r.base then ":" else "") + (Join(ws[i..r.base]) + ("::" + Tail(ws, r)))
    decreases 8 - i
  {
    var rest := "::" + Tail(ws, r);
    if i == r.base {
      AtRun(ws, r);
      assert ws[i..r.base] == [] && "" + ("" + rest) == rest;
    } else {
      TextStep(ws, r, i);
      JoinStep(ws, i, r.base, rest);
      BeforeRun(ws, r, i + 1);
    }
  }

  // ----- the parser on a printed group -----

  lemma {:induction false} HexLength(n: nat)
    requires n < 65536
    ensures |Hex(n)| <= 4
  {
    if n >= 16 {
      assert |Hex(n)| == |Hex(n / 16)| + 1;
      if n >= 256 {
        assert |Hex(n / 16)| == |Hex(n / 256)| + 1 by { assert n / 16 / 16 == n / 256; }
        if n >= 4096 {
          assert |Hex(n / 256)| == |Hex(n / 4096)| + 1 by { assert n / 256 / 16 == n / 4096; }
        }
      }
    }
  }

  lemma {:induction false} ParseHex(n: nat, x: string, tok: string, out: seq<Byte>, colon: Option<nat>)
    requires |Hex(n)| <= 4 && |out| <= 16 && (colon.Some? ==> colon.value <= |out|)
    ensures Parse6(Hex(n) + x, tok, out, colon, 0, 0) == Parse6(x, tok, out, colon, |Hex(n)|, n)
    decreases n
  {
    var c := HexDigit(n % 16);
    assert HexValue(c) == Some(n % 16);
    if n < 16 {
      assert (Hex(n) + x)[1..] == x;
    } else {
      assert Hex(n) + x == Hex(n / 16) + ([c] + x);
      ParseHex(n / 16, [c] + x, tok, out, colon);
      assert ([c] + x)[1..] == x;
    }
  }

  /** A group and the colon behind it. */
  lemma {:induction false} ParseGroup(w: Word, x: string, tok: string, out: seq<Byte>, colon: Option<nat>)
    requires x != [] && |out| + 2 <= 16 && (colon.Some? ==> colon.value <= |out|)
    ensures Parse6(Hex(w) + ":" + x, tok, out, colon, 0, 0) == Parse6(x, x, out + [w / 256, w % 256], colon, 0, 0)
  {
    HexLength(w);
    ParseHex(w, ":" + x, tok, out, colon);
    ParseColon(w, x, tok, out, colon, |Hex(w)|);
    assert Hex(w) + ":" + x == Hex(w) + (":" + x);
  }

  lemma {:induction false} ParseColon(w: Word, x: string, tok: string, out: seq<Byte>, colon: Option<nat>, seen: nat)
    requires x != [] && seen > 0 && |out| + 2 <= 16 && (colon.Some? ==> colon.value <= |out|)
    ensures Parse6(":" + x, tok, out, colon, seen, w) == Parse6(x, x, out + [w / 256, w % 256], colon, 0, 0)
  {
    assert (":" + x)[1..] == x && w / 256 % 256 == w / 256;
  }

  /** A colon where a group could start. */
  lemma {:induction false} ParseDoubleColon(x: string, tok: string, out: seq<Byte>)
    requires |out| <= 16
    ensures Parse6(":" + x, tok, out, None, 0, 0) == Parse6(x, x, out, Some(|out|), 0, 0)
  {
    assert (":" + x)[1..] == x;
  }

  lemma {:induction false} BytesCons(ws: seq<Word>)
    requires ws != []
    ensures BytesOf(ws) == [ws[0] / 256, ws[0] % 256] + BytesOf(ws[1..])
    decreases |ws|
  {
    var m := |ws| - 1;
    if m == 0 {
      assert ws[..0] == [] && ws[1..] == [];
    } else {
      BytesCons(ws[..m]);
      assert ws[..m][1..] == ws[1..][..m - 1];
    }
  }

  lemma {:induction false} BytesAppend(a: seq<Word>, b: seq<Word>)
    ensures BytesOf(a + b) == BytesOf(a) + BytesOf(b)
    decreases |b|
  {
    if b == [] {
      assert a + b == a;
    } else {
      var m := |b| - 1;
      assert (a + b)[..|a| + m] == a + b[..m];
      BytesAppend(a, b[..m]);
    }
  }

  /** Words joined by colons, up to the end of the text. */
  lemma {:induction false} ParseLastGroups(ws: seq<Word>, tok: string, out: seq<Byte>, colon: Option<nat>)
    requires ws != [] && |out| + 2 * |ws| <= 16 && (colon.Some? ==> colon.value <= |out|)
    ensures Parse6(Join(ws), tok, out, colon, 0, 0) == Finish(out + BytesOf(ws), colon, 0, 0)
    decreases |ws|
  {
    var pair := [ws[0] / 256, ws[0] % 256];
    FirstWord(out, ws);
    if |ws| == 1 {
      ParseLastWord(ws[0], tok, out, colon);
    } else {
      ParseGroup(ws[0], Join(ws[1..]), tok, out, colon);
      ParseLastGroups(ws[1..], Join(ws[1..]), out + pair, colon);
    }
  }

  lemma {:induction false} ParseLastWord(w: Word, tok: string, out: seq<Byte>, colon: Option<nat>)
    requires |out| + 2 <= 16 && (colon.Some? ==> colon.value <= |out|)
    ensures Parse6(Hex(w), tok, out, colon, 0, 0) == Finish(out + [w / 256, w % 256], colon, 0, 0)
  {
    HexLength(w);
    ParseHex(w, "", tok, out, colon);
    assert Hex(w) + "" == Hex(w) && w / 256 % 256 == w / 256;
  }

  lemma {:induction false} FirstWord(out: seq<Byte>, ws: seq<Word>)
    requires ws != []
    ensures var pair := [ws[0] / 256, ws[0] % 256];
      out + pair + BytesOf(ws[1..]) == out + BytesOf(ws) && (|ws| == 1 ==> out + pair == out + BytesOf(ws))
  {
    BytesCons(ws);
    var pair := [ws[0] / 256, ws[0] % 256];
    assert out + pair + BytesOf(ws[1..]) == out + (pair + BytesOf(ws[1..]));
    if |ws| == 1 { assert ws[1..] == [] && pair + [] == pair; }
  }

  lemma {:induction false} ParseWordDoubleColon(w: Word, x: string, tok: string, out: seq<Byte>)
    requires |out| + 2 <= 16
    ensures Parse6(Hex(w) + ("::" + x), tok, out, None, 0, 0) ==
      Parse6(x, x, out + [w / 256, w % 256], Some(|out| + 2), 0, 0)
  {
    assert Hex(w) + ("::" + x) == Hex(w) + ":" + (":" + x);
    ParseGroup(w, ":" + x, tok, out, None);
    ParseDoubleColon(x, ":" + x, out + [w / 256, w % 256]);
  }

  lemma {:induction false} JoinGroup(ws: seq<Word>, x: string)
    requires |ws| > 1
    ensures Join(ws) + x == Hex(ws[0]) + ":" + (Join(ws[1..]) + x)
  {
  }

  /** Words joined by colons in front of a double colon. */
  lemma {:induction false} ParseFirstGroups(ws: seq<Word>, x: string, tok: string, out: seq<Byte>)
    requires ws != [] && |out| + 2 * |ws| <= 16
    ensures Parse6(Join(ws) + ("::" + x), tok, out, None, 0, 0) ==
      Parse6(x, x, out + BytesOf(ws), Some(|out| + 2 * |ws|), 0, 0)
    decreases |ws|
  {
    var pair := [ws[0] / 256, ws[0] % 256];
    FirstWord(out, ws);
    if |ws| == 1 {
      ParseWordDoubleColon(ws[0], x, tok, out);
    } else {
      var rest := Join(ws[1..]) + ("::" + x);
      JoinGroup(ws, "::" + x);
      ParseGroup(ws[0], rest, tok, out, None);
      ParseFirstGroups(ws[1..], x, rest, out + pair);
    }
  }

  /** The first octet of an embedded address reads as hex digits until its dot. */
  lemma {:induction false} ParseDigits(n: nat, x: string, tok: string, out: seq<Byte>, colon: Option<nat>)
    returns (v: nat)
    requires |Dec(n)| <= 4 && |out| <= 16 && (colon.Some? ==> colon.value <= |out|)
    ensures Parse6(Dec(n) + x, tok, out, colon, 0, 0) == Parse6(x, tok, out, colon, |Dec(n)|, v)
    decreases n
  {
    var c := DecDigit(n % 10);
    assert HexValue(c) == Some(n % 10);
    if n < 10 {
      assert (Dec(n) + x)[1..] == x;
      v := n;
    } else {
      assert Dec(n) + x == Dec(n / 10) + ([c] + x);
      v := ParseDigits(n / 10, [c] + x, tok, out, colon);
      assert ([c] + x)[1..] == x;
      v := v * 16 + n % 10;
    }
  }

  lemma {:induction false} DecLength(n: nat)
    requires n < 256
    ensures |Dec(n)| <= 3
  {
    if n >= 10 {
      assert |Dec(n)| == |Dec(n / 10)| + 1;
      if n >= 100 { assert |Dec(n / 10)| == |Dec(n / 100)| + 1 by { assert n / 10 / 10 == n / 100; } }
    }
  }

  lemma {:induction false} ParseQuad(a: seq<Byte>, out: seq<Byte>, colon: Option<nat>)
    requires |a| == 4 && |out| + 4 <= 16 && (colon.Some? ==> colon.value <= |out|)
    ensures Parse6(Text4(a), Text4(a), out, colon, 0, 0) == Finish(out + a, colon, 0, 0)
  {
    Parse4Complete(a);
    DecLength(a[0]);
    var rest := "." + (Dec(a[1]) + "." + (Dec(a[2]) + "." + Dec(a[3])));
    assert Text4(a) == Dec(a[0]) + rest;
    var v := ParseDigits(a[0], rest, Text4(a), out, colon);
  }

  // ----- reading undoes printing -----

  lemma {:induction false} ParseTail(ws: seq<Word>, r: Run, out: seq<Byte>)
    requires FitsRun(ws, r) && r.Zeros? && |out| == 2 * r.base
    ensures var t := Tail(ws, r);
      Parse6(t, t, out, Some(|out|), 0, 0) == Finish(out + BytesOf(ws[r.base + r.len..]), Some(|out|), 0, 0)
  {
    var e := r.base + r.len;
    var t, colon := Tail(ws, r), Some(|out|);
    var quad := BytesOf(ws)[12..16];
    if Embeds(ws, r, 6) && r.len == 6 {
      QuadWords(ws);
      ParseQuad(quad, out, colon);
    } else if Embeds(ws, r, 6) && r.len == 5 {
      QuadWords(ws);
      var pair := [ws[5] / 256, ws[5] % 256];
      ParseGroup(ws[5], Text4(quad), t, out, colon);
      ParseQuad(quad, out + pair, colon);
      BytesCons(ws[5..]);
      assert ws[5..][1..] == ws[6..];
      assert out + pair + quad == out + (pair + quad);
    } else if e < 8 {
      ParseLastGroups(ws[e..], t, out, colon);
    } else {
      assert ws[e..] == [] && out + [] == out;
    }
  }

  lemma {:induction false} QuadWords(ws: seq<Word>)
    requires |ws| == 8
    ensures BytesOf(ws[6..]) == BytesOf(ws)[12..16]
  {
    assert ws == ws[..6] + ws[6..];
    BytesAppend(ws[..6], ws[6..]);
  }

  lemma {:induction false} BytesZero(ws: seq<Word>)
    requires forall i :: 0 <= i < |ws| ==> ws[i] == 0
    ensures BytesOf(ws) == seq(2 * |ws|, _ => 0)
    decreases |ws|
  {
    if ws != [] {
      BytesZero(ws[..|ws| - 1]);
    }
  }

  /** The three parts of an address are put back where they were. */
  lemma {:induction false} SpreadParts(ws: seq<Word>, r: Run)
    requires FitsRun(ws, r) && r.Zeros?
    ensures var a, b := BytesOf(ws[..r.base]), BytesOf(ws[r.base + r.len..]);
      |a + b| < 16 && Spread(a + b, |a|) == BytesOf(ws)
  {
    var e := r.base + r.len;
    var a, z, b := ws[..r.base], ws[r.base..e], ws[e..];
    assert ws == a + z + b;
    BytesAppend(a + z, b);
    BytesAppend(a, z);
    BytesZero(z);
    var all := BytesOf(a) + BytesOf(b);
    assert all[..2 * |a|] == BytesOf(a) && all[2 * |a|..] == BytesOf(b);
  }

  /** Up to and including the double colon. */
  lemma {:induction false} ParseHead(ws: seq<Word>, t: string)
    requires |ws| <= 8
    ensures Pton6(Join(ws) + ("::" + t)) == Parse6(t, t, BytesOf(ws), Some(2 * |ws|), 0, 0)
  {
    var text := Join(ws) + ("::" + t);
    if ws == [] {
      assert text == "::" + t && text[1..] == ":" + t && (":" + t)[1..] == t;
    } else {
      ParseFirstGroups(ws, t, text, []);
      assert [] + BytesOf(ws) == BytesOf(ws);
      JoinStarts(ws, "::" + t);
    }
  }

  lemma {:induction false} ParseWithRun(ws: seq<Word>, r: Run)
    requires FitsRun(ws, r) && r.Zeros?
    ensures Pton6(Text6From(ws, r, 0)) ==
      Finish(BytesOf(ws[..r.base]) + BytesOf(ws[r.base + r.len..]), Some(2 * r.base), 0, 0)
  {
    BeforeRun(ws, r, 0);
    assert ws[0..r.base] == ws[..r.base];
    assert Text6From(ws, r, 0) == Join(ws[..r.base]) + ("::" + Tail(ws, r));
    ParseTail(ws, r, BytesOf(ws[..r.base]));
    ParseHead(ws[..r.base], Tail(ws, r));
  }

  lemma {:induction false} JoinStarts(ws: seq<Word>, x: string)
    requires ws != []
    ensures (Join(ws) + x)[0] != ':'
  {
    HexStarts(ws[0]);
  }

  lemma {:induction false} HexStarts(n: nat)
    ensures Hex(n)[0] != ':'
  {
    if n >= 16 { HexStarts(n / 16); }
  }

  /** What inet_ntop6 prints for an address, whichever run of two or more zero words it abbreviates
      and with or without an embedded IPv4 address, inet_pton6 reads as that address. */
  lemma {:induction false} Pton6OfNtop6(ws: seq<Word>, r: Run)
    requires FitsRun(ws, r)
    ensures Pton6(Text6From(ws, r, 0)) == Some(BytesOf(ws))
  {
    if r.Zeros? {
      ParseWithRun(ws, r);
      SpreadParts(ws, r);
    } else {
      JoinFrom(ws, r, 0);
      assert ws[0..8] == ws && "" + (Join(ws) + "") == Join(ws);
      JoinStarts(ws, "");
      ParseLastGroups(ws, Join(ws), [], None);
      assert [] + BytesOf(ws) == BytesOf(ws);
    }
  }
}
