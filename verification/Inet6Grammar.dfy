/** The accepted IPv6 texts as a grammar: groups of one to four hex digits, in either case and with leading zeros, with
    :: for missing groups and an IPv4 address for the last two. The parser accepts exactly these. */
module Inet6Grammar {
  import opened Common
  import opened InetSpec
  import opened Inet6Spec

  // ----- digits and groups -----

  const LOWER: string := "0123456789abcdef"
  const UPPER: string := "0123456789ABCDEF"

  /** c is the hex digit d. */
  predicate IsHexDigit(c: char, d: nat) { d < 16 && (LOWER[d] == c || UPPER[d] == c) }

  lemma {:induction false} HexValueExact(c: char, d: nat)
    ensures HexValue(c) == Some(d) <==> IsHexDigit(c, d)
  {
    LowerAt(d);
    if HexValue(c).Some? { LowerAt(HexValue(c).value); }
  }

  lemma {:induction false} LowerAt(d: nat)
    ensures |LOWER| == |UPPER| == 16
    ensures d < 10 ==> LOWER[d] == UPPER[d] == ('0' as nat + d) as char
    ensures 10 <= d < 16 ==> LOWER[d] == ('a' as nat + d - 10) as char && UPPER[d] == ('A' as nat + d - 10) as char
  {
    if d < 16 {
      assert d == 0 || d == 1 || d == 2 || d == 3 || d == 4 || d == 5 || d == 6 || d == 7
        || d == 8 || d == 9 || d == 10 || d == 11 || d == 12 || d == 13 || d == 14 || d == 15;
    }
  }

  ghost predicate Spells(g: string, ds: seq<nat>) {
    |g| == |ds| && forall i :: 0 <= i < |g| ==> IsHexDigit(g[i], ds[i])
  }

  function Base16(ds: seq<nat>): (n: nat) {
    if ds == [] then 0 else 16 * Base16(ds[..|ds| - 1]) + ds[|ds| - 1]
  }

  /** g is the number n in base 16. */
  ghost predicate IsHex(g: string, n: nat) { exists ds :: Spells(g, ds) && Base16(ds) == n }

  /** One to four digits. The bound variable keeps IsHex folded for the verifier until it is mentioned. */
  ghost predicate IsGroup(g: string, w: nat) { 1 <= |g| <= 4 && forall h :: h == g ==> IsHex(h, w) }

  lemma {:induction false} HexEmpty()
    ensures IsHex("", 0)
  {
    assert Spells("", []) && Base16([]) == 0;
  }

  lemma {:induction false} HexSnoc(g: string, n: nat, c: char, d: nat)
    requires IsHex(g, n) && IsHexDigit(c, d)
    ensures IsHex(g + [c], 16 * n + d)
  {
    var ds :| Spells(g, ds) && Base16(ds) == n;
    var es := ds + [d];
    assert es[..|es| - 1] == ds;
    assert Spells(g + [c], es);
  }

  lemma {:induction false} BaseBound(ds: seq<nat>)
    requires forall i :: 0 <= i < |ds| ==> ds[i] < 16
    ensures |ds| <= 4 ==> Base16(ds) < 65536
    ensures |ds| <= 3 ==> Base16(ds) < 4096
    ensures |ds| <= 2 ==> Base16(ds) < 256
    ensures |ds| <= 1 ==> Base16(ds) < 16
    decreases |ds|
  {
    if ds != [] { BaseBound(ds[..|ds| - 1]); }
  }

  lemma {:induction false} HexBound(g: string, n: nat)
    requires IsHex(g, n) && |g| <= 4
    ensures n < 65536
  {
    var ds :| Spells(g, ds) && Base16(ds) == n;
    BaseBound(ds);
  }

  // ----- the grammar -----

  /** Texts with a separator behind each. */
  function Heads(ts: seq<string>): (s: string) {
    if ts == [] then "" else ts[0] + ":" + Heads(ts[1..])
  }

  /** Texts with separators between them. */
  function Joined(ts: seq<string>): (s: string) {
    if ts == [] then "" else Heads(ts[..|ts| - 1]) + ts[|ts| - 1]
  }

  /** An address as it is written: the groups in front of :: and behind it, or all of them behind if there is none, and
      an IPv4 address at the end. */
  datatype Reading = Reading(front: seq<string>, gap: bool, back: seq<string>, quad: Option<seq<Byte>>)

  ghost predicate AreGroups(ts: seq<string>, ws: seq<Word>) {
    |ts| == |ws| && forall i {:trigger IsGroup(ts[i], ws[i])} :: 0 <= i < |ts| ==> IsGroup(ts[i], ws[i])
  }

  /** The text of a reading. */
  function TextOf(r: Reading): (s: string)
    requires r.quad.Some? ==> |r.quad.value| == 4
  {
    Opening(r.front, r.gap) + Ending(r.back, r.quad)
  }

  function Opening(ts: seq<string>, gap: bool): (s: string) {
    if !gap then "" else if ts == [] then "::" else Heads(ts) + ":"
  }

  function Ending(ts: seq<string>, quad: Option<seq<Byte>>): (s: string)
    requires quad.Some? ==> |quad.value| == 4
  {
    if quad.Some? then Heads(ts) + Text4(quad.value) else Joined(ts)
  }

  /** The bytes at the end of an address. */
  function EndBytes(ws: seq<Word>, quad: Option<seq<Byte>>): (b: seq<Byte>) {
    BytesOf(ws) + if quad.Some? then quad.value else []
  }

  /** The text s is a way to write the sixteen bytes b: eight groups, two of which may be an IPv4 address, or fewer with
      :: for the missing ones, of which there is at least one. */
  ghost predicate Writes(s: string, b: seq<Byte>) {
    exists r, front, back :: WritesAs(s, b, r, front, back)
  }

  ghost predicate WritesAs(s: string, b: seq<Byte>, r: Reading, front: seq<Word>, back: seq<Word>) {
    && (r.quad.Some? ==> |r.quad.value| == 4) && s == TextOf(r)
    && AreGroups(r.front, front) && AreGroups(r.back, back)
    && var e := EndBytes(back, r.quad);
       if r.gap then |BytesOf(front)| + |e| < 16 && b == BytesOf(front) + Zeros16(16 - |BytesOf(front)| - |e|) + e
       else r.front == [] && |e| == 16 && b == e
  }

  function Zeros16(n: int): (b: seq<Byte>)
    requires n >= 0
  {
    seq(n, _ => 0)
  }

  // ----- the parser on a group -----

  predicate Fits(out: seq<Byte>, colon: Option<nat>) { |out| <= 16 && (colon.Some? ==> colon.value <= |out|) }

  lemma {:induction false} ParseDigit(c: char, d: nat, x: string, tok: string, out: seq<Byte>, colon: Option<nat>,
                                      seen: nat, val: nat)
    requires IsHexDigit(c, d) && seen < 4 && Fits(out, colon)
    ensures Parse6([c] + x, tok, out, colon, seen, val) == Parse6(x, tok, out, colon, seen + 1, 16 * val + d)
  {
    HexValueExact(c, d);
    assert ([c] + x)[1..] == x;
  }

  /** The parser's result, unfolded only where Parse6 is named. */
  predicate Parses(s: string, tok: string, out: seq<Byte>, colon: Option<nat>, seen: nat, val: nat,
                   r: Option<seq<Byte>>)
  {
    Fits(out, colon) && forall n: nat :: n == seen ==> Parse6(s, tok, out, colon, n, val) == r
  }

  lemma {:induction false} DigitParses(c: char, d: nat, x: string, tok: string, out: seq<Byte>, colon: Option<nat>,
                                       seen: nat, val: nat, r: Option<seq<Byte>>)
    requires IsHexDigit(c, d) && seen < 4 && Parses(x, tok, out, colon, seen + 1, 16 * val + d, r)
    ensures Parses([c] + x, tok, out, colon, seen, val, r)
  {
    ParseDigit(c, d, x, tok, out, colon, seen, val);
  }

  lemma {:induction false} SpelledParses(g: string, ds: seq<nat>, x: string, tok: string, out: seq<Byte>,
                                         colon: Option<nat>, r: Option<seq<Byte>>)
    requires Spells(g, ds) && |g| <= 4 && Parses(x, tok, out, colon, |g|, Base16(ds), r)
    ensures Parses(g + x, tok, out, colon, 0, 0, r)
    decreases |g|
  {
    if g == "" {
      assert g + x == x;
    } else {
      var m := |g| - 1;
      var c, d := g[m], ds[m];
      assert IsHexDigit(c, d);
      var h, es := g[..m], ds[..m];
      forall i | 0 <= i < m ensures IsHexDigit(h[i], es[i]) { assert IsHexDigit(g[i], ds[i]); }
      DigitParses(c, d, x, tok, out, colon, m, Base16(es), r);
      SpelledParses(h, es, [c] + x, tok, out, colon, r);
      assert g + x == h + ([c] + x);
    }
  }

  lemma {:induction false} ParseGroupText(g: string, w: Word, x: string, tok: string, out: seq<Byte>,
                                          colon: Option<nat>)
    requires IsGroup(g, w) && Fits(out, colon)
    ensures Parse6(g + x, tok, out, colon, 0, 0) == Parse6(x, tok, out, colon, |g|, w)
  {
    assert IsHex(g, w);
    var ds :| Spells(g, ds) && Base16(ds) == w;
    var r := Parse6(x, tok, out, colon, |g|, w);
    SpelledParses(g, ds, x, tok, out, colon, r);
    assert Parse6(g + x, tok, out, colon, 0, 0) == r;
  }

  function PairOf(w: Word): (b: seq<Byte>) { [w / 256, w % 256] }

  /** A group and the colon behind it. */
  lemma {:induction false} ParseHead1(g: string, w: Word, x: string, tok: string, out: seq<Byte>, colon: Option<nat>)
    requires IsGroup(g, w) && x != "" && |out| + 2 <= 16 && Fits(out, colon)
    ensures Parse6(g + ":" + x, tok, out, colon, 0, 0) == Parse6(x, x, out + PairOf(w), colon, 0, 0)
  {
    assert g + ":" + x == g + (":" + x);
    ParseGroupText(g, w, ":" + x, tok, out, colon);
    ParseColon(w, x, tok, out, colon, |g|);
  }

  /** Groups, each with a colon behind it. */
  lemma {:induction false} ParseHeads(ts: seq<string>, ws: seq<Word>, x: string, tok: string, out: seq<Byte>,
                                      colon: Option<nat>)
    requires AreGroups(ts, ws) && x != "" && ts != [] && |out| + 2 * |ws| <= 16 && Fits(out, colon)
    ensures Parse6(Heads(ts) + x, tok, out, colon, 0, 0) == Parse6(x, x, out + BytesOf(ws), colon, 0, 0)
    decreases |ts|
  {
    FirstWord(out, ws);
    var rest := Heads(ts[1..]) + x;
    HeadsFirst(ts, x);
    assert IsGroup(ts[0], ws[0]);
    ParseHead1(ts[0], ws[0], rest, tok, out, colon);
    if |ts| == 1 {
      assert rest == x by { assert ts[1..] == [] && "" + x == x; }
    } else {
      RestGroups(ts, ws);
      ParseHeads(ts[1..], ws[1..], x, rest, out + PairOf(ws[0]), colon);
    }
  }

  lemma {:induction false} HeadsFirst(ts: seq<string>, x: string)
    requires ts != [] && x != ""
    ensures Heads(ts) + x == ts[0] + ":" + (Heads(ts[1..]) + x) && Heads(ts[1..]) + x != ""
  {
    Regroup(ts[0] + ":", Heads(ts[1..]), x);
  }

  lemma {:induction false} RestGroups(ts: seq<string>, ws: seq<Word>)
    requires AreGroups(ts, ws) && ts != []
    ensures AreGroups(ts[1..], ws[1..]) && AreGroups(ts[..|ts| - 1], ws[..|ts| - 1])
  {
    var us, vs := ts[1..], ws[1..];
    forall i | 0 <= i < |us| ensures IsGroup(us[i], vs[i]) { assert IsGroup(ts[i + 1], ws[i + 1]); }
  }

  /** A last group. */
  lemma {:induction false} ParseLast(g: string, w: Word, tok: string, out: seq<Byte>, colon: Option<nat>)
    requires IsGroup(g, w) && |out| + 2 <= 16 && Fits(out, colon)
    ensures Parse6(g, tok, out, colon, 0, 0) == Finish(out + PairOf(w), colon, 0, 0)
  {
    ParseGroupText(g, w, "", tok, out, colon);
    assert g + "" == g && w / 256 % 256 == w / 256;
  }

  /** What stands at the end of a text. */
  lemma {:induction false} ParseEnding(ts: seq<string>, ws: seq<Word>, quad: Option<seq<Byte>>, out: seq<Byte>,
                                       colon: Option<nat>)
    requires AreGroups(ts, ws) && (quad.Some? ==> |quad.value| == 4) && Fits(out, colon)
    requires |out| + |EndBytes(ws, quad)| <= 16
    ensures var s := Ending(ts, quad); Parse6(s, s, out, colon, 0, 0) == Finish(out + EndBytes(ws, quad), colon, 0, 0)
  {
    var s := Ending(ts, quad);
    if quad.Some? {
      var q := Text4(quad.value);
      if ts == [] {
        assert s == q && EndBytes(ws, quad) == quad.value;
        ParseQuad(quad.value, out, colon);
      } else {
        ParseHeads(ts, ws, q, s, out, colon);
        ParseQuad(quad.value, out + BytesOf(ws), colon);
        assert out + BytesOf(ws) + quad.value == out + EndBytes(ws, quad);
      }
    } else if ts == [] {
      assert EndBytes(ws, quad) == [] && out + [] == out;
    } else {
      ParseJoined(ts, ws, out, colon);
      assert EndBytes(ws, quad) == BytesOf(ws);
    }
  }

  lemma {:induction false} ParseJoined(ts: seq<string>, ws: seq<Word>, out: seq<Byte>, colon: Option<nat>)
    requires AreGroups(ts, ws) && ts != [] && |out| + 2 * |ws| <= 16 && Fits(out, colon)
    ensures Parse6(Joined(ts), Joined(ts), out, colon, 0, 0) == Finish(out + BytesOf(ws), colon, 0, 0)
  {
    var m := |ts| - 1;
    var s := Joined(ts);
    assert IsGroup(ts[m], ws[m]);
    RestGroups(ts, ws);
    if m == 0 {
      assert s == ts[0] && ws[..0] == [];
      ParseLast(ts[0], ws[0], s, out, colon);
      assert BytesOf(ws) == PairOf(ws[0]) by { assert BytesOf(ws[..0]) == []; }
    } else {
      ParseHeads(ts[..m], ws[..m], ts[m], s, out, colon);
      ParseLast(ts[m], ws[m], ts[m], out + BytesOf(ws[..m]), colon);
      assert out + BytesOf(ws[..m]) + PairOf(ws[m]) == out + BytesOf(ws);
    }
  }

  // ----- every text of the grammar is accepted -----

  lemma {:induction false} GroupStarts(g: string, w: nat)
    requires IsGroup(g, w)
    ensures g[0] != ':'
  {
    assert IsHex(g, w);
    var ds :| Spells(g, ds) && Base16(ds) == w;
    assert IsHexDigit(g[0], ds[0]);
    HexValueExact(g[0], ds[0]);
  }

  lemma {:induction false} EndingStarts(ts: seq<string>, ws: seq<Word>, quad: Option<seq<Byte>>)
    requires AreGroups(ts, ws) && (quad.Some? ==> |quad.value| == 4) && (ts != [] || quad.Some?)
    ensures Ending(ts, quad) != "" && Ending(ts, quad)[0] != ':'
  {
    if ts == [] {
      DecStarts(quad.value[0]);
    } else {
      assert IsGroup(ts[0], ws[0]);
      GroupStarts(ts[0], ws[0]);
    }
  }

  lemma {:induction false} DecStarts(n: nat)
    ensures Dec(n)[0] != ':'
  {
    if n >= 10 { DecStarts(n / 10); }
  }

  /** The result for a text, unfolded only where Pton6 is named. */
  predicate Gives(s: string, r: Option<seq<Byte>>) { forall t :: t == s ==> Pton6(t) == r }

  lemma {:induction false} WithoutGap(back: seq<string>, ws: seq<Word>, quad: Option<seq<Byte>>)
    requires AreGroups(back, ws) && (quad.Some? ==> |quad.value| == 4) && |EndBytes(ws, quad)| == 16
    ensures Gives(Ending(back, quad), Some(EndBytes(ws, quad)))
  {
    EndingStarts(back, ws, quad);
    ParseEnding(back, ws, quad, [], None);
    assert [] + EndBytes(ws, quad) == EndBytes(ws, quad);
  }

  lemma {:induction false} OpeningGives(front: seq<string>, ws: seq<Word>, e: string, r: Option<seq<Byte>>)
    requires AreGroups(front, ws) && |ws| <= 8 && Parses(e, e, BytesOf(ws), Some(2 * |ws|), 0, 0, r)
    ensures Gives(Opening(front, true) + e, r)
  {
    OpeningParses(front, ws, e);
  }

  lemma {:induction false} OpeningParses(front: seq<string>, ws: seq<Word>, e: string)
    requires AreGroups(front, ws) && |ws| <= 8
    ensures Pton6(Opening(front, true) + e) == Parse6(e, e, BytesOf(ws), Some(2 * |ws|), 0, 0)
  {
    var text := Opening(front, true) + e;
    if front == [] {
      assert text == "::" + e && text[1..] == ":" + e;
      ParseDoubleColon(e, text[1..], []);
    } else {
      assert text == Heads(front) + (":" + e);
      HeadsFirst(front, ":" + e);
      assert IsGroup(front[0], ws[0]);
      GroupStarts(front[0], ws[0]);
      ParseHeads(front, ws, ":" + e, text, [], None);
      assert [] + BytesOf(ws) == BytesOf(ws);
      ParseDoubleColon(e, ":" + e, BytesOf(ws));
    }
  }

  lemma {:induction false} EndingParses(back: seq<string>, vs: seq<Word>, quad: Option<seq<Byte>>, a: seq<Byte>)
    requires AreGroups(back, vs) && (quad.Some? ==> |quad.value| == 4) && |a| + |EndBytes(vs, quad)| <= 16
    ensures var s := Ending(back, quad);
      Parses(s, s, a, Some(|a|), 0, 0, Finish(a + EndBytes(vs, quad), Some(|a|), 0, 0))
  {
    ParseEnding(back, vs, quad, a, Some(|a|));
  }

  lemma {:induction false} WithGap(front: seq<string>, ws: seq<Word>, back: seq<string>, vs: seq<Word>,
                                   quad: Option<seq<Byte>>)
    requires AreGroups(front, ws) && AreGroups(back, vs) && (quad.Some? ==> |quad.value| == 4)
    requires |BytesOf(ws)| + |EndBytes(vs, quad)| < 16
    ensures var a, e := BytesOf(ws), EndBytes(vs, quad);
      Gives(Opening(front, true) + Ending(back, quad), Some(a + Zeros16(16 - |a| - |e|) + e))
  {
    var a, e := BytesOf(ws), EndBytes(vs, quad);
    EndingParses(back, vs, quad, a);
    GapGives(front, ws, a, Ending(back, quad), e);
  }

  lemma {:induction false} GapGives(front: seq<string>, ws: seq<Word>, a: seq<Byte>, t: string, e: seq<Byte>)
    requires AreGroups(front, ws) && a == BytesOf(ws) && |a| + |e| < 16
    requires Parses(t, t, a, Some(|a|), 0, 0, Finish(a + e, Some(|a|), 0, 0))
    ensures Gives(Opening(front, true) + t, Some(a + Zeros16(16 - |a| - |e|) + e))
  {
    FinishSpreads(a, e);
    OpeningGives(front, ws, t, Finish(a + e, Some(|a|), 0, 0));
  }

  lemma {:induction false} FinishSpreads(a: seq<Byte>, e: seq<Byte>)
    requires |a| + |e| < 16
    ensures Finish(a + e, Some(|a|), 0, 0) == Some(a + Zeros16(16 - |a| - |e|) + e)
  {
    assert (a + e)[..|a|] == a && (a + e)[|a|..] == e;
  }

  lemma {:induction false} WritesAccepted(s: string, b: seq<Byte>)
    requires Writes(s, b)
    ensures Pton6(s) == Some(b)
  {
    var r, front, back :| WritesAs(s, b, r, front, back);
    AcceptedAs(s, b, r, front, back);
  }

  lemma {:induction false} AcceptedAs(s: string, b: seq<Byte>, r: Reading, front: seq<Word>, back: seq<Word>)
    requires WritesAs(s, b, r, front, back)
    ensures Gives(s, Some(b))
  {
    var t := Ending(r.back, r.quad);
    if r.gap {
      WithGap(r.front, front, r.back, back, r.quad);
    } else {
      WithoutGap(r.back, back, r.quad);
      assert "" + t == t;
    }
  }

  // ----- every accepted text is one of the grammar -----

  /** Where the parser stands: the groups that are complete, and the digits of the current one. */
  datatype State = State(front: seq<string>, ws: seq<Word>, gap: bool, back: seq<string>, vs: seq<Word>, cur: string)

  ghost predicate Stands(st: State, out: seq<Byte>, colon: Option<nat>, val: nat) {
    && AreGroups(st.front, st.ws) && AreGroups(st.back, st.vs) && (!st.gap ==> st.front == [])
    && out == BytesOf(st.ws) + BytesOf(st.vs) && |out| <= 16
    && colon == (if st.gap then Some(|BytesOf(st.ws)|) else None)
    && |st.cur| <= 4 && IsHex(st.cur, val)
  }

  /** What may come next: a text does not begin with a single colon, nor end with one. */
  predicate Comes(st: State, s: string) {
    && (st.cur == "" && s == "" ==> st.back == [])
    && (!st.gap && st.back == [] && st.cur == "" && s != "" ==> s[0] != ':')
  }

  function Before(st: State): (s: string) { Opening(st.front, st.gap) + Heads(st.back) }

  lemma {:induction false} HeadsSnoc(ts: seq<string>, t: string)
    ensures Heads(ts + [t]) == Heads(ts) + (t + ":")
    ensures Joined(ts + [t]) == Heads(ts) + t
    decreases |ts|
  {
    assert (ts + [t])[..|ts|] == ts;
    if ts == [] {
      assert ([t])[1..] == [] && t + ":" + "" == "" + (t + ":");
      assert [] + [t] == [t];
    } else {
      assert (ts + [t])[1..] == ts[1..] + [t] && (ts + [t])[0] == ts[0];
      HeadsSnoc(ts[1..], t);
      Regroup(ts[0] + ":", Heads(ts[1..]), t + ":");
    }
  }

  lemma {:induction false} MoreGroups(ts: seq<string>, ws: seq<Word>, t: string, w: Word)
    requires AreGroups(ts, ws) && IsGroup(t, w)
    ensures AreGroups(ts + [t], ws + [w]) && BytesOf(ws + [w]) == BytesOf(ws) + PairOf(w)
  {
    assert (ws + [w])[..|ws|] == ws;
  }

  /** The end of a text, with an ending of its own. */
  lemma {:induction false} EndSound(front: seq<string>, ws: seq<Word>, gap: bool, back: seq<string>, vs: seq<Word>,
                                    quad: Option<seq<Byte>>, b: seq<Byte>)
    requires AreGroups(front, ws) && AreGroups(back, vs) && (!gap ==> front == [])
    requires (quad.Some? ==> |quad.value| == 4) && |BytesOf(ws) + EndBytes(vs, quad)| <= 16
    requires Finish(BytesOf(ws) + EndBytes(vs, quad), if gap then Some(|BytesOf(ws)|) else None, 0, 0) == Some(b)
    ensures Writes(Opening(front, gap) + Ending(back, quad), b)
  {
    FinishMeans(BytesOf(ws), EndBytes(vs, quad), gap, b);
    assert WritesAs(Opening(front, gap) + Ending(back, quad), b, Reading(front, gap, back, quad), ws, vs);
  }

  lemma {:induction false} FinishMeans(a: seq<Byte>, e: seq<Byte>, gap: bool, b: seq<Byte>)
    requires |a + e| <= 16 && (!gap ==> a == []) && Finish(a + e, if gap then Some(|a|) else None, 0, 0) == Some(b)
    ensures if gap then |a| + |e| < 16 && b == a + Zeros16(16 - |a| - |e|) + e else |e| == 16 && b == e
  {
    assert (a + e)[..|a|] == a && (a + e)[|a|..] == e;
    if !gap { assert a + e == e; }
  }

  /** The text ends behind :: . */
  lemma {:induction false} BareSound(st: State, out: seq<Byte>, colon: Option<nat>, val: nat, b: seq<Byte>)
    requires Stands(st, out, colon, val) && st.cur == "" && st.back == [] && Finish(out, colon, 0, val) == Some(b)
    ensures Writes(Before(st), b)
  {
    assert out == BytesOf(st.ws) + EndBytes(st.vs, None);
    assert Finish(out, colon, 0, 0) == Finish(out, colon, 0, val);
    EndSound(st.front, st.ws, st.gap, st.back, st.vs, None, b);
  }

  /** The text ends with a group. */
  lemma {:induction false} GroupSound(st: State, out: seq<Byte>, colon: Option<nat>, val: nat, b: seq<Byte>)
    requires Stands(st, out, colon, val) && st.cur != "" && Finish(out, colon, |st.cur|, val) == Some(b)
    ensures Writes(Before(st) + st.cur, b)
  {
    HexBound(st.cur, val);
    var w: Word := val;
    MoreGroups(st.back, st.vs, st.cur, w);
    HeadsSnoc(st.back, st.cur);
    assert val / 256 % 256 == val / 256;
    var all := out + PairOf(w);
    assert all == BytesOf(st.ws) + EndBytes(st.vs + [w], None);
    assert Finish(all, colon, 0, 0) == Some(b);
    EndSound(st.front, st.ws, st.gap, st.back + [st.cur], st.vs + [w], None, b);
    Regroup(Opening(st.front, st.gap), Heads(st.back), st.cur);
  }

  lemma {:induction false} QuadSound(st: State, tok: string, out: seq<Byte>, colon: Option<nat>, val: nat, a: seq<Byte>,
                                     b: seq<Byte>)
    requires Stands(st, out, colon, val) && |a| == 4 && Pton4(tok) == Some(a) && |out| + 4 <= 16
    requires Finish(out + a, colon, 0, 0) == Some(b)
    ensures Writes(Before(st) + tok, b)
  {
    Pton4Exact(tok, a);
    assert out + a == BytesOf(st.ws) + EndBytes(st.vs, Some(a));
    EndSound(st.front, st.ws, st.gap, st.back, st.vs, Some(a), b);
    Regroup(Opening(st.front, st.gap), Heads(st.back), tok);
  }

  // ----- the steps of the parser -----

  lemma {:induction false} DigitStands(st: State, out: seq<Byte>, colon: Option<nat>, val: nat, c: char)
    requires Stands(st, out, colon, val) && HexValue(c).Some? && |st.cur| < 4
    ensures Stands(st.(cur := st.cur + [c]), out, colon, val * 16 + HexValue(c).value)
  {
    HexValueExact(c, HexValue(c).value);
    HexSnoc(st.cur, val, c, HexValue(c).value);
  }

  /** The group is complete. */
  function NextGroup(st: State, val: Word): (st': State) {
    st.(back := st.back + [st.cur], vs := st.vs + [val], cur := "")
  }

  lemma {:induction false} ColonStands(st: State, out: seq<Byte>, colon: Option<nat>, val: nat)
    requires Stands(st, out, colon, val) && st.cur != "" && |out| + 2 <= 16
    ensures val < 65536 && Stands(NextGroup(st, val), out + [val / 256 % 256, val % 256], colon, 0)
    ensures Before(NextGroup(st, val)) == Before(st) + (st.cur + ":")
  {
    HexBound(st.cur, val);
    var w: Word := val;
    MoreGroups(st.back, st.vs, st.cur, w);
    HeadsSnoc(st.back, st.cur);
    assert val / 256 % 256 == val / 256;
    Regroup(BytesOf(st.ws), BytesOf(st.vs), PairOf(w));
    Regroup(Opening(st.front, st.gap), Heads(st.back), st.cur + ":");
    HexEmpty();
  }

  /** The groups so far stand in front of :: . */
  function AtGap(st: State): (st': State) { State(st.back, st.vs, true, [], [], "") }

  lemma {:induction false} GapStands(st: State, out: seq<Byte>, val: nat)
    requires Stands(st, out, None, val) && st.cur == "" && st.back != []
    ensures Stands(AtGap(st), out, Some(|out|), val)
    ensures Before(AtGap(st)) == Before(st) + ":"
  {
    assert st.ws == [] && out == BytesOf(st.vs);
    assert Opening(st.back, true) + Heads([]) == Heads(st.back) + ":";
    assert Before(st) == Heads(st.back);
  }

  /** What it takes for the parser to go on from each character. */
  lemma {:induction false} Goes(s: string, tok: string, out: seq<Byte>, colon: Option<nat>, seen: nat, val: nat,
                                b: seq<Byte>)
    requires Parses(s, tok, out, colon, seen, val, Some(b))
    ensures s == "" ==> Finish(out, colon, seen, val) == Some(b)
    ensures s != "" && HexValue(s[0]).Some? ==>
      seen < 4 && Parses(s[1..], tok, out, colon, seen + 1, val * 16 + HexValue(s[0]).value, Some(b))
    ensures s != "" && s[0] == ':' && seen == 0 ==>
      colon.None? && Parses(s[1..], s[1..], out, Some(|out|), 0, val, Some(b))
    ensures s != "" && s[0] == ':' && seen > 0 ==>
      && s[1..] != "" && |out| + 2 <= 16
      && Parses(s[1..], s[1..], out + [val / 256 % 256, val % 256], colon, 0, 0, Some(b))
    ensures s != "" && HexValue(s[0]).None? && s[0] != ':' ==>
      |out| + 4 <= 16 && Pton4(tok).Some? && Finish(out + Pton4(tok).value, colon, 0, 0) == Some(b)
  {
    assert Parse6(s, tok, out, colon, seen, val) == Some(b);
    if s != "" && s[0] == ':' { assert HexValue(s[0]).None?; }
  }

  /** The parser before the rest s of the text `all`, which it will accept as b. Unfolds where Stands is named. */
  ghost predicate Running(all: string, s: string, tok: string, st: State, out: seq<Byte>, colon: Option<nat>, val: nat,
                          b: seq<Byte>)
  {
    forall n: nat :: n == val ==>
      && Stands(st, out, colon, n) && Comes(st, s) && tok == st.cur + s && all == Before(st) + tok
      && Parses(s, tok, out, colon, |st.cur|, n, Some(b))
  }

  lemma {:induction false} DigitRuns(all: string, s: string, tok: string, st: State, out: seq<Byte>, colon: Option<nat>,
                                     val: nat, b: seq<Byte>)
    requires s != "" && HexValue(s[0]).Some? && Running(all, s, tok, st, out, colon, val, b)
    ensures Running(all, s[1..], tok, st.(cur := st.cur + [s[0]]), out, colon, val * 16 + HexValue(s[0]).value, b)
  {
    assert Stands(st, out, colon, val);
    Goes(s, tok, out, colon, |st.cur|, val, b);
    DigitStands(st, out, colon, val, s[0]);
    DigitText(st, s, tok);
  }

  lemma {:induction false} DigitText(st: State, s: string, tok: string)
    requires s != "" && tok == st.cur + s
    ensures var st' := st.(cur := st.cur + [s[0]]);
      tok == st'.cur + s[1..] && Before(st') == Before(st) && Comes(st', s[1..])
  {
  }

  lemma {:induction false} GapRuns(all: string, s: string, tok: string, st: State, out: seq<Byte>, colon: Option<nat>,
                                   val: nat, b: seq<Byte>)
    requires s != "" && s[0] == ':' && st.cur == "" && Running(all, s, tok, st, out, colon, val, b)
    ensures Running(all, s[1..], s[1..], AtGap(st), out, Some(|out|), val, b)
  {
    assert Stands(st, out, colon, val);
    Goes(s, tok, out, colon, |st.cur|, val, b);
    GapStands(st, out, val);
    Behind(Before(st), "", ":", s, tok);
    assert "" + s[1..] == s[1..];
  }

  lemma {:induction false} ColonRuns(all: string, s: string, tok: string, st: State, out: seq<Byte>, colon: Option<nat>,
                                     val: nat, b: seq<Byte>)
    requires s != "" && s[0] == ':' && st.cur != "" && Running(all, s, tok, st, out, colon, val, b)
    ensures val < 65536
    ensures Running(all, s[1..], s[1..], NextGroup(st, val), out + [val / 256 % 256, val % 256], colon, 0, b)
  {
    assert Stands(st, out, colon, val);
    Goes(s, tok, out, colon, |st.cur|, val, b);
    ColonStands(st, out, colon, val);
    Behind(Before(st), st.cur, ":", s, tok);
    assert "" + s[1..] == s[1..];
  }

  lemma {:induction false} StopsRight(all: string, s: string, tok: string, st: State, out: seq<Byte>,
                                      colon: Option<nat>, val: nat, b: seq<Byte>)
    requires Running(all, s, tok, st, out, colon, val, b) && (s == "" || (HexValue(s[0]).None? && s[0] != ':'))
    ensures Writes(all, b)
  {
    assert Stands(st, out, colon, val);
    Goes(s, tok, out, colon, |st.cur|, val, b);
    if s == "" {
      EmptySound(tok, st, out, colon, val, b);
    } else {
      QuadSound(st, tok, out, colon, val, Pton4(tok).value, b);
    }
  }

  lemma {:induction false} Parse6Sound(all: string, s: string, tok: string, st: State, out: seq<Byte>,
                                       colon: Option<nat>, val: nat, b: seq<Byte>)
    requires Running(all, s, tok, st, out, colon, val, b)
    ensures Writes(all, b)
    decreases |s|
  {
    if s != "" && HexValue(s[0]).Some? {
      DigitRuns(all, s, tok, st, out, colon, val, b);
      Parse6Sound(all, s[1..], tok, st.(cur := st.cur + [s[0]]), out, colon, val * 16 + HexValue(s[0]).value, b);
    } else if s != "" && s[0] == ':' && st.cur == "" {
      GapRuns(all, s, tok, st, out, colon, val, b);
      Parse6Sound(all, s[1..], s[1..], AtGap(st), out, Some(|out|), val, b);
    } else if s != "" && s[0] == ':' {
      ColonRuns(all, s, tok, st, out, colon, val, b);
      Parse6Sound(all, s[1..], s[1..], NextGroup(st, val), out + [val / 256 % 256, val % 256], colon, 0, b);
    } else {
      StopsRight(all, s, tok, st, out, colon, val, b);
    }
  }

  lemma {:induction false} EmptySound(tok: string, st: State, out: seq<Byte>, colon: Option<nat>, val: nat,
                                      b: seq<Byte>)
    requires Stands(st, out, colon, val) && Comes(st, "") && tok == st.cur + ""
    requires Finish(out, colon, |st.cur|, val) == Some(b)
    ensures Writes(Before(st) + tok, b)
  {
    assert tok == st.cur;
    if st.cur == "" {
      BareSound(st, out, colon, val, b);
      assert Before(st) + tok == Before(st);
    } else {
      GroupSound(st, out, colon, val, b);
    }
  }

  /** The text before a step, with what was read and what is left. */
  lemma {:induction false} Behind(before: string, cur: string, c: string, s: string, tok: string)
    requires s != "" && c == [s[0]] && tok == cur + s
    ensures before + (cur + c) + s[1..] == before + tok && (cur == "" ==> before + c + s[1..] == before + tok)
  {
    assert s == c + s[1..];
    assert tok == cur + c + s[1..];
  }

  lemma {:induction false} NothingStands(gap: bool)
    ensures Stands(State([], [], gap, [], [], ""), [], if gap then Some(0) else None, 0)
  {
    HexEmpty();
  }

  lemma {:induction false} PlainStart(s: string, b: seq<Byte>)
    requires (s == "" || s[0] != ':') && Pton6(s) == Some(b)
    ensures Running(s, s, s, State([], [], false, [], [], ""), [], None, 0, b)
  {
    var st := State([], [], false, [], [], "");
    NothingStands(false);
    assert Parse6(s, s, [], None, 0, 0) == Some(b);
    assert st.cur + s == s && Before(st) == "" && "" + s == s;
    assert Parses(s, s, [], None, |st.cur|, 0, Some(b));
    assert Comes(st, s);
  }

  lemma {:induction false} GapStart(s: string, t: string, b: seq<Byte>)
    requires s == "::" + t && Pton6(s) == Some(b)
    ensures Running(s, t, t, State([], [], true, [], [], ""), [], Some(0), 0, b)
  {
    var st := State([], [], true, [], [], "");
    NothingStands(true);
    assert s[1..] == ":" + t;
    ParseDoubleColon(t, s[1..], []);
    assert Parse6(t, t, [], Some(0), 0, 0) == Some(b);
    assert st.cur + t == t && Before(st) == "::";
    assert Parses(t, t, [], Some(0), |st.cur|, 0, Some(b));
    assert Comes(st, t);
  }

  lemma {:induction false} AcceptedWrites(s: string)
    requires Pton6(s).Some?
    ensures Writes(s, Pton6(s).value)
  {
    var b := Pton6(s).value;
    if s != "" && s[0] == ':' {
      var t := s[2..];
      assert s == "::" + t;
      GapStart(s, t, b);
      Parse6Sound(s, t, t, State([], [], true, [], [], ""), [], Some(0), 0, b);
    } else {
      PlainStart(s, b);
      Parse6Sound(s, s, s, State([], [], false, [], [], ""), [], None, 0, b);
    }
  }

  /** inet_pton6 reads a text as sixteen bytes exactly when it is a way to write them. */
  lemma {:induction false} Pton6Exact(s: string, b: seq<Byte>)
    ensures Pton6(s) == Some(b) <==> Writes(s, b)
  {
    if Pton6(s) == Some(b) { AcceptedWrites(s); }
    if Writes(s, b) { WritesAccepted(s, b); }
  }

  /** A word takes two bytes, the more significant one first. */
  lemma {:induction false} BytesAt(ws: seq<Word>, i: nat)
    requires i < |ws|
    ensures |BytesOf(ws)| == 2 * |ws| && BytesOf(ws)[2 * i] == ws[i] / 256 && BytesOf(ws)[2 * i + 1] == ws[i] % 256
    decreases |ws|
  {
    if i < |ws| - 1 { BytesAt(ws[..|ws| - 1], i); }
  }

  // ----- upper and lower case -----

  /** The same character, or the same letter of a hex number in the other case. */
  predicate SameLetter(c: char, e: char) {
    || c == e
    || ('a' <= c <= 'f' && e as nat == c as nat - 'a' as nat + 'A' as nat)
    || ('a' <= e <= 'f' && c as nat == e as nat - 'a' as nat + 'A' as nat)
  }

  predicate SameLetters(s: string, t: string) {
    |s| == |t| && forall i :: 0 <= i < |s| ==> SameLetter(s[i], t[i])
  }

  lemma {:induction false} TailLetters(s: string, t: string)
    requires SameLetters(s, t) && s != ""
    ensures t != "" && SameLetter(s[0], t[0]) && SameLetters(s[1..], t[1..])
  {
    var a, b := s[1..], t[1..];
    forall i | 0 <= i < |a| ensures SameLetter(a[i], b[i]) { assert SameLetter(s[i + 1], t[i + 1]); }
  }

  lemma {:induction false} Parse4Case(s: string, t: string, done: seq<Byte>, cur: Byte, saw: bool)
    requires SameLetters(s, t) && |done| <= 3
    ensures Parse4(s, done, cur, saw) == Parse4(t, done, cur, saw)
    decreases |s|
  {
    if s != "" {
      TailLetters(s, t);
      if DecValue(s[0]).Some? {
        var sum := cur * 10 + DecValue(s[0]).value;
        if sum <= 255 { Parse4Case(s[1..], t[1..], done, sum, true); }
      } else if s[0] == '.' && |done| < 3 {
        Parse4Case(s[1..], t[1..], done + [cur], 0, false);
      }
    }
  }

  lemma {:induction false} Parse6Case(s: string, t: string, tok: string, tok': string, out: seq<Byte>,
                                      colon: Option<nat>, seen: nat, val: nat)
    requires SameLetters(s, t) && SameLetters(tok, tok') && Fits(out, colon)
    ensures Parse6(s, tok, out, colon, seen, val) == Parse6(t, tok', out, colon, seen, val)
    decreases |s|
  {
    if s != "" {
      TailLetters(s, t);
      assert HexValue(s[0]) == HexValue(t[0]);
      if HexValue(s[0]).Some? {
        if seen < 4 { Parse6Case(s[1..], t[1..], tok, tok', out, colon, seen + 1, val * 16 + HexValue(s[0]).value); }
      } else if s[0] == ':' && seen == 0 {
        if colon.None? { Parse6Case(s[1..], t[1..], s[1..], t[1..], out, Some(|out|), 0, val); }
      } else if s[0] == ':' {
        if s[1..] != "" && |out| + 2 <= 16 {
          Parse6Case(s[1..], t[1..], s[1..], t[1..], out + [val / 256 % 256, val % 256], colon, 0, 0);
        }
      } else {
        Parse4Case(tok, tok', [], 0, false);
      }
    }
  }

  /** Texts that differ only in the case of letters are read alike. */
  lemma {:induction false} CaseIgnored(s: string, t: string)
    requires SameLetters(s, t)
    ensures Pton6(s) == Pton6(t)
  {
    if s != "" {
      TailLetters(s, t);
      if |s| >= 2 { assert SameLetter(s[1], t[1]); }
      Parse6Case(s[1..], t[1..], s[1..], t[1..], [], None, 0, 0);
    }
    Parse6Case(s, t, s, t, [], None, 0, 0);
  }

  // ----- what is printed -----

  function Base10(ds: seq<nat>): (n: nat) {
    if ds == [] then 0 else 10 * Base10(ds[..|ds| - 1]) + ds[|ds| - 1]
  }

  /** Digits of a number without leading zeros, by a table of digits. */
  ghost predicate Shows(s: string, ds: seq<nat>, table: string) {
    && |s| == |ds| >= 1 && (forall i :: 0 <= i < |s| ==> ds[i] < |table| && s[i] == table[ds[i]])
    && (|ds| > 1 ==> ds[0] != 0)
  }

  lemma {:induction false} ShowsOne(c: char, d: nat, table: string)
    requires d < |table| && table[d] == c
    ensures Shows([c], [d], table) && [d][..0] == []
  {
  }

  lemma {:induction false} ShowsMore(s: string, es: seq<nat>, c: char, d: nat, table: string)
    requires Shows(s, es, table) && es[0] != 0 && d < |table| && table[d] == c
    ensures Shows(s + [c], es + [d], table) && (es + [d])[..|es + [d]| - 1] == es
  {
  }

  /** Hex is the shortest number in base 16, with lower-case letters. */
  lemma {:induction false} HexShows(n: nat) returns (ds: seq<nat>)
    ensures Shows(Hex(n), ds, LOWER) && Base16(ds) == n && (n > 0 ==> ds[0] != 0)
    decreases n
  {
    LowerAt(n % 16);
    if n < 16 {
      ds := [n];
      ShowsOne(HexDigit(n), n, LOWER);
    } else {
      var es := HexShows(n / 16);
      ds := es + [n % 16];
      ShowsMore(Hex(n / 16), es, HexDigit(n % 16), n % 16, LOWER);
    }
  }

  /** Dec is the shortest number in base 10. */
  lemma {:induction false} DecShows(n: nat) returns (ds: seq<nat>)
    ensures Shows(Dec(n), ds, "0123456789") && Base10(ds) == n && (n > 0 ==> ds[0] != 0)
    decreases n
  {
    DecimalAt(n % 10);
    if n < 10 {
      ds := [n];
      ShowsOne(DecDigit(n), n, "0123456789");
    } else {
      var es := DecShows(n / 10);
      ds := es + [n % 10];
      ShowsMore(Dec(n / 10), es, DecDigit(n % 10), n % 10, "0123456789");
    }
  }

  lemma {:induction false} DecimalAt(d: nat)
    requires d < 10
    ensures "0123456789"[d] == DecDigit(d)
  {
    assert d == 0 || d == 1 || d == 2 || d == 3 || d == 4 || d == 5 || d == 6 || d == 7 || d == 8 || d == 9;
  }

  function HexTexts(ws: seq<Word>): (ts: seq<string>)
    ensures |ts| == |ws| && forall i :: 0 <= i < |ws| ==> ts[i] == Hex(ws[i])
  {
    seq(|ws|, i requires 0 <= i < |ws| => Hex(ws[i]))
  }

  lemma {:induction false} JoinIsJoined(ws: seq<Word>)
    ensures Join(ws) == Joined(HexTexts(ws))
    decreases |ws|
  {
    var ts := HexTexts(ws);
    if |ws| == 1 {
      OneJoined(ts);
    } else if |ws| > 1 {
      JoinIsJoined(ws[1..]);
      assert HexTexts(ws[1..]) == ts[1..];
      JoinedFirst(ts);
    }
  }

  lemma {:induction false} OneJoined(ts: seq<string>)
    requires |ts| == 1
    ensures Joined(ts) == ts[0]
  {
    assert ts[..0] == [] && "" + ts[0] == ts[0];
  }

  lemma {:induction false} JoinedFirst(ts: seq<string>)
    requires |ts| > 1
    ensures Joined(ts) == ts[0] + ":" + Joined(ts[1..])
  {
    var us, front := ts[1..], ts[..|ts| - 1];
    var last := ts[|ts| - 1];
    assert front[0] == ts[0] && front[1..] == us[..|us| - 1] && us[|us| - 1] == last;
    assert Joined(us) == Heads(us[..|us| - 1]) + last;
    Regroup(ts[0] + ":", Heads(us[..|us| - 1]), last);
  }

  /** The last two words are printed as an IPv4 address: behind six zero words, the seventh not being zero, and behind
      five with ffff for the sixth. */
  predicate Embedded(ws: seq<Word>)
    requires |ws| == 8
  {
    && ws[0] == ws[1] == ws[2] == ws[3] == ws[4] == 0
    && ((ws[5] == 0 && ws[6] != 0) || ws[5] == 0xffff)
  }

  lemma {:induction false} EmbeddedRun(ws: seq<Word>, r: Run)
    requires |ws| == 8 && Canonical(ws, r)
    ensures Embedded(ws) <==> Embeds(ws, r, 6) && r.len != 7
    ensures Embedded(ws) ==> r == Zeros(0, if ws[5] == 0 then 6 else 5)
  {
    if Embedded(ws) {
      var n := if ws[5] == 0 then 6 else 5;
      assert AllZero(ws, 0, n);
      if r.Zeros? {
        assert AllZero(ws, r.base, r.len);
      }
    } else if Embeds(ws, r, 6) {
      assert AllZero(ws, 0, r.len);
      if r.len == 6 && ws[6] == 0 { assert AllZero(ws, 0, 7); }
    }
  }

  /** The printed form: an embedded IPv4 address behind :: or ::ffff:, or else groups in lower case and shortest form,
      with :: for the run that is abbreviated. */
  lemma {:induction false} PrintedForm(ws: seq<Word>, r: Run)
    requires |ws| == 8 && Canonical(ws, r)
    ensures var text := Text6From(ws, r, 0);
      text == if Embedded(ws) then (if ws[5] == 0 then "::" else "::ffff:") + Text4(BytesOf(ws[6..]))
        else if r.NoRun? then Joined(HexTexts(ws))
        else Opening(HexTexts(ws[..r.base]), true) + Joined(HexTexts(ws[r.base + r.len..]))
  {
    EmbeddedRun(ws, r);
    QuadWords(ws);
    if r.NoRun? {
      JoinFrom(ws, r, 0);
      assert ws[0..8] == ws && "" + (Join(ws) + "") == Join(ws);
      JoinIsJoined(ws);
    } else {
      assert FitsRun(ws, r) by { assert AllZero(ws, r.base, r.len); }
      BeforeRun(ws, r, 0);
      assert ws[0..r.base] == ws[..r.base];
      RunForm(ws, r);
    }
  }

  lemma {:induction false} RunForm(ws: seq<Word>, r: Run)
    requires FitsRun(ws, r) && r.Zeros? && BytesOf(ws[6..]) == BytesOf(ws)[12..16]
    requires Embedded(ws) <==> Embeds(ws, r, 6) && r.len != 7
    requires Embedded(ws) ==> r == Zeros(0, if ws[5] == 0 then 6 else 5)
    ensures Join(ws[..r.base]) + ("::" + Tail(ws, r)) ==
      if Embedded(ws) then (if ws[5] == 0 then "::" else "::ffff:") + Text4(BytesOf(ws[6..]))
      else Opening(HexTexts(ws[..r.base]), true) + Joined(HexTexts(ws[r.base + r.len..]))
  {
    var front := ws[..r.base];
    if Embedded(ws) {
      EmbeddedTail(ws, r);
      assert front == [] && "" + ("::" + Tail(ws, r)) == "::" + Tail(ws, r);
    } else {
      var back := HexTexts(ws[r.base + r.len..]);
      JoinIsJoined(front);
      JoinIsJoined(ws[r.base + r.len..]);
      assert Tail(ws, r) == Joined(back);
      OpeningIs(HexTexts(front), Joined(back));
    }
  }

  lemma {:induction false} EmbeddedTail(ws: seq<Word>, r: Run)
    requires FitsRun(ws, r) && r.Zeros? && BytesOf(ws[6..]) == BytesOf(ws)[12..16]
    requires Embedded(ws) && Embeds(ws, r, 6) && r == Zeros(0, if ws[5] == 0 then 6 else 5)
    ensures "::" + Tail(ws, r) == (if ws[5] == 0 then "::" else "::ffff:") + Text4(BytesOf(ws[6..]))
  {
    var quad := Text4(BytesOf(ws[6..]));
    if ws[5] != 0 {
      FfffText();
      assert Tail(ws, r) == "ffff" + ":" + quad;
      assert "::" + ("ffff" + ":" + quad) == "::ffff:" + quad;
    }
  }

  lemma {:induction false} OpeningIs(ts: seq<string>, t: string)
    ensures Joined(ts) + ("::" + t) == Opening(ts, true) + t
  {
    if ts == [] {
      assert "" + ("::" + t) == "::" + t;
    } else {
      var front, last := ts[..|ts| - 1], ts[|ts| - 1];
      HeadsSnoc(front, last);
      assert front + [last] == ts;
      assert Heads(ts) == Joined(ts) + ":" by { Regroup(Heads(front), last, ":"); }
      assert Joined(ts) + ("::" + t) == Joined(ts) + ":" + ":" + t;
    }
  }

  lemma {:induction false} FfffText()
    ensures Hex(0xffff) == "ffff"
  {
    assert Hex(0xf) == "f";
    assert Hex(0xff) == Hex(0xf) + "f";
    assert Hex(0xfff) == Hex(0xff) + "f";
    assert Hex(0xffff) == Hex(0xfff) + "f";
  }
}
