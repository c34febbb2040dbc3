/** libuv's address conversions over buffers: each loop against the printers and parsers of
    InetSpec and Inet6Spec. */
module Inet {
  import opened Common
  import opened InetSpec
  import opened Inet6Spec

  const UV__INET_ADDRSTRLEN: nat := 16
  const UV__INET6_ADDRSTRLEN: nat := 46

  // ----- writing text -----

  /** sprintf: the text lands at position tp. */
  method PutText(tmp: array<char>, tp: nat, s: string) returns (tp': nat)
    requires tp + |s| <= tmp.Length
    modifies tmp
    ensures tp' == tp + |s|
    ensures tmp[..tp'] == old(tmp[..tp]) + s
    ensures tmp[tp'..] == old(tmp[tp + |s|..])
  {
    for i := 0 to |s|
      invariant tmp[..tp] == old(tmp[..tp]) && tmp[tp..tp + i] == s[..i]
      invariant tmp[tp + i..] == old(tmp[tp + i..])
    {
      ghost var next := old(tmp[tp + i..]);
      assert next[1..] == old(tmp[tp + i + 1..]);
      tmp[tp + i] := s[i];
    }
    tp' := tp + |s|;
    assert s[..|s|] == s;
    assert tmp[..tp'] == tmp[..tp] + tmp[tp..tp'];
  }

  /** What n characters of a destination hold once the text s has been copied there. */
  function Copied(was: seq<char>, s: string, n: nat): (r: seq<char>)
    requires n == |was|
  {
    if |s| < n then s + ['\0'] + was[|s| + 1..]
    else if n == 0 then []
    else s[..n - 1] + ['\0']
  }

  /** The destination with i characters of s in the window. */
  ghost function Partial(head: string, was: string, tail: string, s: string, i: nat): (r: string)
    requires i <= |s| && i <= |was|
    ensures |r| == |head| + |was| + |tail|
  {
    head + s[..i] + was[i..] + tail
  }

  lemma {:induction false} PartialStart(d: string, at: nat, n: nat, s: string)
    requires at + n <= |d|
    ensures d == Partial(d[..at], d[at..at + n], d[at + n..], s, 0)
  {
  }

  lemma {:induction false} PartialStep(head: string, was: string, tail: string, s: string, i: nat)
    requires i < |s| && i < |was|
    ensures Partial(head, was, tail, s, i)[|head| + i := s[i]] == Partial(head, was, tail, s, i + 1)
  {
  }

  lemma {:induction false} PartialEnd(head: string, was: string, tail: string, s: string)
    requires |s| < |was|
    ensures Partial(head, was, tail, s, |s|)[|head| + |s| := '\0'] == head + Copied(was, s, |was|) + tail
  {
  }

  lemma {:induction false} PartialFull(head: string, was: string, tail: string, s: string)
    requires |was| <= |s|
    ensures var p := Partial(head, was, tail, s, |was|);
      (if was == [] then p else p[|head| + |was| - 1 := '\0']) == head + Copied(was, s, |was|) + tail
  {
  }

  /** uv__strscpy: `fit` is false for UV_E2BIG. A size of zero is not an error. */
  method CopyString(dst: array<char>, at: nat, s: string, n: nat) returns (fit: bool)
    requires at + n <= dst.Length
    modifies dst
    ensures fit <==> |s| < n || n == 0
    ensures dst[..] == old(dst[..at]) + Copied(old(dst[at..at + n]), s, n) + old(dst[at + n..])
  {
    var i := 0;
    ghost var head, was, tail := dst[..at], dst[at..at + n], dst[at + n..];
    PartialStart(dst[..], at, n, s);
    assert dst[..][..at] == head && dst[..][at..at + n] == was && dst[..][at + n..] == tail;
    while i < n
      invariant i <= n && i <= |s|
      invariant dst[..] == Partial(head, was, tail, s, i)
    {
      if i == |s| {
        dst[at + i] := '\0';
        PartialEnd(head, was, tail, s);
        return true;
      }
      dst[at + i] := s[i];
      PartialStep(head, was, tail, s, i);
      i := i + 1;
    }
    PartialFull(head, was, tail, s);
    if i == 0 {
      return true;
    }
    dst[at + i - 1] := '\0';
    fit := false;
  }

  // ----- printing -----

  /** inet_ntop4. */
  method Ntop4(src: seq<Byte>, dst: array<char>, at: nat, size: nat) returns (code: int)
    requires |src| == 4 && at + size <= dst.Length
    modifies dst
    ensures code == if |Text4(src)| < size then 0 else UV_ENOSPC
    ensures code != 0 ==> dst[..] == old(dst[..])
    ensures code == 0 ==>
      dst[..] == old(dst[..at]) + Copied(old(dst[at..at + size]), Text4(src), size) + old(dst[at + size..])
  {
    Text4Length(src);
    var tmp := new char[UV__INET_ADDRSTRLEN];
    var l := PutText(tmp, 0, Text4(src));
    assert tmp[..l] == Text4(src);
    if l <= 0 || l >= size {
      return UV_ENOSPC;
    }
    var fit := CopyString(dst, at, tmp[..l], size);
    code := 0;
  }

  lemma {:induction false} Text4Length(a: seq<Byte>)
    requires |a| == 4
    ensures 7 <= |Text4(a)| <= 15
  {
    DecLength(a[0]); DecLength(a[1]); DecLength(a[2]); DecLength(a[3]);
  }

  function Pair(hi: Byte, lo: Byte): (w: Word)
    ensures w / 256 == hi && w % 256 == lo
  {
    var h: int := hi;
    h * 256 + lo
  }

  function Words(src: seq<Byte>): (ws: seq<Word>)
    requires |src| % 2 == 0
    ensures |ws| == |src| / 2 && BytesOf(ws) == src
    decreases |src|
  {
    if src == [] then []
    else
      var n := |src|;
      Words(src[..n - 2]) + [Pair(src[n - 2], src[n - 1])]
  }

  lemma {:induction false} WordAt(src: seq<Byte>, k: nat)
    requires |src| % 2 == 0 && 2 * k < |src|
    ensures Words(src)[k] == Pair(src[2 * k], src[2 * k + 1])
    decreases |src|
  {
    if 2 * k < |src| - 2 { WordAt(src[..|src| - 2], k); }
  }

  /** The loop that pairs bytes; a bit-wise or of bits that do not overlap is a sum. */
  method PairBytes(src: seq<Byte>) returns (words: array<Word>)
    requires |src| == 16
    ensures fresh(words) && words.Length == 8 && words[..] == Words(src)
  {
    words := new Word[8](_ => 0);
    for i := 0 to 16
      invariant forall k :: 0 <= k < 8 && 2 * k + 2 <= i ==> words[k] == Pair(src[2 * k], src[2 * k + 1])
      invariant i % 2 == 1 ==> words[i / 2] == Pair(src[i - 1], 0)
      invariant forall k :: 0 <= k < 8 && i <= 2 * k ==> words[k] == 0
    {
      words[i / 2] := words[i / 2] + (if i % 2 == 0 then Pair(src[i], 0) else src[i]);
    }
    forall k | 0 <= k < 8 ensures words[k] == Words(src)[k] { WordAt(src, k); }
  }

  // ----- the run to abbreviate -----

  /** Left-most longest run of zeros among those that end by `cut`; base -1 stands for none. */
  ghost predicate Best(ws: seq<Word>, cut: int, base: int, len: int) {
    && (base != -1 ==> 0 <= base && 0 < len && base + len <= cut && AllZero(ws, base, len))
    && (forall b: nat, l: nat :: AllZero(ws, b, l) && l >= 1 && b + l <= cut ==>
          base != -1 && l <= len && (l == len ==> base <= b))
  }

  /** A run of zeros that cannot be extended to the left and ends at `end`. */
  ghost predicate Open(ws: seq<Word>, base: int, len: int, end: int) {
    && 0 <= base && 0 < len && base + len == end <= |ws| && AllZero(ws, base, len)
    && (base > 0 ==> ws[base - 1] != 0)
  }

  lemma {:induction false} CloseRun(ws: seq<Word>, end: nat, base: int, len: int, curBase: int, curLen: int)
    requires Open(ws, curBase, curLen, end) && Best(ws, curBase, base, len)
    ensures if base == -1 || curLen > len then Best(ws, end, curBase, curLen) else Best(ws, end, base, len)
  {
    forall b: nat, l: nat | AllZero(ws, b, l) && l >= 1 && b + l <= end
      ensures b + l <= curBase || (curBase <= b && l <= curLen)
    {
    }
  }

  lemma {:induction false} StepOver(ws: seq<Word>, i: nat, base: int, len: int)
    requires i < |ws| && ws[i] != 0 && Best(ws, i, base, len)
    ensures Best(ws, i + 1, base, len)
  {
    forall b: nat, l: nat | AllZero(ws, b, l) && l >= 1 && b + l <= i + 1 ensures b + l <= i {
    }
  }

  lemma {:induction false} BestIsCanonical(ws: seq<Word>, base: int, len: int)
    requires Best(ws, |ws|, base, len)
    ensures Canonical(ws, if base == -1 || len < 2 then NoRun else Zeros(base, len))
  {
    assert base != -1 && len >= 2 ==> AllZero(ws, base, len);
  }

  method KeepLonger(ghost ws: seq<Word>, ghost end: nat, base: int, len: int, curBase: int, curLen: int)
    returns (base': int, len': int)
    requires Open(ws, curBase, curLen, end) && Best(ws, curBase, base, len)
    ensures Best(ws, end, base', len')
  {
    CloseRun(ws, end, base, len, curBase, curLen);
    base', len' := base, len;
    if base == -1 || curLen > len {
      base', len' := curBase, curLen;
    }
  }

  /** The run that inet_ntop6 abbreviates is the one RFC 5952 asks for. */
  method FindRun(words: array<Word>) returns (r: Run)
    ensures Canonical(words[..], r)
  {
    ghost var ws := words[..];
    var base, len, curBase, curLen := -1, 0, -1, 0;
    for i := 0 to words.Length
      invariant ws == words[..]
      invariant Best(ws, if curBase == -1 then i else curBase, base, len)
      invariant curBase != -1 ==> Open(ws, curBase, curLen, i)
      invariant curBase == -1 && i > 0 ==> ws[i - 1] != 0
    {
      if words[i] == 0 {
        if curBase == -1 {
          curBase, curLen := i, 1;
        } else {
          curLen := curLen + 1;
        }
      } else {
        if curBase != -1 {
          base, len := KeepLonger(ws, i, base, len, curBase, curLen);
          curBase := -1;
        }
        StepOver(ws, i, base, len);
      }
    }
    if curBase != -1 {
      base, len := KeepLonger(ws, words.Length, base, len, curBase, curLen);
    }
    BestIsCanonical(ws, base, len);
    if base != -1 && len < 2 {
      base := -1;
    }
    r := if base == -1 then NoRun else Zeros(base, len);
  }

  /** There is only one such run. */
  lemma {:induction false} CanonicalUnique(ws: seq<Word>, r: Run, q: Run)
    requires Canonical(ws, r) && Canonical(ws, q)
    ensures r == q
  {
    if r.Zeros? { assert AllZero(ws, r.base, r.len); }
    if q.Zeros? { assert AllZero(ws, q.base, q.len); }
  }

  // ----- inet_ntop6 -----

  /** The printed form of an address. */
  ghost predicate Prints6(src: seq<Byte>, text: string)
    requires |src| == 16
  {
    exists r :: Canonical(Words(src), r) && text == Text6From(Words(src), r, 0)
  }

  /** Every printed form reads back as its address. */
  lemma {:induction false} PrintedIsRead(src: seq<Byte>, text: string)
    requires |src| == 16 && Prints6(src, text)
    ensures Pton6(text) == Some(src)
  {
    var r :| Canonical(Words(src), r) && text == Text6From(Words(src), r, 0);
    Pton6OfNtop6(Words(src), r);
  }

  /** An address has only one printed form. */
  lemma {:induction false} PrintedOnce(src: seq<Byte>, text: string, other: string)
    requires |src| == 16 && Prints6(src, text) && Prints6(src, other)
    ensures other == text
  {
    var r :| Canonical(Words(src), r) && text == Text6From(Words(src), r, 0);
    var q :| Canonical(Words(src), q) && other == Text6From(Words(src), q, 0);
    CanonicalUnique(Words(src), r, q);
  }

  /** One word, or the embedded address, after its colon; `stop` says that it was the address. */
  method FormatWord(src: seq<Byte>, ws: seq<Word>, r: Run, i: nat, tmp: array<char>, tp: nat)
    returns (tp': nat, stop: bool)
    requires |src| == 16 && ws == Words(src) && FitsRun(ws, r) && tmp.Length == UV__INET6_ADDRSTRLEN
    requires i < 8 && !InRun(r, i) && tp <= 5 * i && (Embeds(ws, r, i) ==> tp <= 6)
    modifies tmp
    ensures stop == Embeds(ws, r, i) && tp' <= tmp.Length
    ensures if stop then tp' <= tp + 16 else tp' <= tp + (if i == 0 then 4 else 5)
    ensures tmp[..tp'] + (if stop then "" else Text6From(ws, r, i + 1)) == old(tmp[..tp]) + Text6From(ws, r, i)
  {
    ghost var before := tmp[..tp];
    tp' := tp;
    ghost var colon := if i != 0 then ":" else "";
    if i != 0 {
      tp' := PutText(tmp, tp', ":");
    }
    assert tmp[..tp'] == before + colon;
    stop := Embeds(ws, r, i);
    if stop {
      tp' := FormatQuad(src, tmp, tp');
      Regroup(before, colon, Text4(src[12..16]));
      assert tmp[..tp'] + "" == tmp[..tp'];
    } else {
      HexLength(ws[i]);
      tp' := PutText(tmp, tp', Hex(ws[i]));
      Regroup(before, colon, Hex(ws[i]));
      Regroup(before, colon + Hex(ws[i]), Text6From(ws, r, i + 1));
      Regroup(colon, Hex(ws[i]), Text6From(ws, r, i + 1));
    }
  }

  /** The embedded address: there is always room for it, so its error return is not taken. */
  method FormatQuad(src: seq<Byte>, tmp: array<char>, tp: nat) returns (tp': nat)
    requires |src| == 16 && tmp.Length == UV__INET6_ADDRSTRLEN && tp <= 7
    modifies tmp
    ensures tp' <= tp + 15 && tmp[..tp'] == old(tmp[..tp]) + Text4(src[12..16])
  {
    ghost var before := tmp[..tp];
    Text4Length(src[12..16]);
    var err := Ntop4(src[12..16], tmp, tp, tmp.Length - tp);
    assert err == 0;
    tp' := tp + |Text4(src[12..16])|;
    assert tmp[..][..tp'] == before + Text4(src[12..16]);
  }

  /** How far the text reaches before word i: the bound that leaves room for an embedded address. */
  ghost predicate Short(r: Run, i: nat, tp: nat) {
    && tp <= 5 * i
    && (r.Zeros? && r.base == 0 && i >= 1 ==> tp <= 1 + (if i <= r.len then 0 else 5 * (i - r.len)))
  }

  /** A word of the abbreviated run: one colon for the whole of it. */
  method FormatZero(ws: seq<Word>, r: Run, i: nat, tmp: array<char>, tp: nat) returns (tp': nat)
    requires |ws| == 8 && FitsRun(ws, r) && tmp.Length == UV__INET6_ADDRSTRLEN
    requires i < 8 && InRun(r, i) && Short(r, i, tp)
    modifies tmp
    ensures Short(r, i + 1, tp') && tp' <= tmp.Length
    ensures tmp[..tp'] + Text6From(ws, r, i + 1) == old(tmp[..tp]) + Text6From(ws, r, i)
  {
    ghost var before := tmp[..tp];
    tp' := tp;
    if i == r.base {
      tp' := PutText(tmp, tp, ":");
      Regroup(before, ":", Text6From(ws, r, i + 1));
    } else {
      assert "" + Text6From(ws, r, i + 1) == Text6From(ws, r, i + 1);
    }
  }

  /** The last words of an address abbreviated up to its end. */
  method FormatEnd(r: Run, tmp: array<char>, tp: nat) returns (tp': nat)
    requires tp < tmp.Length - 1
    modifies tmp
    ensures tp <= tp' <= tp + 1
    ensures tmp[..tp'] == old(tmp[..tp]) + (if r.Zeros? && r.base + r.len == 8 then ":" else "")
  {
    tp' := tp;
    if r.Zeros? && r.base + r.len == 8 {
      tp' := PutText(tmp, tp, ":");
    }
  }

  /** The formatting loop. The text and its terminator fit in the temporary buffer. */
  method Format(src: seq<Byte>, words: array<Word>, r: Run, tmp: array<char>) returns (tp: nat)
    requires |src| == 16 && words[..] == Words(src) && FitsRun(words[..], r) && tmp.Length == UV__INET6_ADDRSTRLEN
    modifies tmp
    ensures tp < tmp.Length && tmp[..tp] == Text6From(Words(src), r, 0)
  {
    var ws := words[..];
    ghost var all := Text6From(ws, r, 0);
    tp := 0;
    var i := 0;
    ghost var stopped := false;
    assert tmp[..0] + all == all;
    while i < 8
      invariant i <= 8 && Short(r, i, tp) && !stopped
      invariant tmp[..tp] + Text6From(ws, r, i) == all
      decreases 8 - i
    {
      if r.Zeros? && i >= r.base && i < r.base + r.len {
        tp := FormatZero(ws, r, i, tmp, tp);
        i := i + 1;
        continue;
      }
      var stop;
      tp, stop := FormatWord(src, ws, r, i, tmp, tp);
      if stop {
        stopped := true;
        assert tmp[..tp] + "" == tmp[..tp];
        break;
      }
      i := i + 1;
    }
    ghost var before := tmp[..tp];
    tp := FormatEnd(r, tmp, tp);
    assert stopped ==> before + "" == before;
  }

  /** inet_ntop6 up to the terminator of its temporary buffer. */
  method Print6(src: seq<Byte>) returns (tmp: array<char>, tp: nat)
    requires |src| == 16
    ensures fresh(tmp) && tmp.Length == UV__INET6_ADDRSTRLEN && tp < tmp.Length && tmp[tp] == '\0'
    ensures Prints6(src, tmp[..tp])
  {
    var words := PairBytes(src);
    var r := FindRun(words);
    tmp := new char[UV__INET6_ADDRSTRLEN];
    tp := Format(src, words, r, tmp);
    ghost var text := tmp[..tp];
    tmp[tp] := '\0';
    assert tmp[..tp] == text;
  }

  /** A destination that held `was` in its first `size` characters has received `text`, cut to size. */
  ghost predicate Delivered(src: seq<Byte>, text: string, was: string, now: string, code: int)
    requires |src| == 16
  {
    && Prints6(src, text) && Pton6(text) == Some(src) && |text| < UV__INET6_ADDRSTRLEN
    && code == (if |text| < |was| || was == [] then 0 else UV_ENOSPC)
    && now == Copied(was, text, |was|)
  }

  /** inet_ntop6: the destination receives the canonical text, cut to size, which reads back as the
      address whenever it is complete. */
  method Ntop6(src: seq<Byte>, dst: array<char>, size: nat) returns (code: int)
    requires |src| == 16 && size <= dst.Length
    modifies dst
    ensures exists text :: Delivered(src, text, old(dst[..size]), dst[..size], code)
    ensures dst[size..] == old(dst[size..])
  {
    var tmp, tp := Print6(src);
    var text := tmp[..tp];
    PrintedIsRead(src, text);
    ghost var was, rest := dst[..size], dst[size..];
    assert dst[0..size] == was && dst[0 + size..] == rest;
    var fit := CopyString(dst, 0, text, size);
    code := if !fit then UV_ENOSPC else 0;
    assert dst[..] == Copied(was, text, size) + rest;
    assert dst[..size] == dst[..][..size] && dst[size..] == dst[..][size..];
    assert Delivered(src, text, was, dst[..size], code);
  }

  // ----- inet_pton4 -----

  /** inet_pton4 on the text from position `from`, into four bytes at position `at`. */
  method Pton4At(src: string, from: nat, dst: array<Byte>, at: nat) returns (code: int)
    requires from <= |src| && at + 4 <= dst.Length
    modifies dst
    ensures code == if Pton4(src[from..]).Some? then 0 else UV_EINVAL
    ensures code == 0 ==> dst[..] == old(dst[..at]) + Pton4(src[from..]).value + old(dst[at + 4..])
    ensures code != 0 ==> dst[..] == old(dst[..])
  {
    var tmp, tp, p := new Byte[4](_ => 0), 0, from;
    var sawDigit, octets := false, 0;
    while p < |src|
      invariant fresh(tmp) && dst[..] == old(dst[..])
      invariant from <= p <= |src| && tp <= 3 && octets == tp + (if sawDigit then 1 else 0)
      invariant Parse4(src[p..], tmp[..tp], tmp[tp], sawDigit) == Pton4(src[from..])
      invariant !sawDigit ==> tmp[tp] == 0
    {
      var ch := src[p];
      assert src[p..][0] == ch && src[p..][1..] == src[p + 1..];
      p := p + 1;
      if DecValue(ch).Some? {
        var nw := (tmp[tp] as int) * 10 + DecValue(ch).value;
        if sawDigit && tmp[tp] == 0 {
          return UV_EINVAL;
        }
        if nw > 255 {
          return UV_EINVAL;
        }
        ghost var done := tmp[..tp];
        tmp[tp] := nw;
        assert tmp[..tp] == done;
        if !sawDigit {
          octets := octets + 1;
          if octets > 4 {
            return UV_EINVAL;
          }
          sawDigit := true;
        }
      } else if ch == '.' && sawDigit {
        if octets == 4 {
          return UV_EINVAL;
        }
        ghost var done := tmp[..tp] + [tmp[tp]];
        tp := tp + 1;
        tmp[tp] := 0;
        assert tmp[..tp] == done;
        sawDigit := false;
      } else {
        return UV_EINVAL;
      }
    }
    if octets < 4 {
      return UV_EINVAL;
    }
    assert tmp[..3] + [tmp[3]] == tmp[..];
    StoreBytes(dst, at, tmp[..]);
    code := 0;
  }

  /** memcpy. */
  method StoreBytes(dst: array<Byte>, at: nat, b: seq<Byte>)
    requires at + |b| <= dst.Length
    modifies dst
    ensures dst[..] == old(dst[..at]) + b + old(dst[at + |b|..])
  {
    forall k | 0 <= k < |b| {
      dst[at + k] := b[k];
    }
  }

  // ----- inet_pton6 -----

  /** The shift by hand over overlapping memory: what followed the double colon moves to the end. */
  method ShiftToEnd(tmp: array<Byte>, colon: nat, tp: nat)
    requires tmp.Length == 16 && colon <= tp < 16
    requires forall k :: tp <= k < 16 ==> tmp[k] == 0
    modifies tmp
    ensures tmp[..] == Spread(old(tmp[..tp]), colon)
  {
    var n := tp - colon;
    for i := 1 to n + 1
      invariant forall k :: 0 <= k < tp - (i - 1) ==> tmp[k] == old(tmp[k])
      invariant forall k :: 16 - (i - 1) <= k < 16 ==> tmp[k] == old(tmp[k - (16 - tp)])
      invariant forall k :: tp - (i - 1) <= k < 16 - (i - 1) ==> tmp[k] == 0
    {
      tmp[16 - i] := tmp[colon + n - i];
      tmp[colon + n - i] := 0;
    }
  }

  /** Bytes written so far, followed by zeros. */
  ghost predicate Clear(tmp: array<Byte>, tp: nat)
    reads tmp
  {
    tmp.Length == 16 && tp <= 16 && forall k :: tp <= k < 16 ==> tmp[k] == 0
  }

  /** A null pointer is -1. */
  function Colon(colonp: int): (c: Option<nat>) { if colonp < 0 then None else Some(colonp) }

  method StoreGroup(tmp: array<Byte>, tp: nat, val: nat) returns (tp': nat)
    requires Clear(tmp, tp) && tp + 2 <= 16
    modifies tmp
    ensures tp' == tp + 2 && Clear(tmp, tp') && tmp[..tp'] == old(tmp[..tp]) + [val / 256 % 256, val % 256]
  {
    tmp[tp] := val / 256 % 256;
    tmp[tp + 1] := val % 256;
    tp' := tp + 2;
  }

  /** What inet_pton6 does behind its loop, in the temporary buffer. */
  method FinishIn(tmp: array<Byte>, tp: nat, colonp: int, seen: nat, val: nat) returns (ok: bool)
    requires Clear(tmp, tp) && colonp <= tp
    modifies tmp
    ensures var r := Finish(old(tmp[..tp]), Colon(colonp), seen, val);
      ok == r.Some? && (ok ==> tmp[..] == r.value)
  {
    var end := tp;
    if seen > 0 {
      if tp + 2 > 16 {
        return false;
      }
      end := StoreGroup(tmp, tp, val);
    }
    if colonp >= 0 {
      if end == 16 {
        return false;
      }
      ShiftToEnd(tmp, colonp, end);
      end := 16;
    }
    ok := end == 16;
    assert ok ==> tmp[..end] == tmp[..];
  }

  /** The scanning loop of inet_pton6: false for its error returns, otherwise the state behind it. */
  method Scan6(src: string, start: nat, tmp: array<Byte>) returns (ok: bool, tp: nat, colonp: int, seen: nat, val: nat)
    requires start <= |src| && Clear(tmp, 0)
    modifies tmp
    ensures var r := Parse6(src[start..], src[start..], [], None, 0, 0);
      if ok then Clear(tmp, tp) && colonp <= tp && Finish(tmp[..tp], Colon(colonp), seen, val) == r else r.None?
  {
    ok, tp, colonp, seen, val := true, 0, -1, 0, 0;
    var p: nat, curtok: nat := start, start;
    ghost var goal := Parse6(src[start..], src[start..], [], None, 0, 0);
    while p < |src|
      invariant p <= |src| && curtok <= |src| && Clear(tmp, tp) && colonp <= tp
      invariant Parse6(src[p..], src[curtok..], tmp[..tp], Colon(colonp), seen, val) == goal
    {
      var ch := src[p];
      assert src[p..][0] == ch && src[p..][1..] == src[p + 1..];
      p := p + 1;
      if HexValue(ch).Some? {
        val := val * 16 + HexValue(ch).value;
        seen := seen + 1;
        if seen > 4 {
          ok := false;
          return;
        }
        continue;
      }
      if ch == ':' {
        curtok := p;
        if seen == 0 {
          if colonp >= 0 {
            ok := false;
            return;
          }
          colonp := tp;
          continue;
        } else if p == |src| {
          ok := false;
          return;
        }
        if tp + 2 > 16 {
          ok := false;
          return;
        }
        tp := StoreGroup(tmp, tp, val);
        seen, val := 0, 0;
        continue;
      }
      if ch == '.' && tp + 4 <= 16 {
        ghost var head := tmp[..tp];
        var err := Pton4At(src, curtok, tmp, tp);
        if err == 0 {
          tp := tp + 4;
          seen := 0;
          assert tmp[..tp] == head + Pton4(src[curtok..]).value;
          return;
        }
      }
      ok := false;
      return;
    }
  }

  /** inet_pton6: the sixteen bytes are written exactly when the text is accepted. */
  method Pton6To(src: string, dst: array<Byte>) returns (code: int)
    requires dst.Length == 16
    modifies dst
    ensures code == if Pton6(src).Some? then 0 else UV_EINVAL
    ensures dst[..] == if code == 0 then Pton6(src).value else old(dst[..])
  {
    var start := 0;
    if |src| > 0 && src[0] == ':' {
      start := 1;
      if |src| == 1 || src[1] != ':' {
        return UV_EINVAL;
      }
    }
    assert src[0..] == src;
    var tmp := new Byte[16](_ => 0);
    var ok, tp, colonp, seen, val := Scan6(src, start, tmp);
    if ok {
      ok := FinishIn(tmp, tp, colonp, seen, val);
    }
    if !ok {
      return UV_EINVAL;
    }
    forall k | 0 <= k < 16 {
      dst[k] := tmp[k];
    }
    code := 0;
  }
}
