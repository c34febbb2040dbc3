/** Input streams of nanopb: a cursor with a limit, substreams, and the readers of wire values. */
module IStream {
  import opened Common
  import opened Arithmetic
  import opened Varint
  import opened Schema
  import opened DecodeSpec

  /** A reader that should parse r: it succeeds exactly when r does, with its value, and leaves
      exactly the rest. */
  ghost predicate Reads<T>(r: Parsed<T>, ok: bool, v: T, rest: seq<Byte>) {
    ok == r.Ok? && (ok ==> v == r.value && rest == r.rest)
  }

  // ----- varints group by group -----

  /** Shifting a group into a 64-bit word drops all but the lowest bit of the tenth. */
  lemma {:induction false} Shift64(k: nat, x: nat)
    requires k <= 9 && x < 128
    ensures (x * Unit(k)) % TWO_64 == (if k == 9 then x % 2 else x) * Unit(k)
  {
    Units();
    if k == 9 {
      Odd(x);
    } else {
      Fits64(k, x);
    }
  }

  lemma {:induction false} Odd(x: nat)
    ensures (x * TWO_63) % TWO_64 == (x % 2) * TWO_63
  {
    assert x == 2 * (x / 2) + x % 2;
    assert x * TWO_63 == TWO_64 * (x / 2) + (x % 2) * TWO_63;
  }

  lemma {:induction false} Fits64(k: nat, x: nat)
    requires k <= 8 && x < 128
    ensures 0 <= x * Unit(k) < TWO_64
  {
    Units();
    if k == 0 {} else if k == 1 {} else if k == 2 {} else if k == 3 {} else if k == 4 {}
    else if k == 5 {} else if k == 6 {} else if k == 7 {} else {}
  }

  /** The same for a 32-bit word and its fifth group. */
  lemma {:induction false} Shift32(k: nat, x: nat)
    requires k <= 4 && x < 128
    ensures (x * Unit(k)) % TWO_32 == (if k == 4 then x % 16 else x) * Unit(k)
  {
    Units();
    if k == 4 {
      assert x == 16 * (x / 16) + x % 16;
      assert x * 0x1000_0000 == TWO_32 * (x / 16) + (x % 16) * 0x1000_0000;
    } else if k == 0 {} else if k == 1 {} else if k == 2 {} else {}
  }

  /** A number read above k groups that already gave `low`. */
  function Above(low: nat, k: nat, r: Parsed<nat>): (t: Parsed<nat>) {
    match r
    case Err(e) => Err(e)
    case Ok(high, rest) => Ok(low + Unit(k) * high, rest)
  }

  lemma {:induction false} NextGroup(low: nat, p: nat, x: nat, high: nat)
    ensures low + p * (x + 128 * high) == low + x * p + (128 * p) * high
  {
    assert p * (x + 128 * high) == p * x + p * (128 * high);
    assert p * (128 * high) == (128 * p) * high;
  }

  /** One more group x in front of what is still to be read, or the last one. */
  lemma {:induction false} AboveNext(low: nat, k: nat, x: nat, r: Parsed<nat>)
    ensures Above(low, k, if r.Err? then Err(r.error) else Ok(x + 128 * r.value, r.rest)) ==
      Above(low + x * Unit(k), k + 1, r)
  {
    if r.Ok? { NextGroup(low, Unit(k), x, r.value); }
  }

  lemma {:induction false} AboveLast(low: nat, k: nat, x: nat, rest: seq<Byte>)
    ensures Above(low, k, Ok(x, rest)) == Ok(low + x * Unit(k), rest)
  {
    assert Unit(k) * x == x * Unit(k);
  }

  lemma {:induction false} Above64(low: nat, k: nat, s: seq<Byte>)
    requires k < 10 && s != []
    ensures var sum := low + (s[0] % 128 * Unit(k)) % TWO_64;
      Above(low, k, Decode64From(s, k)) ==
        if s[0] < 128 then Ok(sum, s[1..]) else Above(sum, k + 1, Decode64From(s[1..], k + 1))
  {
    var x, r := if k == 9 then s[0] % 2 else s[0] % 128, Decode64From(s[1..], k + 1);
    assert (s[0] % 128 * Unit(k)) % TWO_64 == x * Unit(k) by { Shift64(k, s[0] % 128); }
    if s[0] < 128 {
      assert Decode64From(s, k) == Ok(x, s[1..]);
      AboveLast(low, k, x, s[1..]);
    } else {
      assert Decode64From(s, k) == if r.Err? then Err(r.error) else Ok(x + 128 * r.value, r.rest);
      AboveNext(low, k, x, r);
    }
  }

  /** After k groups gave `low`, the rest of the input leads to `goal`. Unfolds where Decode64From is named. */
  ghost predicate Pending64(low: nat, k: nat, s: seq<Byte>, goal: Parsed<nat>) {
    forall j: nat :: j == k ==> Above(low, j, Decode64From(s, j)) == goal
  }

  lemma {:induction false} Group64(low: nat, k: nat, s: seq<Byte>, goal: Parsed<nat>)
    requires k <= 10 && Pending64(low, k, s, goal)
    ensures k == 10 || s == [] ==> goal.Err?
    ensures k < 10 && s != [] ==>
      var sum := low + (s[0] % 128 * Unit(k)) % TWO_64;
      if s[0] < 128 then goal == Ok(sum, s[1..]) else Pending64(sum, k + 1, s[1..], goal)
  {
    assert Above(low, k, Decode64From(s, k)) == goal;
    if k < 10 && s != [] { Above64(low, k, s); }
  }

  lemma {:induction false} Above32(low: nat, k: nat, s: seq<Byte>)
    requires k < 4 && s != []
    ensures var sum := low + (s[0] % 128 * Unit(k)) % TWO_32;
      Above(low, k, Decode32From(s, k)) ==
        if s[0] < 128 then Ok(sum, s[1..]) else Above(sum, k + 1, Decode32From(s[1..], k + 1))
  {
    var x, r := s[0] % 128, Decode32From(s[1..], k + 1);
    assert (x * Unit(k)) % TWO_32 == x * Unit(k) by { Shift32(k, x); }
    if s[0] < 128 {
      assert Decode32From(s, k) == Ok(x, s[1..]);
      AboveLast(low, k, x, s[1..]);
    } else {
      assert Decode32From(s, k) == if r.Err? then Err(r.error) else Ok(x + 128 * r.value, r.rest);
      AboveNext(low, k, x, r);
    }
  }

  /** What the 32-bit reader still has to do after k groups gave `low`. */
  function Pending32(low: nat, k: nat, s: seq<Byte>): (t: Parsed<nat>) {
    if k <= 4 then Above(low, k, Decode32From(s, k))
    else match SkipSign(s, k, low >= TWO_31)
      case Err(e) => Err(e)
      case Ok(_, rest) => Ok(low, rest)
  }

  /** One more group. */
  lemma {:induction false} Pending32Step(low: nat, k: nat, s: seq<Byte>)
    requires s != [] && (k <= 4 ==> low < Unit(k))
    ensures var byte := s[0];
      var sum := if k <= 4 then low + (byte % 128 * Unit(k)) % TWO_32 else low;
      && (k < 4 ==> sum < Unit(k + 1))
      && Pending32(low, k, s) ==
           if k > 4 && byte % 128 != 0 && (low < TWO_31 || byte != (if 7 * k < 63 then 255 else 1))
           then Err(VarintOverflow)
           else if byte >= 128 then Pending32(sum, k + 1, s[1..])
           else if k == 4 && byte >= 16 then Err(VarintOverflow)
           else Ok(sum, s[1..])
  {
    if k < 4 {
      Above32(low, k, s);
      Shift32(k, s[0] % 128);
      GroupFits(low, k, s[0] % 128);
    } else if k == 4 {
      Pending32Fifth(low, s);
    }
  }

  lemma {:induction false} Pending32Fifth(low: nat, s: seq<Byte>)
    requires s != [] && low < Unit(4)
    ensures var sum := low + (s[0] % 128 * Unit(4)) % TWO_32;
      Pending32(low, 4, s) ==
        if s[0] >= 128 then Pending32(sum, 5, s[1..]) else if s[0] >= 16 then Err(VarintOverflow) else Ok(sum, s[1..])
  {
    FifthSum(low, s[0]);
    var x := s[0] % 16;
    if s[0] >= 128 {
      var r := SkipSign(s[1..], 5, x >= 8);
      assert Decode32From(s, 4) == if r.Err? then Err(r.error) else Ok(x, r.rest);
    } else if s[0] < 16 {
      assert Decode32From(s, 4) == Ok(x, s[1..]);
    }
  }

  /** The fifth group keeps four bits, the last of them bit 31. */
  lemma {:induction false} FifthSum(low: nat, b: Byte)
    requires low < Unit(4)
    ensures var sum := low + (b % 128 * Unit(4)) % TWO_32;
      sum == low + Unit(4) * (b % 16) && (sum >= TWO_31 <==> b % 16 >= 8)
  {
    var x := b % 16;
    assert b % 128 % 16 == x;
    Shift32(4, b % 128);
    assert Unit(4) == 0x1000_0000 by { Units(); }
  }

  lemma {:induction false} GroupFits(low: nat, k: nat, x: nat)
    requires low < Unit(k) && x < 128
    ensures low + x * Unit(k) < Unit(k + 1)
  {
    var p := Unit(k);
    MulMono(p, x + 1, 128);
    assert (x + 1) * p == x * p + p;
  }

  // ----- the stream -----

  class Stream {
    const bytes: seq<Byte>
    var pos: nat
    var left: nat

    ghost predicate Valid()
      reads this
    {
      pos + left <= |bytes|
    }

    /** The input that is left, up to the limit. */
    ghost function Rest(): (s: seq<Byte>)
      reads this
      requires Valid()
    {
      bytes[pos..pos + left]
    }

    ghost function End(): (n: nat)
      reads this
    {
      pos + left
    }

    /** pb_istream_from_buffer, or a copy of a stream with its own limit. */
    constructor (bytes: seq<Byte>, pos: nat, left: nat)
      ensures this.bytes == bytes && this.pos == pos && this.left == left
    {
      this.bytes, this.pos, this.left := bytes, pos, left;
    }

    /** pb_read: the end of the stream does not move. */
    method Read(n: nat) returns (ok: bool, b: seq<Byte>)
      requires Valid()
      modifies this
      ensures Valid() && End() == old(End())
      ensures Reads(DecodeSpec.Read(old(Rest()), n), ok, b, Rest())
    {
      if n == 0 {
        assert Rest()[..0] == [] && Rest()[0..] == Rest();
        return true, [];
      }
      if left < n {
        return false, [];
      }
      ghost var s := Rest();
      b := bytes[pos..pos + n];
      pos := pos + n;
      left := left - n;
      ok := true;
      assert Rest() == s[n..] && b == s[..n];
    }

    /** pb_readbyte. */
    method ReadByte() returns (ok: bool, b: Byte)
      requires Valid()
      modifies this
      ensures Valid() && End() == old(End())
      ensures ok == (old(Rest()) != []) && (ok ==> b == old(Rest())[0] && Rest() == old(Rest())[1..])
      ensures ok ==> left < old(left)
    {
      if left == 0 {
        return false, 0;
      }
      ghost var s := Rest();
      b := bytes[pos];
      pos := pos + 1;
      left := left - 1;
      ok := true;
      assert Rest() == s[1..];
    }

    /** pb_decode_varint. */
    method Varint64() returns (ok: bool, v: nat)
      requires Valid()
      modifies this
      ensures Valid() && End() == old(End()) && Reads(Decode64(old(Rest())), ok, v, Rest())
    {
      PendingAll(Rest());
      ok, v := Groups64(Decode64(Rest()));
    }

    method Groups64(ghost goal: Parsed<nat>) returns (ok: bool, v: nat)
      requires Valid() && Pending64(0, 0, Rest(), goal)
      modifies this
      ensures Valid() && End() == old(End()) && Reads(goal, ok, v, Rest())
    {
      v := 0;
      var k, p := 0, 1;
      while true
        invariant Valid() && End() == old(End()) && p == Unit(k) && k <= 10
        invariant Pending64(v, k, Rest(), goal)
        decreases left
      {
        Group64(v, k, Rest(), goal);
        if 7 * k >= 64 {
          return false, 0;
        }
        var byte;
        ok, byte := ReadByte();
        if !ok {
          return;
        }
        v := v + (byte % 128 * p) % TWO_64;
        if byte < 128 {
          return;
        }
        k, p := k + 1, 128 * p;
      }
    }

    /** One turn of the loop of pb_decode_varint32_eof. */
    method Group32(low: nat, k: nat, p: nat, ghost goal: Parsed<nat>) returns (ok: bool, byte: Byte, sum: nat)
      requires Valid() && (k <= 4 ==> p == Unit(k) && low < Unit(k)) && Pending32(low, k, Rest()) == goal
      modifies this
      ensures Valid() && End() == old(End())
      ensures !ok ==> goal.Err?
      ensures ok ==> left < old(left)
      ensures ok && byte >= 128 ==> (k < 4 ==> sum < Unit(k + 1)) && Pending32(sum, k + 1, Rest()) == goal
      ensures ok && byte < 128 ==> goal == if k == 4 && byte >= 16 then Err(VarintOverflow) else Ok(sum, Rest())
    {
      ghost var s := Rest();
      sum := low;
      ok, byte := ReadByte();
      if !ok {
        return;
      }
      Pending32Step(low, k, s);
      if 7 * k >= 32 {
        var sign := if 7 * k < 63 then 0xFF else 0x01;
        if byte % 128 != 0 && (low < TWO_31 || byte != sign) {
          ok := false;
        }
      } else {
        sum := low + (byte % 128 * p) % TWO_32;
      }
    }

    /** pb_decode_varint32_eof. */
    method Varint32() returns (ok: bool, v: nat)
      requires Valid()
      modifies this
      ensures Valid() && End() == old(End()) && Reads(Decode32(old(Rest())), ok, v, Rest())
    {
      ghost var goal := Decode32(Rest());
      PendingAll(Rest());
      var byte;
      ok, byte, v := Group32(0, 0, 1, goal);
      if !ok || byte < 128 {
        return;
      }
      var k: nat, p: nat := 1, 128;
      while true
        invariant Valid() && End() == old(End()) && k >= 1 && (k <= 4 ==> p == Unit(k) && v < Unit(k))
        invariant Pending32(v, k, Rest()) == goal
        decreases left
      {
        ok, byte, v := Group32(v, k, p, goal);
        if !ok {
          return;
        }
        k, p := k + 1, 128 * p;
        if byte < 128 {
          break;
        }
      }
      if 7 * k == 35 && byte >= 16 {
        ok := false;
      }
    }

    /** pb_skip_varint. */
    method SkipVarint() returns (ok: bool)
      requires Valid()
      modifies this
      ensures Valid() && End() == old(End()) && Reads(DecodeSpec.SkipVarint(old(Rest())), ok, (), Rest())
    {
      while true
        invariant Valid() && End() == old(End())
        invariant DecodeSpec.SkipVarint(Rest()) == DecodeSpec.SkipVarint(old(Rest()))
        decreases left
      {
        var byte;
        ok, byte := ReadByte();
        if !ok || byte < 128 {
          return;
        }
      }
    }

    /** pb_read into nothing. */
    method SkipOver(n: nat) returns (ok: bool)
      requires Valid()
      modifies this
      ensures Valid() && End() == old(End()) && Reads(SkipBytes(old(Rest()), n), ok, (), Rest())
    {
      var b;
      ok, b := Read(n);
    }

    /** pb_skip_field. */
    method SkipField(wire: nat) returns (ok: bool)
      requires Valid()
      modifies this
      ensures Valid() && End() == old(End()) && Reads(Skip(wire, old(Rest())), ok, (), Rest())
    {
      if wire == 0 {
        ok := SkipVarint();
      } else if wire == 1 {
        ok := SkipOver(8);
      } else if wire == 2 {
        var n;
        ok, n := Varint32();
        if ok {
          ok := SkipOver(n);
        }
      } else if wire == 5 {
        ok := SkipOver(4);
      } else {
        ok := false;
      }
    }

    /** pb_make_string_substream: the substream is limited to the declared length, which the parent
        no longer counts as its own; the parent's cursor stays in front of it. */
    method MakeSubstream() returns (ok: bool, sub: Stream)
      requires Valid()
      modifies this
      ensures Valid() && (ok ==> Parted(sub))
      ensures ok == ReadDelimited(old(Rest())).Ok?
      ensures ok ==> fresh(sub) && sub.Rest() == ReadDelimited(old(Rest())).value
      ensures ok ==> After(sub) == ReadDelimited(old(Rest())).rest && sub.End() + left == old(End()) && sub.pos == pos
      ensures !ok ==> End() == old(End())
    {
      var size;
      ok, size := Varint32();
      sub := this;
      if !ok {
        return;
      }
      if left < size {
        ok := false;
        return;
      }
      sub := Part(size);
    }

    /** A copy of the stream gets the next `size` bytes, the parent keeps the others. */
    method Part(size: nat) returns (sub: Stream)
      requires Valid() && size <= left
      modifies this`left
      ensures fresh(sub) && Valid() && Parted(sub) && sub.Valid() && sub.pos == pos && sub.End() + left == old(End())
      ensures sub.Rest() == old(Rest())[..size] && After(sub) == old(Rest())[size..]
    {
      ghost var t := Rest();
      sub := new Stream(bytes, pos, size);
      left := left - size;
      assert sub.Rest() == t[..size] && After(sub) == t[size..];
    }

    /** The parent waits for its substream: what the parent still counts follows the substream. */
    ghost predicate Parted(sub: Stream)
      reads this, sub
    {
      sub.bytes == bytes && sub.End() + left <= |bytes|
    }

    ghost function After(sub: Stream): (s: seq<Byte>)
      reads this, sub
      requires Parted(sub)
    {
      bytes[sub.End()..sub.End() + left]
    }

    /** pb_close_string_substream: however much of the substream was read, the parent continues
        exactly behind its declared length. */
    method CloseSubstream(sub: Stream)
      requires Parted(sub) && sub != this
      modifies this, sub
      ensures Valid() && pos == old(sub.End()) && left == old(left) && Rest() == old(After(sub))
    {
      if sub.left > 0 {
        var ok := sub.SkipOver(sub.left);
        assert ok && sub.left == 0;
      }
      pos := sub.pos;
    }
  }

  lemma {:induction false} PendingAll(s: seq<Byte>)
    ensures Pending32(0, 0, s) == Decode32(s) && Pending64(0, 0, s, Decode64(s))
  {
  }
}
