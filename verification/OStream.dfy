/** Output streams of nanopb: a stream either counts bytes (sizing) or writes them to a buffer. */
module OStream {
  import opened Common
  import opened Varint
  import opened Schema
  import opened EncodeSpec

  // ----- what a stream holds -----

  /** `data` is the whole buffer and `at` the position of the next write. */
  datatype State = State(sizing: bool, max: nat, written: nat, at: nat, data: seq<Byte>)

  predicate Proper(s: State) {
    !s.sizing ==> s.written <= s.max && s.at + (s.max - s.written) <= |s.data|
  }

  predicate Fits(s: State, n: nat) { s.sizing || s.written + n <= s.max }

  function Extend(s: State, b: seq<Byte>): (t: State)
    requires Proper(s) && Fits(s, |b|)
    ensures Proper(t) && t.sizing == s.sizing && t.max == s.max && t.written == s.written + |b|
  {
    if s.sizing then s.(written := s.written + |b|)
    else s.(written := s.written + |b|, at := s.at + |b|, data := s.data[..s.at] + b + s.data[s.at + |b|..])
  }

  /** Nothing outside the part of the buffer that the stream may fill has changed. */
  ghost predicate Confined(s: State, t: State)
    requires Proper(s)
  {
    && t.sizing == s.sizing && t.max == s.max && |t.data| == |s.data| && Proper(t)
    && (if s.sizing then t.data == s.data && t.at == s.at
        else
          var end := s.at + (s.max - s.written);
          && s.at <= t.at && t.at - s.at == t.written - s.written
          && t.data[..s.at] == s.data[..s.at] && t.data[end..] == s.data[end..])
  }

  /** A call that should emit r leads from s to t: it succeeds exactly when r succeeds and fits, and
      has then appended exactly the bytes of r. A sizing stream fails only as r does, and no stream
      finds that the size of a submessage has changed. */
  ghost predicate Emits(s: State, t: State, r: Encoded, err: Option<EncodeError>)
    requires Proper(s)
  {
    && Confined(s, t)
    && (err.None? <==> r.Done? && Fits(s, |r.bytes|))
    && (err.None? ==> t == Extend(s, r.bytes))
    && (err.Some? ==> err.value == StreamFull || (r.Fail? && err.value == r.error))
    && (err.Some? && s.sizing ==> err.value == r.error)
    && err != Some(SubmessageSizeChanged)
  }

  lemma {:induction false} ExtendConfined(s: State, b: seq<Byte>)
    requires Proper(s) && Fits(s, |b|)
    ensures Confined(s, Extend(s, b))
  {
    if !s.sizing {
      var t, end := Extend(s, b), s.at + (s.max - s.written);
      assert t.data[end..] == s.data[end..];
    }
  }

  lemma {:induction false} ConfinedTransitive(s: State, t: State, u: State)
    requires Proper(s) && Confined(s, t) && Confined(t, u)
    ensures Confined(s, u)
  {
    if !s.sizing {
      assert u.data[..s.at] == u.data[..t.at][..s.at];
      assert t.at + (t.max - t.written) == s.at + (s.max - s.written);
    }
  }

  lemma {:induction false} ExtendTwice(s: State, a: seq<Byte>, b: seq<Byte>)
    requires Proper(s) && Fits(s, |a + b|)
    ensures Extend(Extend(s, a), b) == Extend(s, a + b)
  {
    if !s.sizing {
      var t := Extend(s, a);
      assert t.data[..t.at] == s.data[..s.at] + a;
      assert t.data[t.at + |b|..] == s.data[s.at + |a + b|..];
    }
  }

  /** One call after another. */
  lemma {:induction false} EmitsThen(s: State, t: State, u: State, a: Encoded, b: Encoded, err: Option<EncodeError>)
    requires Proper(s) && Emits(s, t, a, None) && Emits(t, u, b, err)
    ensures Emits(s, u, a.Then(b), err)
  {
    ConfinedTransitive(s, t, u);
    if b.Done? && Fits(s, |a.bytes + b.bytes|) {
      ExtendTwice(s, a.bytes, b.bytes);
    }
  }

  /** The rest is not reached after an error. */
  lemma {:induction false} EmitsStop(s: State, t: State, a: Encoded, b: Encoded, err: Option<EncodeError>)
    requires Proper(s) && Emits(s, t, a, err) && err.Some?
    ensures Emits(s, t, a.Then(b), err)
  {
  }

  // ----- the stream -----

  class Stream {
    const sizing: bool
    const maxSize: nat
    const buffer: array<Byte>
    var written: nat
    var at: nat

    ghost function View(): (s: State)
      reads this, buffer
    {
      State(sizing, maxSize, written, at, buffer[..])
    }

    /** PB_OSTREAM_SIZING. */
    constructor Sizing()
      ensures View() == State(true, 0, 0, 0, []) && fresh(buffer)
    {
      sizing, maxSize, written, at := true, 0, 0, 0;
      buffer := new Byte[0];
    }

    /** A stream over part of a buffer: pb_ostream_from_buffer, or the substream of a submessage. */
    constructor Over(buffer: array<Byte>, at: nat, size: nat)
      ensures this.buffer == buffer && View() == State(false, size, 0, at, buffer[..])
    {
      sizing, maxSize, written, this.at, this.buffer := false, size, 0, at, buffer;
    }

    /** pb_write with data: check the room, then copy. */
    method Write(b: seq<Byte>) returns (err: Option<EncodeError>)
      requires Proper(View())
      modifies this, buffer
      ensures Emits(old(View()), View(), Done(b), err)
    {
      ghost var s := View();
      if |b| > 0 && !sizing {
        if written + |b| > maxSize {
          return Some(StreamFull);
        }
        CopyIn(b);
      }
      written := written + |b|;
      err := None;
      ExtendConfined(s, b);
      assert sizing || |b| > 0 || s.data[..s.at] + b + s.data[s.at + |b|..] == s.data;
    }

    /** buf_write. */
    method CopyIn(b: seq<Byte>)
      requires !sizing && at + |b| <= buffer.Length
      modifies this`at, buffer
      ensures at == old(at) + |b| && buffer[..] == old(buffer[..at] + b + buffer[at + |b|..])
    {
      var dest := at;
      at := dest + |b|;
      for i := 0 to |b|
        invariant at == dest + |b| && buffer[..] == Spliced(old(buffer[..]), dest, b[..i])
      {
        buffer[dest + i] := b[i];
        SpliceNext(old(buffer[..]), dest, b, i);
      }
      assert b[..|b|] == b;
      assert old(buffer[..])[..dest] == old(buffer[..at]) && old(buffer[..])[dest + |b|..] == old(buffer[at + |b|..]);
    }

    /** pb_write without data: a sizing stream only counts. */
    method Count(ghost b: seq<Byte>, n: nat)
      requires sizing && n == |b|
      modifies this`written
      ensures Emits(old(View()), View(), Done(b), None)
    {
      written := written + n;
    }

    /** pb_encode_varint. */
    method Varint(v: nat) returns (err: Option<EncodeError>)
      requires Proper(View())
      modifies this, buffer
      ensures Emits(old(View()), View(), Done(Encode(v)), err)
    {
      if v <= 0x7F {
        err := Write([v]);
        return;
      }
      var bytes := VarintBytes(v);
      err := Write(bytes);
    }
  }

  ghost function Spliced(d: seq<Byte>, at: nat, b: seq<Byte>): (r: seq<Byte>)
    requires at + |b| <= |d|
    ensures |r| == |d|
  {
    d[..at] + b + d[at + |b|..]
  }

  lemma {:induction false} SpliceNext(d: seq<Byte>, at: nat, b: seq<Byte>, i: nat)
    requires at + |b| <= |d| && i < |b|
    ensures Spliced(d, at, b[..i])[at + i := b[i]] == Spliced(d, at, b[..i + 1])
  {
  }

  /** The groups of the varint loop while bits remain: all are marked. */
  function Marked(v: nat): (s: seq<Byte>)
    ensures v > 0 ==> |s| > 0 && s[|s| - 1] >= 128 && s[..|s| - 1] + [s[|s| - 1] - 128] == Encode(v)
  {
    if v == 0 then [] else
      var rest := Marked(v / 128);
      assert v >= 128 ==> ([v % 128 + 128] + rest)[..|rest|] == [v % 128 + 128] + rest[..|rest| - 1];
      [v % 128 + 128] + rest
  }

  lemma {:induction false} MarkedStep(b: seq<Byte>, v: nat)
    requires v > 0
    ensures b + Marked(v) == b + [LowGroup(v)] + Marked(Shifted(v))
  {
  }

  /** (value & 0x7F) | 0x80. */
  function LowGroup(v: nat): (b: Byte) { v % 128 + 128 }

  function Shifted(v: nat): (w: nat)
    ensures v > 0 ==> w < v
  {
    v / 128
  }

  /** The loop of pb_encode_varint; at most ten bytes for a 64-bit value. */
  method VarintBytes(v: nat) returns (b: seq<Byte>)
    requires v > 0
    ensures b == Encode(v)
  {
    var value := v;
    b := [];
    while value > 0
      invariant b + Marked(value) == Marked(v)
    {
      MarkedStep(b, value);
      b := b + [LowGroup(value)];
      value := Shifted(value);
    }
    assert b + [] == b;
    b := b[|b| - 1 := b[|b| - 1] - 128];
  }
}
