/** pb_encode over output streams, proved against EncodeSpec: sizing, then writing. */
module PbEncode {
  import opened Common
  import opened Varint
  import opened Schema
  import opened EncodeSpec
  import opened OStream

  // ----- composing encodings -----

  lemma {:induction false} ThenAssociates(a: Encoded, b: Encoded, c: Encoded)
    ensures a.Then(b).Then(c) == a.Then(b.Then(c))
  {
    if a.Done? && b.Done? && c.Done? {
      assert a.bytes + b.bytes + c.bytes == a.bytes + (b.bytes + c.bytes);
    }
  }

  lemma {:induction false} ThenNothing(a: Encoded)
    ensures a.Then(Done([])) == a && Done([]).Then(a) == a
  {
    if a.Done? {
      assert a.bytes + [] == a.bytes && [] + a.bytes == a.bytes;
    }
  }

  lemma {:induction false} EmitsNothing(s: State)
    requires Proper(s)
    ensures Emits(s, s, Done([]), None)
  {
    if !s.sizing {
      assert s.data[..s.at] + [] + s.data[s.at..] == s.data;
    }
  }

  /** The bytes of a 32-bit word, by shifts. */
  lemma {:induction false} LittleEndian4(n: nat)
    ensures LittleEndian(n, 4) == [n % 256, n / 0x100 % 256, n / 0x1_0000 % 256, n / 0x100_0000 % 256]
  {
    var a := n / 0x100;
    var b := a / 0x100;
    var c := b / 0x100;
    assert b == n / 0x1_0000 && c == n / 0x100_0000;
    assert LittleEndian(c, 1) == [c % 256] + LittleEndian(c / 256, 0);
    assert LittleEndian(b, 2) == [b % 256] + LittleEndian(c, 1);
    assert LittleEndian(a, 3) == [a % 256] + LittleEndian(b, 2);
  }

  lemma {:induction false} LittleEndian8(n: nat)
    ensures LittleEndian(n, 8) == LittleEndian(n, 4) + LittleEndian(n / 0x1_0000_0000, 4)
  {
    var a := n / 0x100;
    var b := a / 0x100;
    var c := b / 0x100;
    assert b == n / 0x1_0000 && c == n / 0x100_0000 && c / 0x100 == n / 0x1_0000_0000;
    var high := LittleEndian(c / 256, 4);
    Steps(c, 0, high);
    Steps(b, 1, high);
    Steps(a, 2, high);
    Steps(n, 3, high);
  }

  lemma {:induction false} Steps(n: nat, k: nat, high: seq<Byte>)
    requires LittleEndian(n / 256, k + 4) == LittleEndian(n / 256, k) + high
    ensures LittleEndian(n, k + 5) == LittleEndian(n, k + 1) + high
  {
  }

  // ----- helper encoders -----

  /** pb_encode_tag. */
  method PutTag(out: Stream, wire: nat, tag: nat) returns (err: Option<EncodeError>)
    requires Proper(out.View())
    modifies out, out.buffer
    ensures Emits(old(out.View()), out.View(), Done(Tag(tag, wire)), err)
  {
    err := out.Varint(8 * tag + wire);
  }

  /** pb_encode_string. */
  method PutString(out: Stream, b: seq<Byte>) returns (err: Option<EncodeError>)
    requires Proper(out.View())
    modifies out, out.buffer
    ensures Emits(old(out.View()), out.View(), Done(Delimited(b)), err)
  {
    ghost var s := out.View();
    err := out.Varint(|b|);
    ghost var t := out.View();
    if err.Some? {
      EmitsStop(s, t, Done(Encode(|b|)), Done(b), err);
      return;
    }
    err := out.Write(b);
    EmitsThen(s, t, out.View(), Done(Encode(|b|)), Done(b), err);
  }

  /** pb_encode_svarint. */
  method PutSigned(out: Stream, value: int) returns (err: Option<EncodeError>)
    requires Proper(out.View()) && -TWO_63 <= value < TWO_63
    modifies out, out.buffer
    ensures Emits(old(out.View()), out.View(), Done(Encode(ZigZag(value))), err)
  {
    var shifted := (2 * ToU64(value)) % TWO_64;
    var zigzagged := shifted;
    if value < 0 {
      zigzagged := Not64(shifted);
    }
    err := out.Varint(zigzagged);
  }

  function Shifted4(n: nat): (b: seq<Byte>)
    ensures b == LittleEndian(n, 4)
  {
    LittleEndian4(n);
    [n % 256, n / 0x100 % 256, n / 0x1_0000 % 256, n / 0x100_0000 % 256]
  }

  lemma {:induction false} StringEnd(b: seq<Byte>, max: nat, n: nat)
    requires n <= |b| <= max && (n == |b| || b[n] == 0) && forall k :: 0 <= k < n ==> b[k] != 0
    ensures |CStr(b, max)| == n
    decreases n
  {
    if n > 0 {
      StringEnd(b[1..], max - 1, n - 1);
    }
  }

  /** The string in a buffer, by a loop that stops at its terminator or its size. */
  method StringLength(b: seq<Byte>, max: nat) returns (size: nat)
    requires |b| <= max
    ensures size == |CStr(b, max)| && size <= |b|
  {
    size := 0;
    while size < |b| && b[size] != 0
      invariant size <= |b| && forall k :: 0 <= k < size ==> b[k] != 0
    {
      size := size + 1;
    }
    StringEnd(b, max, size);
  }

  // ----- pb_encode_submessage -----

  /** The writing pass: a substream of exactly the size found by the sizing pass. */
  method WriteSub(out: Stream, fields: seq<Field>, slots: seq<Slot>, size: nat) returns (err: Option<EncodeError>)
    requires Proper(out.View()) && !out.sizing && Typed(fields, slots)
    requires EncodeFrom(fields, slots, 0).Done? && size == |EncodeFrom(fields, slots, 0).bytes|
    modifies out, out.buffer
    ensures Emits(old(out.View()), out.View(), EncodeFrom(fields, slots, 0), err)
    decreases fields, |fields| + 2
  {
    if out.written + size > out.maxSize {
      return Some(StreamFull);
    }
    var sub := new Stream.Over(out.buffer, out.at, size);
    err := EncodeAll(sub, fields, slots);
    out.written := out.written + sub.written;
    out.at := sub.at;
    if sub.written != size {
      assert false;
      err := Some(SubmessageSizeChanged);
    }
  }

  method EncodeSub(out: Stream, fields: seq<Field>, slots: seq<Slot>) returns (err: Option<EncodeError>)
    requires Proper(out.View()) && Typed(fields, slots)
    modifies out, out.buffer
    ensures Emits(old(out.View()), out.View(), EncodeValue(Sub(fields), Msg(slots)), err)
    decreases fields, |fields| + 3
  {
    ghost var s, inner := out.View(), EncodeFrom(fields, slots, 0);
    var sizes := new Stream.Sizing();
    err := EncodeAll(sizes, fields, slots);
    assert out.View() == s;
    if err.Some? {
      return;
    }
    var size := sizes.written;
    err := out.Varint(size);
    ghost var t := out.View();
    if err.Some? {
      EmitsStop(s, t, Done(Encode(size)), inner, err);
      return;
    }
    if out.sizing {
      out.Count(inner.bytes, size);
    } else {
      err := WriteSub(out, fields, slots, size);
    }
    EmitsThen(s, t, out.View(), Done(Encode(size)), inner, err);
  }

  /** pb_encode. */
  method EncodeAll(out: Stream, fields: seq<Field>, slots: seq<Slot>) returns (err: Option<EncodeError>)
    requires Proper(out.View()) && Typed(fields, slots)
    modifies out, out.buffer
    ensures Emits(old(out.View()), out.View(), EncodeFrom(fields, slots, 0), err)
    decreases fields, |fields| + 1
  {
    ghost var s, all, done := out.View(), EncodeFrom(fields, slots, 0), Done([]);
    EmitsNothing(s);
    ThenNothing(all);
    for i := 0 to |fields|
      invariant Proper(out.View()) && Emits(s, out.View(), done, None)
      invariant done.Then(EncodeFrom(fields, slots, i)) == all
    {
      ghost var t, here, rest := out.View(), EncodeField(fields[i], slots[i]), EncodeFrom(fields, slots, i + 1);
      err := PutField(out, fields[i], slots[i]);
      ThenAssociates(done, here, rest);
      EmitsThen(s, t, out.View(), done, here, err);
      if err.Some? {
        EmitsStop(s, out.View(), done.Then(here), rest, err);
        return;
      }
      done := done.Then(here);
    }
    ThenNothing(done);
    err := None;
  }

  // ----- fields -----

  /** The PB_ENCODERS table. */
  method PutValue(out: Stream, kind: Kind, v: Value) returns (err: Option<EncodeError>)
    requires Proper(out.View()) && TypedValue(kind, v)
    modifies out, out.buffer
    ensures Emits(old(out.View()), out.View(), EncodeValue(kind, v), err)
    decreases kind, 0
  {
    match kind
    case Bool => err := out.Varint(if v.n != 0 then 1 else 0);
    case Int(_) => err := out.Varint(ToU64(v.n));
    case UInt(_) => err := out.Varint(v.n);
    case SInt(_) => err := PutSigned(out, v.n);
    case Fixed32 => err := out.Write(Shifted4(v.n));
    case Fixed64 =>
      LittleEndian8(v.n);
      err := out.Write(Shifted4(v.n) + Shifted4(v.n / 0x1_0000_0000));
    case Bytes(cap) =>
      if |v.bytes| > cap {
        return Some(BytesSizeExceeded);
      }
      err := PutString(out, v.bytes);
    case Str(size) =>
      var n := StringLength(v.bytes, size);
      err := PutString(out, v.bytes[..n]);
    case FixedBytes(_) => err := PutString(out, v.bytes);
    case Sub(fields) => err := EncodeSub(out, fields, v.slots);
  }

  method PutTagged(out: Stream, f: Field, v: Value) returns (err: Option<EncodeError>)
    requires Proper(out.View()) && TypedValue(f.kind, v)
    modifies out, out.buffer
    ensures Emits(old(out.View()), out.View(), EncodeTagged(f, v), err)
    decreases f, 0
  {
    ghost var s, tag, value := out.View(), Done(Tag(f.tag, WireType(f.kind))), EncodeValue(f.kind, v);
    err := PutTag(out, WireType(f.kind), f.tag);
    ghost var t := out.View();
    if err.Some? {
      EmitsStop(s, t, tag, value, err);
      return;
    }
    err := PutValue(out, f.kind, v);
    EmitsThen(s, t, out.View(), tag, value, err);
  }

  /** The elements of an array, each behind its tag unless they are packed. */
  method PutItems(out: Stream, f: Field, tagged: bool, items: seq<Value>) returns (err: Option<EncodeError>)
    requires Proper(out.View()) && forall k :: 0 <= k < |items| ==> TypedValue(f.kind, items[k])
    modifies out, out.buffer
    ensures Emits(old(out.View()), out.View(), EncodeItems(Prefix(f, tagged), f.kind, items), err)
    decreases f, 1
  {
    ghost var p := Prefix(f, tagged);
    ghost var s, all, done := out.View(), EncodeItems(p, f.kind, items), Done([]);
    EmitsNothing(s);
    ThenNothing(all);
    assert items[0..] == items;
    for i := 0 to |items|
      invariant Proper(out.View()) && Emits(s, out.View(), done, None)
      invariant done.Then(EncodeItems(p, f.kind, items[i..])) == all
    {
      ghost var t, here := out.View(), Done(p).Then(EncodeValue(f.kind, items[i]));
      ghost var rest := EncodeItems(p, f.kind, items[i + 1..]);
      assert items[i..][1..] == items[i + 1..];
      if tagged {
        err := PutTagged(out, f, items[i]);
      } else {
        ThenNothing(EncodeValue(f.kind, items[i]));
        err := PutValue(out, f.kind, items[i]);
      }
      ThenAssociates(done, here, rest);
      EmitsThen(s, t, out.View(), done, here, err);
      if err.Some? {
        EmitsStop(s, out.View(), done.Then(here), rest, err);
        return;
      }
      done := done.Then(here);
    }
    assert items[|items|..] == [];
    ThenNothing(done);
    err := None;
  }

  ghost function Prefix(f: Field, tagged: bool): (p: seq<Byte>) {
    if tagged then Tag(f.tag, WireType(f.kind)) else []
  }

  /** The size of a packed array, found without encoding it where the elements have one size. */
  method PackedSize(f: Field, items: seq<Value>) returns (err: Option<EncodeError>, size: nat)
    requires forall k :: 0 <= k < |items| ==> TypedValue(f.kind, items[k])
    ensures var r := EncodeItems([], f.kind, items);
      if err.None? then r.Done? && size == |r.bytes| else r == Fail(err.value) && err.value != SubmessageSizeChanged
    decreases f, 2
  {
    err, size := None, 0;
    if f.kind.Fixed32? {
      FixedItems(f.kind, items);
      size := 4 * |items|;
    } else if f.kind.Fixed64? {
      FixedItems(f.kind, items);
      size := 8 * |items|;
    } else {
      var sizes := new Stream.Sizing();
      err := PutItems(sizes, f, false, items);
      size := sizes.written;
    }
  }

  /** A packed array behind its size. */
  method PutPacked(out: Stream, f: Field, items: seq<Value>) returns (err: Option<EncodeError>)
    requires Proper(out.View()) && Packable(f.kind) && forall k :: 0 <= k < |items| ==> TypedValue(f.kind, items[k])
    modifies out, out.buffer
    ensures EncodeItems([], f.kind, items).Done?
    ensures Emits(old(out.View()), out.View(), Done(Delimited(EncodeItems([], f.kind, items).bytes)), err)
    decreases f, 3
  {
    ghost var s, inner := out.View(), EncodeItems([], f.kind, items);
    PackedDone(f.kind, items);
    var size;
    err, size := PackedSize(f, items);
    assert err.None? && out.View() == s;
    err := out.Varint(size);
    ghost var t := out.View();
    if err.Some? {
      EmitsStop(s, t, Done(Encode(size)), inner, err);
      return;
    }
    if out.sizing {
      out.Count(inner.bytes, size);
    } else {
      err := PutItems(out, f, false, items);
    }
    EmitsThen(s, t, out.View(), Done(Encode(size)), inner, err);
  }

  /** Numbers always have an encoding, so the error return of the sizing loop is not taken. */
  lemma {:induction false} PackedDone(kind: Kind, items: seq<Value>)
    requires Packable(kind) && forall k :: 0 <= k < |items| ==> TypedValue(kind, items[k])
    ensures EncodeItems([], kind, items).Done?
    decreases |items|
  {
    if items != [] { PackedDone(kind, items[1..]); }
  }

  /** encode_array. */
  method PutArray(out: Stream, f: Field, items: seq<Value>, max: nat) returns (err: Option<EncodeError>)
    requires Proper(out.View()) && forall k :: 0 <= k < |items| ==> TypedValue(f.kind, items[k])
    modifies out, out.buffer
    ensures Emits(old(out.View()), out.View(), EncodeArray(f, items, max), err)
    decreases f, 4
  {
    if |items| == 0 {
      EmitsNothing(out.View());
      return None;
    }
    if |items| > max {
      return Some(ArrayMaxSizeExceeded);
    }
    if !Packable(f.kind) {
      err := PutItems(out, f, true, items);
      return;
    }
    ghost var s, tag := out.View(), Done(Tag(f.tag, 2));
    PackedDone(f.kind, items);
    ghost var rest := Done(Delimited(EncodeItems([], f.kind, items).bytes));
    err := PutTag(out, 2, f.tag);
    ghost var t := out.View();
    if err.Some? {
      EmitsStop(s, t, tag, rest, err);
      return;
    }
    err := PutPacked(out, f, items);
    EmitsThen(s, t, out.View(), tag, rest, err);
  }

  /** encode_basic_field. */
  method PutField(out: Stream, f: Field, slot: Slot) returns (err: Option<EncodeError>)
    requires Proper(out.View()) && TypedSlot(f, slot)
    modifies out, out.buffer
    ensures Emits(old(out.View()), out.View(), EncodeField(f, slot), err)
    decreases f, 5
  {
    EmitsNothing(out.View());
    err := None;
    match f.rule
    case Required => err := PutTagged(out, f, slot.v);
    case Optional =>
      if slot.has {
        err := PutTagged(out, f, slot.v);
      }
    case Singular =>
      var zero := CheckZero(f.kind, slot.v);
      if !zero {
        err := PutTagged(out, f, slot.v);
      }
    case Repeated(max) => err := PutArray(out, f, slot.items, max);
    case FixedCount(n) => err := PutArray(out, f, slot.items, n);
    case OneOf(_) =>
      if slot.sel.Some? {
        err := PutTagged(out, f, slot.sel.value);
      }
  }

  /** pb_check_proto3_default_value on a value. */
  method CheckZero(kind: Kind, v: Value) returns (zero: bool)
    requires TypedValue(kind, v)
    ensures zero == IsZero(kind, v)
    decreases kind
  {
    match kind
    case Bytes(_) => zero := |v.bytes| == 0;
    case Str(_) => zero := |v.bytes| == 0 || v.bytes[0] == 0;
    case FixedBytes(size) => zero := size == 0;
    case Sub(fields) =>
      for i := 0 to |fields|
        invariant forall k :: 0 <= k < i ==> IsDefault(fields, v.slots, k)
      {
        var dflt := CheckDefault(fields, v.slots, i);
        if !dflt {
          return false;
        }
      }
      zero := true;
    case _ => zero := v.n == 0;
  }

  /** pb_check_proto3_default_value on a field of a submessage. */
  method CheckDefault(fields: seq<Field>, slots: seq<Slot>, i: nat) returns (dflt: bool)
    requires Typed(fields, slots) && i < |fields|
    ensures dflt == IsDefault(fields, slots, i)
    decreases fields
  {
    var f := fields[i];
    assert TypedSlot(f, slots[i]);
    match f.rule
    case Required => dflt := false;
    case FixedCount(_) => dflt := false;
    case Repeated(_) => dflt := |slots[i].items| == 0;
    case OneOf(_) =>
      dflt := forall j :: 0 <= j < |fields| && fields[j].rule == f.rule ==> !Selected(fields, slots, j);
    case Optional => dflt := !slots[i].has;
    case Singular => dflt := CheckZeroField(f, slots[i].v);
  }

  method CheckZeroField(f: Field, v: Value) returns (zero: bool)
    requires TypedValue(f.kind, v)
    ensures zero == IsZeroField(f, v)
    decreases f
  {
    zero := CheckZero(f.kind, v);
  }

  // ----- sizing refines writing -----

  /** pb_get_encoded_size: the size of what the encoder writes, unless it fails. */
  method GetEncodedSize(fields: seq<Field>, slots: seq<Slot>) returns (err: Option<EncodeError>, size: nat)
    requires Typed(fields, slots)
    ensures var r := EncodeMessage(fields, slots);
      if err.None? then r.Done? && size == |r.bytes| else r == Fail(err.value)
  {
    var sizes := new Stream.Sizing();
    err := EncodeAll(sizes, fields, slots);
    size := sizes.written;
  }

  /** pb_encode into a buffer: it succeeds exactly when the sizing pass does and the size fits, and
      then writes exactly that many bytes; it never reports that a submessage changed its size. */
  method EncodeInto(buffer: array<Byte>, fields: seq<Field>, slots: seq<Slot>)
    returns (err: Option<EncodeError>, written: nat)
    requires Typed(fields, slots)
    modifies buffer
    ensures var r := EncodeMessage(fields, slots);
      && (err.None? <==> r.Done? && |r.bytes| <= buffer.Length)
      && (err.None? ==> written == |r.bytes| && buffer[..] == r.bytes + old(buffer[..])[written..])
      && err != Some(SubmessageSizeChanged)
  {
    var out := new Stream.Over(buffer, 0, buffer.Length);
    ghost var s := out.View();
    err := EncodeAll(out, fields, slots);
    written := out.written;
    if err.None? {
      assert s.data[..0] + EncodeMessage(fields, slots).bytes == EncodeMessage(fields, slots).bytes;
    }
  }
}
