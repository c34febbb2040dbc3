/** What pb_encode writes, in one pass and without a stream. */
module EncodeSpec {
  import opened Common
  import opened Varint
  import opened Schema

  datatype EncodeError = ArrayMaxSizeExceeded | BytesSizeExceeded | StreamFull | SubmessageSizeChanged

  datatype Encoded = Done(bytes: seq<Byte>) | Fail(error: EncodeError)
  {
    function Then(next: Encoded): (r: Encoded) {
      if Fail? then this else if next.Fail? then next else Done(bytes + next.bytes)
    }
  }

  function LittleEndian(n: nat, k: nat): (s: seq<Byte>)
    ensures |s| == k
  {
    if k == 0 then [] else [n % 256] + LittleEndian(n / 256, k - 1)
  }

  function WireType(kind: Kind): (w: nat)
    ensures w in {0, 1, 2, 5}
  {
    match kind
    case Fixed32 => 5
    case Fixed64 => 1
    case Bytes(_) => 2
    case Str(_) => 2
    case Sub(_) => 2
    case FixedBytes(_) => 2
    case _ => 0
  }

  function Tag(tag: nat, wire: nat): (s: seq<Byte>) {
    Encode(8 * tag + wire)
  }

  function Delimited(b: seq<Byte>): (s: seq<Byte>) {
    Encode(|b|) + b
  }

  function EncodeValue(kind: Kind, v: Value): (r: Encoded)
    requires TypedValue(kind, v)
    decreases kind, 0
  {
    match kind
    case Bool => Done(Encode(v.n))
    case Int(_) => Done(Encode(ToU64(v.n)))
    case UInt(_) => Done(Encode(v.n))
    case SInt(_) => Done(Encode(ZigZag(v.n)))
    case Fixed32 => Done(LittleEndian(v.n, 4))
    case Fixed64 => Done(LittleEndian(v.n, 8))
    case Bytes(cap) => if |v.bytes| > cap then Fail(BytesSizeExceeded) else Done(Delimited(v.bytes))
    case Str(size) => Done(Delimited(CStr(v.bytes, size)))
    case FixedBytes(_) => Done(Delimited(v.bytes))
    case Sub(fields) =>
      var inner := EncodeFrom(fields, v.slots, 0);
      if inner.Fail? then inner else Done(Delimited(inner.bytes))
  }

  /** The elements one after another, each behind `prefix`. */
  function EncodeItems(prefix: seq<Byte>, kind: Kind, items: seq<Value>): (r: Encoded)
    requires forall k :: 0 <= k < |items| ==> TypedValue(kind, items[k])
    decreases kind, 1 + |items|
  {
    if items == [] then Done([])
    else Done(prefix).Then(EncodeValue(kind, items[0])).Then(EncodeItems(prefix, kind, items[1..]))
  }

  /** Fixed-width numbers have a fixed size. */
  lemma {:induction false} FixedItems(kind: Kind, items: seq<Value>)
    requires kind.Fixed32? || kind.Fixed64?
    requires forall k :: 0 <= k < |items| ==> TypedValue(kind, items[k])
    ensures var r := EncodeItems([], kind, items);
      r.Done? && |r.bytes| == (if kind.Fixed32? then 4 else 8) * |items|
    decreases |items|
  {
    if items != [] {
      FixedItems(kind, items[1..]);
    }
  }

  /** encode_array: packed when the kind allows it. */
  function EncodeArray(f: Field, items: seq<Value>, max: nat): (r: Encoded)
    requires forall k :: 0 <= k < |items| ==> TypedValue(f.kind, items[k])
    decreases f, 0
  {
    if items == [] then Done([])
    else if |items| > max then Fail(ArrayMaxSizeExceeded)
    else if Packable(f.kind) then
      var inner := EncodeItems([], f.kind, items);
      if inner.Fail? then inner else Done(Tag(f.tag, 2) + Delimited(inner.bytes))
    else EncodeItems(Tag(f.tag, WireType(f.kind)), f.kind, items)
  }

  function EncodeTagged(f: Field, v: Value): (r: Encoded)
    requires TypedValue(f.kind, v)
    decreases f, 0
  {
    Done(Tag(f.tag, WireType(f.kind))).Then(EncodeValue(f.kind, v))
  }

  function EncodeField(f: Field, s: Slot): (r: Encoded)
    requires TypedSlot(f, s)
    decreases f
  {
    match f.rule
    case Required => EncodeTagged(f, s.v)
    case Optional => if s.has then EncodeTagged(f, s.v) else Done([])
    case Singular => if IsZero(f.kind, s.v) then Done([]) else EncodeTagged(f, s.v)
    case Repeated(max) => EncodeArray(f, s.items, max)
    case FixedCount(n) => EncodeArray(f, s.items, n)
    case OneOf(_) => if s.sel.Some? then EncodeTagged(f, s.sel.value) else Done([])
  }

  function EncodeFrom(fields: seq<Field>, slots: seq<Slot>, i: nat): (r: Encoded)
    requires Typed(fields, slots) && i <= |fields|
    decreases fields, |fields| - i
  {
    if i == |fields| then Done([])
    else EncodeField(fields[i], slots[i]).Then(EncodeFrom(fields, slots, i + 1))
  }

  function EncodeMessage(fields: seq<Field>, slots: seq<Slot>): (r: Encoded)
    requires Typed(fields, slots)
  {
    EncodeFrom(fields, slots, 0)
  }

  // ----- pb_check_proto3_default_value -----

  predicate IsZero(kind: Kind, v: Value)
    requires TypedValue(kind, v)
    decreases kind
  {
    match kind
    case Bytes(_) => v.bytes == []
    case Str(_) => v.bytes == [] || v.bytes[0] == 0
    case FixedBytes(size) => size == 0
    case Sub(fields) => forall i :: 0 <= i < |fields| ==> IsDefault(fields, v.slots, i)
    case _ => v.n == 0
  }

  predicate IsDefault(fields: seq<Field>, slots: seq<Slot>, i: nat)
    requires Typed(fields, slots) && i < |fields|
    decreases fields
  {
    var f := fields[i];
    assert TypedSlot(f, slots[i]);
    match f.rule
    case Required => false
    case FixedCount(_) => false
    case Repeated(_) => slots[i].items == []
    case OneOf(_) => forall j :: 0 <= j < |fields| && fields[j].rule == f.rule ==> !Selected(fields, slots, j)
    case Optional => !slots[i].has
    case Singular => IsZeroField(f, slots[i].v)
  }

  predicate IsZeroField(f: Field, v: Value)
    requires TypedValue(f.kind, v)
    decreases f
  {
    IsZero(f.kind, v)
  }
}
