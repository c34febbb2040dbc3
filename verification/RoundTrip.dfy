/** Decoding what was encoded: exactly which messages survive, and that they come back equal. */
module RoundTrip {
  import opened Common
  import opened Varint
  import opened Schema
  import opened EncodeSpec
  import opened DecodeSpec

  // ----- which messages survive -----

  /** A string keeps room for its terminator, and no length needs more than 32 bits: the writer
      writes 64-bit lengths, the reader reads 32-bit ones. */
  predicate Decodable(fields: seq<Field>, slots: seq<Slot>)
    requires Typed(fields, slots)
    decreases fields
  {
    forall i :: 0 <= i < |fields| ==> DecodableSlot(fields[i], slots[i])
  }

  predicate DecodableSlot(f: Field, s: Slot)
    requires TypedSlot(f, s)
    decreases f
  {
    match f.rule
    case Required => DecodableValue(f.kind, s.v)
    case Singular => IsZero(f.kind, s.v) || DecodableValue(f.kind, s.v)
    case Optional => s.has ==> DecodableValue(f.kind, s.v)
    case OneOf(_) => s.sel.Some? ==> DecodableValue(f.kind, s.sel.value)
    case Repeated(_) => DecodableItems(f.kind, s.items)
    case FixedCount(_) => DecodableItems(f.kind, s.items)
  }

  predicate DecodableItems(kind: Kind, items: seq<Value>)
    requires forall k :: 0 <= k < |items| ==> TypedValue(kind, items[k])
    decreases kind, 1
  {
    if Packable(kind)
    then EncodeItems([], kind, items).Done? && |EncodeItems([], kind, items).bytes| < TWO_32
    else forall k :: 0 <= k < |items| ==> DecodableValue(kind, items[k])
  }

  predicate DecodableValue(kind: Kind, v: Value)
    requires TypedValue(kind, v)
    decreases kind, 0
  {
    match kind
    case Str(size) => |CStr(v.bytes, size)| < size
    case Sub(fields) =>
      && EncodeMessage(fields, v.slots).Done? && |EncodeMessage(fields, v.slots).bytes| < TWO_32
      && Decodable(fields, v.slots)
    case _ => true
  }

  // ----- keys, lengths and scalars -----

  lemma {:induction false} KeyRoundTrip(tag: nat, wire: nat, y: seq<Byte>)
    requires 1 <= tag < 0x2000_0000 && wire < 8
    ensures Decode32(Tag(tag, wire) + y) == Ok(8 * tag + wire, y)
  {
    Decode32Small(8 * tag + wire, y);
  }

  lemma {:induction false} DelimitedRoundTrip(b: seq<Byte>, x: seq<Byte>)
    requires |b| < TWO_63
    ensures |b| < TWO_32 ==> ReadDelimited(Delimited(b) + x) == Ok(b, x)
    ensures |b| < TWO_32 ==> Decode32(Delimited(b) + x) == Ok(|b|, b + x) && Read(b + x, |b|) == Ok(b, x)
    ensures |b| >= TWO_32 ==> Decode32(Delimited(b) + x).Err?
  {
    var s := Delimited(b) + x;
    assert s == Encode(|b|) + (b + x);
    if |b| < TWO_32 { Decode32Small(|b|, b + x); } else { Decode32Large(|b|, b + x); }
    assert (b + x)[..|b|] == b && (b + x)[|b|..] == x;
  }

  lemma {:induction false} FixedRoundTrip(n: nat, k: nat, bound: nat)
    requires k <= 8 && n < bound
    requires bound == if k == 0 then 1 else if k == 1 then 0x100 else if k == 2 then 0x1_0000
      else if k == 3 then 0x100_0000 else if k == 4 then TWO_32 else if k == 5 then 0x100_0000_0000
      else if k == 6 then 0x1_0000_0000_0000 else if k == 7 then 0x100_0000_0000_0000 else TWO_64
    ensures FromLittleEndian(LittleEndian(n, k)) == n
    decreases k
  {
    if k > 0 {
      assert LittleEndian(n, k)[1..] == LittleEndian(n / 256, k - 1);
      FixedRoundTrip(n / 256, k - 1, bound / 256);
    }
  }

  lemma {:induction false} ReadFixedRoundTrip(n: nat, k: nat, x: seq<Byte>)
    requires (k == 4 && n < TWO_32) || (k == 8 && n < TWO_64)
    ensures ReadFixed(LittleEndian(n, k) + x, k) == Ok(Num(n), x)
  {
    var b := LittleEndian(n, k);
    assert (b + x)[..k] == b && (b + x)[k..] == x;
    FixedRoundTrip(n, k, if k == 4 then TWO_32 else TWO_64);
  }

  lemma {:induction false} SignedOfUnsigned(n: int, half: int)
    requires half == TWO_31 || half == TWO_63
    requires -half <= n < half
    ensures Signed(ToU64(n), half) == n
  {
    if n < 0 {
      assert ToU64(n) == n + TWO_64;
      if half == TWO_31 {
        assert (n + TWO_64) % TWO_32 == n + TWO_32;
      }
    } else {
      assert ToU64(n) == n;
    }
  }

  lemma {:induction false} IntRoundTrip(size: nat, n: int, x: seq<Byte>)
    requires TypedValue(Int(size), Num(n))
    ensures ReadInteger(Int(size), Encode(ToU64(n)) + x) == Ok(Num(n), x)
  {
    Decode64Inverts(ToU64(n), x);
    SignedOfUnsigned(n, if size == 8 then TWO_63 else TWO_31);
  }

  lemma {:induction false} UIntRoundTrip(size: nat, n: int, x: seq<Byte>)
    requires TypedValue(UInt(size), Num(n))
    ensures ReadInteger(UInt(size), Encode(n) + x) == Ok(Num(n), x)
  {
    Decode64Inverts(n, x);
  }

  lemma {:induction false} SIntRoundTrip(size: nat, n: int, x: seq<Byte>)
    requires TypedValue(SInt(size), Num(n))
    ensures ReadInteger(SInt(size), Encode(ZigZag(n)) + x) == Ok(Num(n), x)
  {
    var u := ZigZag(n);
    Decode64Inverts(u, x);
    ReadSInt(size, Encode(u) + x, u, x);
    ZigZagBijective(n, 0);
    assert Store(n, -Half(size), Half(size), x) == Ok(Num(n), x);
  }

  lemma {:induction false} ReadSInt(size: nat, s: seq<Byte>, u: nat, x: seq<Byte>)
    requires ValidSize(size) && u < TWO_64 && Decode64(s) == Ok(u, x)
    ensures ReadInteger(SInt(size), s) == Store(UnZigZag(u), -Half(size), Half(size), x)
  {
    assert u % TWO_64 == u;
  }

  /** Numbers always come back. */
  lemma {:induction false} NumberRoundTrip(kind: Kind, v: Value, inArray: bool, was: Value, x: seq<Byte>)
    requires Packable(kind) && TypedValue(kind, v)
    ensures EncodeValue(kind, v).Done? && EncodeValue(kind, v).bytes != []
    ensures DecodeValue(kind, inArray, was, EncodeValue(kind, v).bytes + x) == Ok(v, x)
  {
    match kind
    case Bool => Decode32Small(v.n, x);
    case Int(size) => IntRoundTrip(size, v.n, x);
    case UInt(size) => UIntRoundTrip(size, v.n, x);
    case SInt(size) => SIntRoundTrip(size, v.n, x);
    case Fixed32 => ReadFixedRoundTrip(v.n, 4, x);
    case Fixed64 => ReadFixedRoundTrip(v.n, 8, x);
  }

  lemma {:induction false} BytesRoundTrip(cap: nat, b: seq<Byte>, x: seq<Byte>)
    requires |b| <= cap < TWO_32
    ensures ReadBlob(Bytes(cap), Delimited(b) + x) == Ok(Blob(b), x)
  {
    DelimitedRoundTrip(b, x);
  }

  lemma {:induction false} FixedBytesRoundTrip(b: seq<Byte>, x: seq<Byte>)
    requires |b| < TWO_32
    ensures ReadBlob(FixedBytes(|b|), Delimited(b) + x) == Ok(Blob(b), x)
  {
    DelimitedRoundTrip(b, x);
    if b == [] {
      assert b + x == x && seq(0, _ => 0) == b;
    }
  }

  lemma {:induction false} StrRoundTrip(size: nat, b: seq<Byte>, x: seq<Byte>)
    requires |b| <= size < TWO_32 && forall i :: 0 <= i < |b| ==> b[i] != 0
    ensures |b| < size ==> ReadBlob(Str(size), Delimited(b) + x) == Ok(Blob(b + [0]), x)
    ensures |b| < size ==> CStr(b + [0], size) == b
    ensures |b| == size ==> ReadBlob(Str(size), Delimited(b) + x).Err?
  {
    DelimitedRoundTrip(b, x);
    if |b| < size {
      CStrTerminated(b, size);
    }
  }

  lemma {:induction false} BlobRoundTrip(kind: Kind, v: Value, x: seq<Byte>)
    requires kind.Bytes? || kind.Str? || kind.FixedBytes?
    requires ValidKind(kind) && TypedValue(kind, v) && EncodeValue(kind, v).Done?
    ensures var r := ReadBlob(kind, EncodeValue(kind, v).bytes + x);
      if DecodableValue(kind, v) then r.Ok? && r.rest == x && Same(kind, v, r.value) else r.Err?
  {
    match kind
    case Bytes(cap) => BytesRoundTrip(cap, v.bytes, x);
    case FixedBytes(_) => FixedBytesRoundTrip(v.bytes, x);
    case Str(size) => StrRoundTrip(size, CStr(v.bytes, size), x);
  }

  lemma {:induction false} CStrTerminated(b: seq<Byte>, size: nat)
    requires |b| < size && forall i :: 0 <= i < |b| ==> b[i] != 0
    ensures CStr(b + [0], size) == b
  {
    if b != [] {
      CStrTerminated(b[1..], size - 1);
      assert (b + [0])[1..] == b[1..] + [0];
    }
  }

  // ----- values -----

  /** One value, read into initialised storage. */
  lemma {:induction false} ValueRoundTrip(kind: Kind, v: Value, inArray: bool, was: Value, x: seq<Byte>)
    requires ValidKind(kind) && TypedValue(kind, v)
    requires EncodeValue(kind, v).Done? && |EncodeValue(kind, v).bytes| < TWO_63
    requires kind.Sub? && !inArray ==> Into(kind.fields, was) == Defaults(kind.fields)
    ensures DecodableValue(kind, v) ==> (
      var r := DecodeValue(kind, inArray, was, EncodeValue(kind, v).bytes + x);
      r.Ok? && r.rest == x && Same(kind, v, r.value))
    ensures !DecodableValue(kind, v) ==> DecodeValue(kind, inArray, was, EncodeValue(kind, v).bytes + x).Err?
    decreases kind, 0
  {
    if Packable(kind) {
      NumberRoundTrip(kind, v, inArray, was, x);
    } else if !kind.Sub? {
      BlobRoundTrip(kind, v, x);
    } else {
      var inner := EncodeMessage(kind.fields, v.slots).bytes;
      DelimitedRoundTrip(inner, x);
      MessageRoundTrip(kind.fields, v.slots);
    }
  }

  /** The first element in front of the others. */
  lemma {:induction false} ItemsSplit(prefix: seq<Byte>, kind: Kind, items: seq<Value>)
    requires forall k :: 0 <= k < |items| ==> TypedValue(kind, items[k])
    requires items != []
    ensures EncodeItems(prefix, kind, items).Done? <==>
      EncodeValue(kind, items[0]).Done? && EncodeItems(prefix, kind, items[1..]).Done?
    ensures EncodeItems(prefix, kind, items).Done? ==>
      EncodeItems(prefix, kind, items).bytes ==
      prefix + (EncodeValue(kind, items[0]).bytes + EncodeItems(prefix, kind, items[1..]).bytes)
  {
    var first, others := EncodeValue(kind, items[0]), EncodeItems(prefix, kind, items[1..]);
    if first.Done? && others.Done? {
      assert (prefix + first.bytes) + others.bytes == prefix + (first.bytes + others.bytes);
    }
  }

  /** Reading s as a packed array gives the items. Unfolds only where DecodePacked is named. */
  predicate Unpacks(kind: Kind, room: nat, s: seq<Byte>, items: seq<Value>) {
    forall n: nat :: n == room ==> DecodePacked(kind, n, s) == Success(items)
  }

  lemma {:induction false} PackedStep(kind: Kind, room: nat, v: Value, first: seq<Byte>, others: seq<Byte>,
                                      vs: seq<Value>)
    requires first != [] && room > 0
    requires DecodeValue(kind, true, Undef, first + others) == Ok(v, others)
    requires Unpacks(kind, room - 1, others, vs)
    ensures Unpacks(kind, room, first + others, [v] + vs)
  {
    assert (first + others)[0] == first[0];
    assert DecodePacked(kind, room - 1, others) == Success(vs);
  }

  lemma {:induction false} PackedRoundTrip(kind: Kind, items: seq<Value>, room: nat)
    requires Packable(kind) && |items| <= room
    requires forall k :: 0 <= k < |items| ==> TypedValue(kind, items[k])
    ensures EncodeItems([], kind, items).Done?
    ensures Unpacks(kind, room, EncodeItems([], kind, items).bytes, items)
    decreases |items|
  {
    if items == [] {
      assert EncodeItems([], kind, items).bytes == [];
    } else {
      PackedRoundTrip(kind, items[1..], room - 1);
      PackedMore(kind, items, room);
    }
  }

  lemma {:induction false} PackedMore(kind: Kind, items: seq<Value>, room: nat)
    requires Packable(kind) && 0 < |items| <= room
    requires forall k :: 0 <= k < |items| ==> TypedValue(kind, items[k])
    requires EncodeItems([], kind, items[1..]).Done?
    requires Unpacks(kind, room - 1, EncodeItems([], kind, items[1..]).bytes, items[1..])
    ensures EncodeItems([], kind, items).Done?
    ensures Unpacks(kind, room, EncodeItems([], kind, items).bytes, items)
  {
    var first, others := PackedFirst(kind, items);
    PackedStep(kind, room, items[0], first, others, items[1..]);
    assert items == [items[0]] + items[1..];
  }

  /** The first number of a packed array and the others. */
  lemma {:induction false} PackedFirst(kind: Kind, items: seq<Value>) returns (first: seq<Byte>, others: seq<Byte>)
    requires Packable(kind) && items != []
    requires forall k :: 0 <= k < |items| ==> TypedValue(kind, items[k])
    requires EncodeItems([], kind, items[1..]).Done?
    ensures EncodeItems([], kind, items) == Done(first + others) && others == EncodeItems([], kind, items[1..]).bytes
    ensures first != [] && DecodeValue(kind, true, Undef, first + others) == Ok(items[0], others)
  {
    ItemsSplit([], kind, items);
    first, others := EncodeValue(kind, items[0]).bytes, EncodeItems([], kind, items[1..]).bytes;
    NumberRoundTrip(kind, items[0], true, Undef, others);
    assert [] + (first + others) == first + others;
  }

  /** A value the proto3 check calls zero is the default. */
  lemma {:induction false} ZeroIsDefault(f: Field, v: Value)
    requires ValidField(f) && TypedValue(f.kind, v) && IsZero(f.kind, v)
    requires !f.kind.Sub? ==> f.dflt == Zero(f.kind)
    ensures Same(f.kind, v, DefaultValue(f))
    decreases f
  {
    match f.kind
    case Sub(fields) =>
      assert Valid(fields);
      forall i | 0 <= i < |fields|
        ensures SameSlot(fields[i], v.slots[i], DefaultSlot(fields[i]))
      {
        assert IsDefault(fields, v.slots, i) && TypedSlot(fields[i], v.slots[i]) && ValidField(fields[i]);
        if fields[i].rule.Singular? {
          assert IsZeroField(fields[i], v.slots[i].v);
          ZeroIsDefault(fields[i], v.slots[i].v);
        }
        if fields[i].rule.OneOf? {
          assert !Selected(fields, v.slots, i);
        }
      }
    case _ =>
  }

  // ----- the decoder half way through an encoded message -----

  /** Fields before i have arrived, the others from `untouched` on are untouched. */
  predicate Arrived(fields: seq<Field>, slots: seq<Slot>, i: nat, untouched: nat, st: Decoding)
    requires i <= untouched <= |fields| == |slots|
  {
    && |st.slots| == |fields|
    && (forall j :: 0 <= j < i ==> SameSlot(fields[j], slots[j], st.slots[j]))
    && (forall j :: untouched <= j < |fields| ==> st.slots[j] == DefaultSlot(fields[j]))
    && (forall j :: 0 <= j < i && fields[j].rule.Required? && RequiredBefore(fields, j) < MAX_REQUIRED_FIELDS ==>
          RequiredBefore(fields, j) in st.seen)
  }

  predicate FixedDone(fields: seq<Field>, i: nat, st: Decoding)
    requires i <= |fields|
  {
    st.fixedField.Some? ==>
      && st.fixedField.value < i && fields[st.fixedField.value].rule.FixedCount?
      && st.fixedSize == fields[st.fixedField.value].rule.n
  }

  predicate Ready(fields: seq<Field>, slots: seq<Slot>, i: nat, st: Decoding)
    requires i <= |fields| == |slots|
  {
    Arrived(fields, slots, i, i, st) && FixedDone(fields, i, st)
  }

  predicate SameUpTo(kind: Kind, a: seq<Value>, b: seq<Value>, k: nat)
    requires k <= |a| && k <= |b|
  {
    forall h :: 0 <= h < k ==> Same(kind, a[h], b[h])
  }

  /** Inside the array at i, k of whose elements have arrived. */
  predicate Midway(fields: seq<Field>, slots: seq<Slot>, i: nat, k: nat, st: Decoding)
    requires i < |fields| == |slots| && TypedSlot(fields[i], slots[i])
    requires fields[i].rule.Repeated? || fields[i].rule.FixedCount?
    requires k <= |slots[i].items|
  {
    && Arrived(fields, slots, i, i + 1, st)
    && match fields[i].rule
       case Repeated(_) =>
         && FixedDone(fields, i, st)
         && st.slots[i].Many? && |st.slots[i].items| == k
         && SameUpTo(fields[i].kind, slots[i].items, st.slots[i].items, k)
       case FixedCount(n) =>
         && st.slots[i].Fixed? && |st.slots[i].items| == n
         && SameUpTo(fields[i].kind, slots[i].items, st.slots[i].items, k)
         && (if k == 0 then FixedDone(fields, i, st) else st.fixedField == Some(i) && st.fixedSize == k)
  }

  /** If `ok`, decoding s from st comes down to decoding x from st'; otherwise it fails. The
      definition unfolds only where DecodeLoop is named. */
  predicate Leads(ok: bool, fields: seq<Field>, st: Decoding, s: seq<Byte>, st': Decoding, x: seq<Byte>)
    requires |st.slots| == |fields| == |st'.slots|
  {
    forall f :: f == fields && |st.slots| == |f| == |st'.slots| ==>
      if ok then DecodeLoop(f, st, s) == DecodeLoop(f, st', x) else DecodeLoop(f, st, s).Failure?
  }

  lemma {:induction false} LeadsNowhere(fields: seq<Field>, st: Decoding, x: seq<Byte>)
    requires |st.slots| == |fields|
    ensures Leads(true, fields, st, [] + x, st, x)
  {
    assert [] + x == x;
  }

  lemma {:induction false} LeadsOn(ok: bool, fields: seq<Field>, st: Decoding, s: seq<Byte>, mid: Decoding,
                                   y: seq<Byte>, st': Decoding, x: seq<Byte>)
    requires |st.slots| == |mid.slots| == |st'.slots| == |fields|
    requires Leads(true, fields, st, s, mid, y) && Leads(ok, fields, mid, y, st', x)
    ensures Leads(ok, fields, st, s, st', x)
  {
    assert DecodeLoop(fields, st, s) == DecodeLoop(fields, mid, y);
  }

  lemma {:induction false} LeadsFails(fields: seq<Field>, st: Decoding, s: seq<Byte>, mid: Decoding, y: seq<Byte>,
                                      st': Decoding, x: seq<Byte>)
    requires |st.slots| == |mid.slots| == |st'.slots| == |fields| && Leads(false, fields, st, s, mid, y)
    ensures Leads(false, fields, st, s, st', x)
  {
    assert DecodeLoop(fields, st, s).Failure?;
  }

  /** Decoding one record of field i leads to st' with x left, or fails. Unfolds only where DecodeField
      is named. */
  predicate Yields(fields: seq<Field>, st: Decoding, i: nat, wire: nat, y: seq<Byte>, ok: bool, st': Decoding,
                   x: seq<Byte>)
    requires i < |fields| == |st.slots|
  {
    forall w: nat :: w == wire ==>
      var r := DecodeField(fields, st, i, w, y); if ok then r == Ok(st', x) else r.Err?
  }

  /** A record for field i. */
  lemma {:induction false} RecordLeads(fields: seq<Field>, st: Decoding, i: nat, wire: nat, y: seq<Byte>, ok: bool,
                                       st': Decoding, x: seq<Byte>)
    requires Valid(fields) && i < |fields| == |st.slots| == |st'.slots| && wire < 8
    requires Yields(fields, st, i, wire, y, ok, st', x)
    ensures Leads(ok, fields, st, Tag(fields[i].tag, wire) + y, st', x)
  {
    assert ValidField(fields[i]);
    KeyStep(fields, st, fields[i].tag, wire, y);
    FindUnique(fields, i);
    var r := DecodeField(fields, st, i, wire, y);
  }

  /** One turn of the loop. */
  lemma {:induction false} LoopStep(fields: seq<Field>, st: Decoding, key: nat, s: seq<Byte>, y: seq<Byte>)
    requires |st.slots| == |fields| && s != [] && Decode32(s) == Ok(key, y) && key != 0
    ensures var r := DecodeRecord(fields, st, key, y);
      DecodeLoop(fields, st, s) == if r.Err? then Failure(r.error) else DecodeLoop(fields, r.value, r.rest)
  {
  }

  /** One turn of the loop on a key that was written out. */
  lemma {:induction false} KeyStep(fields: seq<Field>, st: Decoding, tag: nat, wire: nat, y: seq<Byte>)
    requires |st.slots| == |fields| && 1 <= tag < 0x2000_0000 && wire < 8
    ensures (8 * tag + wire) / 8 == tag && (8 * tag + wire) % 8 == wire
    ensures var r := DecodeRecord(fields, st, 8 * tag + wire, y);
      DecodeLoop(fields, st, Tag(tag, wire) + y) ==
      if r.Err? then Failure(r.error) else DecodeLoop(fields, r.value, r.rest)
  {
    KeyRoundTrip(tag, wire, y);
    LoopStep(fields, st, 8 * tag + wire, Tag(tag, wire) + y, y);
  }

  lemma {:induction false} ReceivedReady(fields: seq<Field>, slots: seq<Slot>, i: nat, st: Decoding, slot: Slot)
    requires Typed(fields, slots) && i < |fields| && Ready(fields, slots, i, st)
    requires SameSlot(fields[i], slots[i], slot)
    requires fields[i].rule.OneOf? ==> Selected(fields, slots, i)
    ensures Ready(fields, slots, i + 1, Received(fields, Marked(fields, st, i), i, slot))
  {
    var st' := Received(fields, Marked(fields, st, i), i, slot);
    forall j | 0 <= j < |fields| && j != i
      ensures j < i ==> SameSlot(fields[j], slots[j], st'.slots[j])
      ensures j > i ==> st'.slots[j] == DefaultSlot(fields[j])
    {
      if fields[i].rule.OneOf? && fields[j].rule == fields[i].rule {
        assert TypedSlot(fields[j], slots[j]);
        assert !Selected(fields, slots, j);
      }
    }
  }

  /** A single value of field i arrives. */
  lemma {:induction false} TaggedRoundTrip(fields: seq<Field>, slots: seq<Slot>, i: nat, v: Value, st: Decoding,
                                           x: seq<Byte>)
    returns (st': Decoding)
    requires Valid(fields) && Typed(fields, slots) && i < |fields| && Ready(fields, slots, i, st)
    requires Carries(fields[i], slots[i], v)
    requires EncodeTagged(fields[i], v).Done? && |EncodeTagged(fields[i], v).bytes| < TWO_63
    ensures |st'.slots| == |fields| && (DecodableValue(fields[i].kind, v) ==> Ready(fields, slots, i + 1, st'))
    ensures Leads(DecodableValue(fields[i].kind, v), fields, st, EncodeTagged(fields[i], v).bytes + x, st', x)
    decreases fields, 1
  {
    var f := fields[i];
    var wire, b := WireType(f.kind), EncodeValue(f.kind, v).bytes;
    assert EncodeTagged(f, v).bytes + x == Tag(f.tag, wire) + (b + x);
    st' := ValueYields(fields, slots, i, v, st, x);
    RecordLeads(fields, st, i, wire, b + x, DecodableValue(f.kind, v), st', x);
  }

  lemma {:induction false} ValueYields(fields: seq<Field>, slots: seq<Slot>, i: nat, v: Value, st: Decoding,
                                       x: seq<Byte>)
    returns (st': Decoding)
    requires Valid(fields) && Typed(fields, slots) && i < |fields| && Ready(fields, slots, i, st)
    requires Carries(fields[i], slots[i], v)
    requires EncodeValue(fields[i].kind, v).Done? && |EncodeValue(fields[i].kind, v).bytes| < TWO_63
    ensures |st'.slots| == |fields| && (DecodableValue(fields[i].kind, v) ==> Ready(fields, slots, i + 1, st'))
    ensures Yields(fields, st, i, WireType(fields[i].kind), EncodeValue(fields[i].kind, v).bytes + x,
                   DecodableValue(fields[i].kind, v), st', x)
    decreases fields, 0
  {
    var f := fields[i];
    var wire, b := WireType(f.kind), EncodeValue(f.kind, v).bytes;
    FieldValueRoundTrip(f, slots[i], v, x);
    st' := st;
    if DecodableValue(f.kind, v) {
      var slot := DecodeSlot(f, DefaultSlot(f), 0, wire, b + x).value.0;
      st' := Received(fields, Marked(fields, st, i), i, slot);
      ReceivedReady(fields, slots, i, st, slot);
    }
  }

  /** `v` is the single value that the slot of f holds and the encoder writes. */
  predicate Carries(f: Field, s: Slot, v: Value) {
    && TypedValue(f.kind, v)
    && match f.rule
       case Required => s == One(v)
       case Singular => s == One(v)
       case Optional => s == Opt(true, v)
       case OneOf(_) => s == Choice(Some(v))
       case _ => false
  }

  /** As seen from the slot: it was in its default state and ends up equal. */
  lemma {:induction false} FieldValueRoundTrip(f: Field, s: Slot, v: Value, x: seq<Byte>)
    requires ValidField(f) && Carries(f, s, v)
    requires EncodeValue(f.kind, v).Done? && |EncodeValue(f.kind, v).bytes| < TWO_63
    ensures DecodableValue(f.kind, v) ==> (
      var r := DecodeSlot(f, DefaultSlot(f), 0, WireType(f.kind), EncodeValue(f.kind, v).bytes + x);
      r.Ok? && r.rest == x && SameSlot(f, s, r.value.0))
    ensures !DecodableValue(f.kind, v) ==>
      DecodeSlot(f, DefaultSlot(f), 0, WireType(f.kind), EncodeValue(f.kind, v).bytes + x).Err?
    decreases f
  {
    var was := Stored(DefaultSlot(f));
    if f.kind.Sub? {
      assert DefaultValue(f) == Msg(Defaults(f.kind.fields));
      assert was == Undef || was == DefaultValue(f);
    }
    ValueRoundTrip(f.kind, v, false, was, x);
  }

  // ----- arrays -----

  predicate IsArray(f: Field, s: Slot) {
    (f.rule.Repeated? || f.rule.FixedCount?) && TypedSlot(f, s)
  }

  function Capacity(f: Field): (max: nat)
    requires f.rule.Repeated? || f.rule.FixedCount?
  {
    if f.rule.Repeated? then f.rule.max else f.rule.n
  }

  /** The state after `vs` have been stored behind k elements of the array at i. */
  function Extended(fields: seq<Field>, st: Decoding, i: nat, k: nat, vs: seq<Value>): (st': Decoding)
    requires i < |fields| == |st.slots|
    requires fields[i].rule.Repeated? || fields[i].rule.FixedCount?
    requires fields[i].rule.Repeated? ==> st.slots[i].Many?
    requires fields[i].rule.FixedCount? ==> st.slots[i].Fixed? && k + |vs| <= |st.slots[i].items|
  {
    if fields[i].rule.Repeated? then
      st.(slots := st.slots[i := Many(st.slots[i].items + vs)])
    else
      var was := st.slots[i].items;
      var slots := st.slots[i := Fixed(was[..k] + vs + was[k + |vs|..])];
      Decoding(slots, st.seen, Some(i), k + |vs|)
  }

  /** One record adds vs to an array with `filled` elements and leaves x, or fails. Unfolds only where
      DecodeElements is named. */
  predicate Gives(f: Field, filled: nat, max: nat, wire: nat, s: seq<Byte>, ok: bool, vs: seq<Value>, x: seq<Byte>) {
    forall m: nat :: m == max ==>
      var r := DecodeElements(f, filled, m, wire, s); if ok then r == Ok(vs, x) else r.Err?
  }

  lemma {:induction false} ArrayStep(fields: seq<Field>, slots: seq<Slot>, i: nat, k: nat, st: Decoding, wire: nat,
                                     s: seq<Byte>, ok: bool, vs: seq<Value>, x: seq<Byte>)
    requires i < |fields| == |slots| && IsArray(fields[i], slots[i])
    requires k + |vs| <= |slots[i].items| <= Capacity(fields[i])
    requires k < |slots[i].items| && Midway(fields, slots, i, k, st)
    requires vs != [] && Gives(fields[i], k, Capacity(fields[i]), wire, s, ok, vs, x)
    ensures Yields(fields, st, i, wire, s, ok, Extended(fields, st, i, k, vs), x)
  {
    assert Deselect(fields, st.slots, i) == st.slots;
    var r := DecodeElements(fields[i], k, Capacity(fields[i]), wire, s);
  }

  /** `vs` are copies of the elements of `items` from k on. */
  predicate SameAt(kind: Kind, items: seq<Value>, k: nat, vs: seq<Value>) {
    k + |vs| <= |items| && forall h :: 0 <= h < |vs| ==> Same(kind, items[k + h], vs[h])
  }

  lemma {:induction false} SpliceSame(kind: Kind, items: seq<Value>, was: seq<Value>, k: nat, vs: seq<Value>,
                                      tail: seq<Value>)
    requires k <= |items| && k <= |was| && SameUpTo(kind, items, was, k) && SameAt(kind, items, k, vs)
    ensures SameUpTo(kind, items, was[..k] + vs + tail, k + |vs|)
  {
    var now := was[..k] + vs + tail;
    forall h | 0 <= h < k + |vs|
      ensures Same(kind, items[h], now[h])
    {
      if h >= k {
        assert Same(kind, items[k + (h - k)], vs[h - k]);
      }
    }
  }

  lemma {:induction false} ExtendedMidway(fields: seq<Field>, slots: seq<Slot>, i: nat, k: nat, st: Decoding,
                                          vs: seq<Value>)
    requires i < |fields| == |slots| && IsArray(fields[i], slots[i]) && k <= |slots[i].items|
    requires vs != [] && SameAt(fields[i].kind, slots[i].items, k, vs) && Midway(fields, slots, i, k, st)
    ensures Midway(fields, slots, i, k + |vs|, Extended(fields, st, i, k, vs))
  {
    if fields[i].rule.Repeated? {
      ExtendedRepeated(fields, slots, i, k, st, vs);
    } else {
      SpliceSame(fields[i].kind, slots[i].items, st.slots[i].items, k, vs, st.slots[i].items[k + |vs|..]);
    }
  }

  lemma {:induction false} ExtendedRepeated(fields: seq<Field>, slots: seq<Slot>, i: nat, k: nat, st: Decoding,
                                            vs: seq<Value>)
    requires i < |fields| == |slots| && IsArray(fields[i], slots[i]) && fields[i].rule.Repeated?
    requires k <= |slots[i].items| && SameAt(fields[i].kind, slots[i].items, k, vs) && Midway(fields, slots, i, k, st)
    ensures Midway(fields, slots, i, k + |vs|, Extended(fields, st, i, k, vs))
  {
    MidwayParts(fields, slots, i, k, st);
    var st' := Extended(fields, st, i, k, vs);
    AppendSame(fields[i].kind, slots[i].items, st.slots[i].items, vs);
    OthersArrived(fields, slots, i, st, st');
    MidwayRepeated(fields, slots, i, k + |vs|, st');
  }

  lemma {:induction false} AppendSame(kind: Kind, items: seq<Value>, was: seq<Value>, vs: seq<Value>)
    requires |was| <= |items| && SameUpTo(kind, items, was, |was|) && SameAt(kind, items, |was|, vs)
    ensures SameUpTo(kind, items, was + vs, |was| + |vs|)
  {
    SpliceSame(kind, items, was, |was|, vs, []);
    assert was[..|was|] + vs + [] == was + vs;
  }

  lemma {:induction false} MidwayParts(fields: seq<Field>, slots: seq<Slot>, i: nat, k: nat, st: Decoding)
    requires i < |fields| == |slots| && IsArray(fields[i], slots[i]) && fields[i].rule.Repeated?
    requires k <= |slots[i].items| && Midway(fields, slots, i, k, st)
    ensures Arrived(fields, slots, i, i + 1, st) && FixedDone(fields, i, st)
    ensures st.slots[i].Many? && |st.slots[i].items| == k
    ensures SameUpTo(fields[i].kind, slots[i].items, st.slots[i].items, k)
  {
  }

  lemma {:induction false} MidwayRepeated(fields: seq<Field>, slots: seq<Slot>, i: nat, k: nat, st: Decoding)
    requires i < |fields| == |slots| && IsArray(fields[i], slots[i]) && fields[i].rule.Repeated?
    requires k <= |slots[i].items| && Arrived(fields, slots, i, i + 1, st) && FixedDone(fields, i, st)
    requires i < |st.slots| && st.slots[i].Many? && |st.slots[i].items| == k
    requires SameUpTo(fields[i].kind, slots[i].items, st.slots[i].items, k)
    ensures Midway(fields, slots, i, k, st)
  {
  }

  /** What has arrived before an array is not affected by its elements. */
  lemma {:induction false} OthersArrived(fields: seq<Field>, slots: seq<Slot>, i: nat, st: Decoding, st': Decoding)
    requires i < |fields| == |slots| && Arrived(fields, slots, i, i + 1, st)
    requires st'.seen == st.seen && |st'.slots| == |st.slots|
    requires forall j :: 0 <= j < |fields| && j != i ==> st'.slots[j] == st.slots[j]
    ensures Arrived(fields, slots, i, i + 1, st')
  {
  }

  lemma {:induction false} PackedElements(f: Field, items: seq<Value>, max: nat, x: seq<Byte>)
    requires Packable(f.kind) && |items| <= max
    requires forall k :: 0 <= k < |items| ==> TypedValue(f.kind, items[k])
    ensures EncodeItems([], f.kind, items).Done?
    ensures var inner := EncodeItems([], f.kind, items).bytes;
      |inner| < TWO_63 ==> Gives(f, 0, max, 2, Delimited(inner) + x, |inner| < TWO_32, items, x)
  {
    PackedRoundTrip(f.kind, items, max);
    assert DecodePacked(f.kind, max, EncodeItems([], f.kind, items).bytes) == Success(items);
    var inner := EncodeItems([], f.kind, items).bytes;
    if |inner| < TWO_63 {
      DelimitedRoundTrip(inner, x);
    }
  }

  /** A packed array arrives in one record. */
  lemma {:induction false} PackedFieldRoundTrip(fields: seq<Field>, slots: seq<Slot>, i: nat, st: Decoding,
                                                x: seq<Byte>)
    returns (st': Decoding)
    requires Valid(fields) && i < |fields| == |slots| && IsArray(fields[i], slots[i]) && Packable(fields[i].kind)
    requires 0 < |slots[i].items| <= Capacity(fields[i]) && Midway(fields, slots, i, 0, st)
    requires var r := EncodeArray(fields[i], slots[i].items, Capacity(fields[i])); r.Done? && |r.bytes| < TWO_63
    ensures |st'.slots| == |fields|
    ensures DecodableItems(fields[i].kind, slots[i].items) ==> Midway(fields, slots, i, |slots[i].items|, st')
    ensures Leads(DecodableItems(fields[i].kind, slots[i].items), fields, st,
                  EncodeArray(fields[i], slots[i].items, Capacity(fields[i])).bytes + x, st', x)
  {
    var f, items, max := fields[i], slots[i].items, Capacity(fields[i]);
    var y := PackedRecord(fields, slots, i, st, x);
    st' := Extended(fields, st, i, 0, items);
    if DecodableItems(f.kind, items) {
      assert SameAt(f.kind, items, 0, items);
      ExtendedMidway(fields, slots, i, 0, st, items);
    }
    RecordLeads(fields, st, i, 2, y, DecodableItems(f.kind, items), st', x);
  }

  lemma {:induction false} PackedRecord(fields: seq<Field>, slots: seq<Slot>, i: nat, st: Decoding, x: seq<Byte>)
    returns (y: seq<Byte>)
    requires Valid(fields) && i < |fields| == |slots| && IsArray(fields[i], slots[i]) && Packable(fields[i].kind)
    requires 0 < |slots[i].items| <= Capacity(fields[i]) && Midway(fields, slots, i, 0, st)
    requires var r := EncodeArray(fields[i], slots[i].items, Capacity(fields[i])); r.Done? && |r.bytes| < TWO_63
    ensures EncodeArray(fields[i], slots[i].items, Capacity(fields[i])).bytes + x == Tag(fields[i].tag, 2) + y
    ensures Yields(fields, st, i, 2, y, DecodableItems(fields[i].kind, slots[i].items),
                   Extended(fields, st, i, 0, slots[i].items), x)
  {
    var f, items, max := fields[i], slots[i].items, Capacity(fields[i]);
    PackedElements(f, items, max, x);
    y := Delimited(EncodeItems([], f.kind, items).bytes) + x;
    assert EncodeArray(f, items, max).bytes + x == Tag(f.tag, 2) + y;
    ArrayStep(fields, slots, i, 0, st, 2, y, DecodableItems(f.kind, items), items, x);
  }

  /** An element that is not packed arrives in a record of its own. */
  lemma {:induction false} ElementRoundTrip(f: Field, v: Value, k: nat, max: nat, x: seq<Byte>)
    returns (w: Value)
    requires ValidField(f) && !Packable(f.kind) && TypedValue(f.kind, v) && k < max
    requires EncodeValue(f.kind, v).Done? && |EncodeValue(f.kind, v).bytes| < TWO_63
    ensures Gives(f, k, max, WireType(f.kind), EncodeValue(f.kind, v).bytes + x, DecodableValue(f.kind, v), [w], x)
    ensures DecodableValue(f.kind, v) ==> Same(f.kind, v, w)
    decreases f
  {
    ValueRoundTrip(f.kind, v, true, Undef, x);
    var r := DecodeValue(f.kind, true, Undef, EncodeValue(f.kind, v).bytes + x);
    w := if r.Ok? then r.value else Undef;
  }

  /** What is still to be sent of the array at i. */
  function Remaining(f: Field, slot: Slot, k: nat): (r: Encoded)
    requires IsArray(f, slot) && k <= |slot.items|
  {
    EncodeItems(Tag(f.tag, WireType(f.kind)), f.kind, slot.items[k..])
  }

  lemma {:induction false} RemainingSplit(f: Field, slot: Slot, k: nat, x: seq<Byte>)
    requires IsArray(f, slot) && k < |slot.items| && Remaining(f, slot, k).Done?
    ensures EncodeValue(f.kind, slot.items[k]).Done? && Remaining(f, slot, k + 1).Done?
    ensures Remaining(f, slot, k).bytes + x ==
      Tag(f.tag, WireType(f.kind)) + (EncodeValue(f.kind, slot.items[k]).bytes + (Remaining(f, slot, k + 1).bytes + x))
    ensures |Remaining(f, slot, k + 1).bytes| <= |Remaining(f, slot, k).bytes|
    ensures |EncodeValue(f.kind, slot.items[k]).bytes| <= |Remaining(f, slot, k).bytes|
  {
    var prefix := Tag(f.tag, WireType(f.kind));
    assert slot.items[k..][1..] == slot.items[k + 1..];
    ItemsSplit(prefix, f.kind, slot.items[k..]);
    var b, c := EncodeValue(f.kind, slot.items[k]).bytes, Remaining(f, slot, k + 1).bytes;
    assert prefix + (b + c) + x == prefix + (b + (c + x));
  }

  lemma {:induction false} ItemRoundTrip(fields: seq<Field>, slots: seq<Slot>, i: nat, k: nat, st: Decoding,
                                         x: seq<Byte>)
    returns (st': Decoding)
    requires Valid(fields) && i < |fields| == |slots| && IsArray(fields[i], slots[i]) && !Packable(fields[i].kind)
    requires k < |slots[i].items| <= Capacity(fields[i]) && Midway(fields, slots, i, k, st)
    requires EncodeValue(fields[i].kind, slots[i].items[k]).Done?
    requires |EncodeValue(fields[i].kind, slots[i].items[k]).bytes| < TWO_63
    ensures |st'.slots| == |fields|
    ensures DecodableValue(fields[i].kind, slots[i].items[k]) ==> Midway(fields, slots, i, k + 1, st')
    ensures Leads(DecodableValue(fields[i].kind, slots[i].items[k]), fields, st,
                  Tag(fields[i].tag, WireType(fields[i].kind)) +
                    (EncodeValue(fields[i].kind, slots[i].items[k]).bytes + x), st', x)
    decreases fields, 0
  {
    var f, v := fields[i], slots[i].items[k];
    var wire, b := WireType(f.kind), EncodeValue(f.kind, v).bytes;
    var w := ElementRoundTrip(f, v, k, Capacity(f), x);
    ArrayStep(fields, slots, i, k, st, wire, b + x, DecodableValue(f.kind, v), [w], x);
    st' := Extended(fields, st, i, k, [w]);
    if DecodableValue(f.kind, v) {
      OneMore(fields, slots, i, k, st, w);
    }
    RecordLeads(fields, st, i, wire, b + x, DecodableValue(f.kind, v), st', x);
  }

  lemma {:induction false} OneMore(fields: seq<Field>, slots: seq<Slot>, i: nat, k: nat, st: Decoding, w: Value)
    requires i < |fields| == |slots| && IsArray(fields[i], slots[i])
    requires k < |slots[i].items| && Midway(fields, slots, i, k, st)
    requires Same(fields[i].kind, slots[i].items[k], w)
    ensures Midway(fields, slots, i, k + 1, Extended(fields, st, i, k, [w]))
  {
    ExtendedMidway(fields, slots, i, k, st, [w]);
  }

  /** Midway, unfolded only where it is named. */
  predicate MidwayAt(fields: seq<Field>, slots: seq<Slot>, i: nat, k: nat, st: Decoding)
    requires i < |fields| == |slots| && IsArray(fields[i], slots[i])
  {
    |st.slots| == |fields| && forall j: nat :: j == k && j <= |slots[i].items| ==> Midway(fields, slots, i, j, st)
  }

  /** The element at k, with the remaining ones behind it. */
  lemma {:induction false} FirstItem(fields: seq<Field>, slots: seq<Slot>, i: nat, k: nat, st: Decoding, x: seq<Byte>)
    returns (mid: Decoding, y: seq<Byte>)
    requires Valid(fields) && i < |fields| == |slots| && IsArray(fields[i], slots[i]) && !Packable(fields[i].kind)
    requires k < |slots[i].items| <= Capacity(fields[i]) && MidwayAt(fields, slots, i, k, st)
    requires Remaining(fields[i], slots[i], k).Done? && |Remaining(fields[i], slots[i], k).bytes| < TWO_63
    ensures Remaining(fields[i], slots[i], k + 1).Done? && y == Remaining(fields[i], slots[i], k + 1).bytes + x
    ensures |Remaining(fields[i], slots[i], k + 1).bytes| < TWO_63 && |mid.slots| == |fields|
    ensures DecodableItems(fields[i].kind, slots[i].items[k..]) <==>
      DecodableValue(fields[i].kind, slots[i].items[k]) && DecodableItems(fields[i].kind, slots[i].items[k + 1..])
    ensures DecodableValue(fields[i].kind, slots[i].items[k]) ==> MidwayAt(fields, slots, i, k + 1, mid)
    ensures Leads(DecodableValue(fields[i].kind, slots[i].items[k]), fields, st,
      Remaining(fields[i], slots[i], k).bytes + x, mid, y)
    decreases fields, 1, 0
  {
    var f, items := fields[i], slots[i].items;
    assert Midway(fields, slots, i, k, st);
    RemainingSplit(f, slots[i], k, x);
    DecodableSplit(f.kind, items[k..]);
    assert items[k..][1..] == items[k + 1..];
    y := Remaining(f, slots[i], k + 1).bytes + x;
    mid := ItemRoundTrip(fields, slots, i, k, st, y);
  }

  lemma {:induction false} ItemsRoundTrip(fields: seq<Field>, slots: seq<Slot>, i: nat, k: nat, st: Decoding,
                                          x: seq<Byte>)
    returns (st': Decoding)
    requires Valid(fields) && i < |fields| == |slots| && IsArray(fields[i], slots[i]) && !Packable(fields[i].kind)
    requires k <= |slots[i].items| <= Capacity(fields[i]) && MidwayAt(fields, slots, i, k, st)
    requires Remaining(fields[i], slots[i], k).Done? && |Remaining(fields[i], slots[i], k).bytes| < TWO_63
    ensures |st'.slots| == |fields|
    ensures DecodableItems(fields[i].kind, slots[i].items[k..]) ==> MidwayAt(fields, slots, i, |slots[i].items|, st')
    ensures Leads(DecodableItems(fields[i].kind, slots[i].items[k..]), fields, st,
      Remaining(fields[i], slots[i], k).bytes + x, st', x)
    decreases fields, 1, 1 + |slots[i].items| - k
  {
    var f, items := fields[i], slots[i].items;
    st' := st;
    if k == |items| {
      NoItems(fields, slots, i, st, x);
    } else {
      var s := Remaining(f, slots[i], k).bytes + x;
      var mid, y := FirstItem(fields, slots, i, k, st, x);
      if DecodableValue(f.kind, items[k]) {
        st' := ItemsRoundTrip(fields, slots, i, k + 1, mid, x);
        LeadsOn(DecodableItems(f.kind, items[k + 1..]), fields, st, s, mid, y, st', x);
      } else {
        LeadsFails(fields, st, s, mid, y, st', x);
      }
    }
  }

  /** Behind the last element there is nothing left to read. */
  lemma {:induction false} NoItems(fields: seq<Field>, slots: seq<Slot>, i: nat, st: Decoding, x: seq<Byte>)
    requires i < |fields| == |slots| == |st.slots| && IsArray(fields[i], slots[i]) && !Packable(fields[i].kind)
    requires Remaining(fields[i], slots[i], |slots[i].items|).Done?
    ensures var n := |slots[i].items|;
      Leads(DecodableItems(fields[i].kind, slots[i].items[n..]), fields, st,
        Remaining(fields[i], slots[i], n).bytes + x, st, x)
  {
    var items := slots[i].items;
    assert items[|items|..] == [] && Remaining(fields[i], slots[i], |items|) == Done([]);
    LeadsNowhere(fields, st, x);
  }

  lemma {:induction false} DecodableSplit(kind: Kind, items: seq<Value>)
    requires !Packable(kind) && items != []
    requires forall k :: 0 <= k < |items| ==> TypedValue(kind, items[k])
    ensures DecodableItems(kind, items) <==> DecodableValue(kind, items[0]) && DecodableItems(kind, items[1..])
  {
    assert forall k :: 0 < k < |items| ==> items[k] == items[1..][k - 1];
  }

  lemma {:induction false} MidwayDone(fields: seq<Field>, slots: seq<Slot>, i: nat, st: Decoding)
    requires i < |fields| == |slots| && IsArray(fields[i], slots[i])
    requires Midway(fields, slots, i, |slots[i].items|, st)
    ensures Ready(fields, slots, i + 1, st)
  {
  }

  lemma {:induction false} ArrayRoundTrip(fields: seq<Field>, slots: seq<Slot>, i: nat, st: Decoding, x: seq<Byte>)
    returns (st': Decoding)
    requires Valid(fields) && i < |fields| == |slots| && IsArray(fields[i], slots[i]) && Ready(fields, slots, i, st)
    requires EncodeField(fields[i], slots[i]).Done? && |EncodeField(fields[i], slots[i]).bytes| < TWO_63
    ensures |st'.slots| == |fields|
    ensures DecodableItems(fields[i].kind, slots[i].items) ==> Ready(fields, slots, i + 1, st')
    ensures Leads(DecodableItems(fields[i].kind, slots[i].items), fields, st,
      EncodeField(fields[i], slots[i]).bytes + x, st', x)
    decreases fields, 2
  {
    var f, items := fields[i], slots[i].items;
    assert Midway(fields, slots, i, 0, st);
    st' := st;
    if items == [] {
      LeadsNowhere(fields, st, x);
    } else if Packable(f.kind) {
      st' := PackedFieldRoundTrip(fields, slots, i, st, x);
    } else {
      assert items[0..] == items;
      st' := ItemsRoundTrip(fields, slots, i, 0, st, x);
      assert DecodableItems(f.kind, items) ==> Midway(fields, slots, i, |items|, st');
    }
    if DecodableItems(f.kind, items) {
      MidwayDone(fields, slots, i, st');
    }
  }

  // ----- fields and messages -----

  predicate Absent(f: Field, s: Slot)
    requires TypedSlot(f, s)
  {
    match f.rule
    case Optional => !s.has
    case OneOf(_) => s.sel.None?
    case Singular => IsZero(f.kind, s.v)
    case _ => false
  }

  /** Nothing is written for field i: the default stands for it. */
  lemma {:induction false} AbsentReady(fields: seq<Field>, slots: seq<Slot>, i: nat, st: Decoding)
    requires Valid(fields) && Typed(fields, slots) && i < |fields| && Ready(fields, slots, i, st)
    requires TypedSlot(fields[i], slots[i]) && Absent(fields[i], slots[i])
    ensures Ready(fields, slots, i + 1, st)
  {
    var f := fields[i];
    assert TypedSlot(f, slots[i]) && ValidField(f);
    if f.rule.Singular? {
      ZeroIsDefault(f, slots[i].v);
    }
    assert SameSlot(f, slots[i], DefaultSlot(f));
  }

  lemma {:induction false} FieldRoundTrip(fields: seq<Field>, slots: seq<Slot>, i: nat, st: Decoding, x: seq<Byte>)
    returns (st': Decoding)
    requires Valid(fields) && Typed(fields, slots) && i < |fields| && Ready(fields, slots, i, st)
    requires EncodeField(fields[i], slots[i]).Done? && |EncodeField(fields[i], slots[i]).bytes| < TWO_63
    ensures |st'.slots| == |fields| && (DecodableSlot(fields[i], slots[i]) ==> Ready(fields, slots, i + 1, st'))
    ensures Leads(DecodableSlot(fields[i], slots[i]), fields, st, EncodeField(fields[i], slots[i]).bytes + x, st', x)
    decreases fields, 3
  {
    var f, slot := fields[i], slots[i];
    assert TypedSlot(f, slot);
    st' := st;
    if f.rule.Repeated? || f.rule.FixedCount? {
      st' := ArrayRoundTrip(fields, slots, i, st, x);
    } else {
      if Absent(f, slot) {
        LeadsNowhere(fields, st, x);
        AbsentReady(fields, slots, i, st);
      } else {
        st' := TaggedRoundTrip(fields, slots, i, Stored(slot), st, x);
      }
    }
  }

  predicate DecodableFrom(fields: seq<Field>, slots: seq<Slot>, i: nat)
    requires Typed(fields, slots)
  {
    forall j :: i <= j < |fields| ==> DecodableSlot(fields[j], slots[j])
  }

  lemma {:induction false} FromSplit(fields: seq<Field>, slots: seq<Slot>, i: nat)
    requires Typed(fields, slots) && i < |fields| && EncodeFrom(fields, slots, i).Done?
    ensures TypedSlot(fields[i], slots[i])
    ensures EncodeField(fields[i], slots[i]).Done? && EncodeFrom(fields, slots, i + 1).Done?
    ensures EncodeFrom(fields, slots, i).bytes ==
      EncodeField(fields[i], slots[i]).bytes + EncodeFrom(fields, slots, i + 1).bytes
    ensures DecodableFrom(fields, slots, i) <==>
      DecodableSlot(fields[i], slots[i]) && DecodableFrom(fields, slots, i + 1)
  {
  }

  lemma {:induction false} LoopRoundTrip(fields: seq<Field>, slots: seq<Slot>, i: nat, st: Decoding)
    returns (st': Decoding)
    requires Valid(fields) && Typed(fields, slots) && i <= |fields| && Ready(fields, slots, i, st)
    requires EncodeFrom(fields, slots, i).Done? && |EncodeFrom(fields, slots, i).bytes| < TWO_63
    ensures var s := EncodeFrom(fields, slots, i).bytes;
      if DecodableFrom(fields, slots, i)
      then Ready(fields, slots, |fields|, st') && DecodeLoop(fields, st, s) == Success(st')
      else DecodeLoop(fields, st, s).Failure?
    decreases fields, 4 + |fields| - i
  {
    st' := st;
    if i == |fields| {
      assert EncodeFrom(fields, slots, i).bytes == [];
    } else {
      FromSplit(fields, slots, i);
      st' := FieldRoundTrip(fields, slots, i, st, EncodeFrom(fields, slots, i + 1).bytes);
      var r := DecodeLoop(fields, st, EncodeFrom(fields, slots, i).bytes);
      if DecodableSlot(fields[i], slots[i]) {
        st' := LoopRoundTrip(fields, slots, i + 1, st');
      }
    }
  }

  /** Every required field has an index, and every index below their number belongs to one. */
  lemma {:induction false} RequiredAt(fields: seq<Field>, r: nat, m: nat) returns (j: nat)
    requires m <= |fields| && r < RequiredBefore(fields, m)
    ensures j < m && fields[j].rule.Required? && RequiredBefore(fields, j) == r
    decreases m
  {
    if r == RequiredBefore(fields, m - 1) {
      j := m - 1;
    } else {
      j := RequiredAt(fields, r, m - 1);
    }
  }

  lemma {:induction false} ReadyFinishes(fields: seq<Field>, slots: seq<Slot>, st: Decoding)
    requires |fields| == |slots| && Ready(fields, slots, |fields|, st)
    ensures FixedComplete(fields, st) && RequiredSeen(fields, st.seen) && SameMessage(fields, slots, st.slots)
  {
    forall r | 0 <= r < RequiredBefore(fields, |fields|) && r < MAX_REQUIRED_FIELDS
      ensures r in st.seen
    {
      var j := RequiredAt(fields, r, |fields|);
    }
  }

  /** pb_decode accepts what pb_encode wrote for a message exactly when the message is decodable,
      and then the struct it fills equals the one that was written. */
  lemma {:induction false} MessageRoundTrip(fields: seq<Field>, slots: seq<Slot>)
    requires Valid(fields) && Typed(fields, slots)
    requires EncodeMessage(fields, slots).Done? && |EncodeMessage(fields, slots).bytes| < TWO_63
    ensures DecodeFresh(fields, EncodeMessage(fields, slots).bytes).Success? <==> Decodable(fields, slots)
    ensures Decodable(fields, slots) ==>
      SameMessage(fields, slots, DecodeFresh(fields, EncodeMessage(fields, slots).bytes).value)
    decreases fields, 5 + |fields|
  {
    var st := Start(Defaults(fields));
    assert Ready(fields, slots, 0, st);
    var st' := LoopRoundTrip(fields, slots, 0, st);
    if Decodable(fields, slots) {
      ReadyFinishes(fields, slots, st');
    }
  }

  // ----- messages that do not survive -----

  /** A string that fills its buffer is written in full but does not fit with its terminator. */
  lemma {:induction false} UnterminatedStringLost(c: Byte)
    requires c != 0
    ensures var fields, slots := [Field(1, Required, Str(1), Blob([0]))], [One(Blob([c]))];
      && Valid(fields) && Typed(fields, slots) && EncodeMessage(fields, slots).Done?
      && DecodeFresh(fields, EncodeMessage(fields, slots).bytes).Failure?
  {
    var f, v := Field(1, Required, Str(1), Blob([0])), Blob([c]);
    var fields, slots := [f], [One(v)];
    assert ValidField(f) && TypedSlot(f, One(v));
    assert CStr([c], 1) == [c] by { assert [c][1..] == [] && [c] + [] == [c]; }
    OneField(f, One(v));
    ShortVarints();
    assert !DecodableSlot(f, slots[0]);
    MessageRoundTrip(fields, slots);
  }

  lemma {:induction false} ShortVarints()
    ensures Encode(10) == [10] && Encode(1) == [1]
  {
  }

  lemma {:induction false} OneField(f: Field, s: Slot)
    requires TypedSlot(f, s)
    ensures Typed([f], [s]) && EncodeMessage([f], [s]) == EncodeField(f, s)
  {
    var r := EncodeField(f, s);
    assert EncodeFrom([f], [s], 1) == Done([]);
    assert r.Done? ==> r.bytes + [] == r.bytes;
  }

  /** Any packed array of 2^30 to 2^32 - 1 fixed 32-bit numbers is written with a length that the reader refuses. */
  lemma {:induction false} HugeArrayLost(items: seq<Value>, max: nat)
    requires 0x4000_0000 <= |items| <= max < TWO_32
    requires forall k :: 0 <= k < |items| ==> TypedValue(Fixed32, items[k])
    ensures var fields, slots := [Field(1, Repeated(max), Fixed32, Num(0))], [Many(items)];
      && Valid(fields) && Typed(fields, slots) && EncodeMessage(fields, slots).Done?
      && DecodeFresh(fields, EncodeMessage(fields, slots).bytes).Failure?
  {
    var f, s := Field(1, Repeated(max), Fixed32, Num(0)), Many(items);
    assert ValidField(f) && TypedSlot(f, s);
    FixedItems(Fixed32, items);
    OneField(f, s);
    var fields, slots := [f], [s];
    assert !DecodableSlot(f, slots[0]);
    ShortVarints();
    Units();
    EncodeAtMost(4 * |items|, 9);
    MessageRoundTrip(fields, slots);
  }
}
