/** Input that the encoder never writes: numbers out of range, texts that do not fit, and two records for one field. */
module RecordLaws {
  import opened Common
  import opened Varint
  import opened Schema
  import opened EncodeSpec
  import opened DecodeSpec
  import opened WireFormat
  import opened RoundTrip
  import UnknownFields

  // ----- single values -----

  /** Two's complement of `bits` low bits, given as their number of values. */
  function TwosComplement(u: nat, values: nat): (n: int)
    requires values > 0
  {
    var w := u % values;
    if w >= values / 2 then w - values else w
  }

  lemma {:induction false} SizeValues(size: nat)
    requires ValidSize(size)
    ensures Power256(size) == 2 * Half(size)
  {
    Powers();
    assert Power256(1) == 256 && Power256(2) == 0x1_0000 by { assert Power256(1) == 256 * Power256(0); }
  }

  /** An integer is read from its 64 bits: unsigned as they are, zigzag from the unsigned number, signed from the low
      64 or, for a smaller field, the low 32 of them; and refused if its bytes cannot hold it. */
  lemma {:induction false} IntegersExact(size: nat, s: seq<Byte>, u: nat, rest: seq<Byte>)
    requires ValidSize(size) && u < TWO_64 && Decode64(s) == Ok(u, rest)
    ensures var top := Power256(size);
      && ReadInteger(UInt(size), s) == Fitting(u, 0, top, rest)
      && ReadInteger(SInt(size), s) ==
           Fitting(if u % 2 == 0 then u / 2 else -(u / 2) - 1, -(top / 2), top / 2, rest)
      && ReadInteger(Int(size), s) ==
           Fitting(TwosComplement(u, if size == 8 then TWO_64 else TWO_32), -(top / 2), top / 2, rest)
  {
    SizeValues(size);
    var half, top := Half(size), Power256(size);
    assert top == 2 * half && top / 2 == half;
    ZigZagRead(size, s, u, rest);
    SignedRead(size, s, u, rest);
  }

  lemma {:induction false} ZigZagRead(size: nat, s: seq<Byte>, u: nat, rest: seq<Byte>)
    requires ValidSize(size) && u < TWO_64 && Decode64(s) == Ok(u, rest)
    ensures ReadInteger(SInt(size), s) ==
      Fitting(if u % 2 == 0 then u / 2 else -(u / 2) - 1, -Half(size), Half(size), rest)
  {
    UnZigZagValue(u);
    assert u % TWO_64 == u;
  }

  lemma {:induction false} SignedRead(size: nat, s: seq<Byte>, u: nat, rest: seq<Byte>)
    requires ValidSize(size) && u < TWO_64 && Decode64(s) == Ok(u, rest)
    ensures ReadInteger(Int(size), s) ==
      Fitting(TwosComplement(u, if size == 8 then TWO_64 else TWO_32), -Half(size), Half(size), rest)
  {
    assert u % TWO_64 == u;
  }

  function Fitting(n: int, lo: int, hi: int, rest: seq<Byte>): (r: Parsed<Value>) {
    if lo <= n < hi then Ok(Num(n), rest) else Err(IntegerTooLarge)
  }

  /** Bytes and strings against their capacity, a string with its terminator; fixed-length bytes have their length or
      none, which stands for zeros. */
  lemma {:induction false} BlobsExact(b: seq<Byte>, size: nat, x: seq<Byte>)
    requires |b| < TWO_32
    ensures var s := Delimited(b) + x;
      && ReadBlob(Bytes(size), s) == (if |b| <= size then Ok(Blob(b), x) else Err(BytesOverflow))
      && (size < TWO_32 ==>
            if |b| < size then ReadBlob(Str(size), s) == Ok(Blob(b + [0]), x) else ReadBlob(Str(size), s).Err?)
      && ReadBlob(FixedBytes(size), s) ==
           (if |b| == size then Ok(Blob(b), x)
            else if b == [] then Ok(Blob(seq(size, _ => 0)), x)
            else Err(WrongFixedLength))
  {
    var s, t := Delimited(b) + x, b + x;
    assert Decode32(s) == Ok(|b|, t) && Read(t, |b|) == Ok(b, x) by { DelimitedRoundTrip(b, x); }
    BlobRead(s, b, t, x, size);
    if b == [] { assert t == x; }
  }

  lemma {:induction false} BlobRead(s: seq<Byte>, b: seq<Byte>, t: seq<Byte>, x: seq<Byte>, size: nat)
    requires |b| < TWO_32 && Decode32(s) == Ok(|b|, t) && Read(t, |b|) == Ok(b, x) && (b == [] ==> t == x)
    ensures ReadBlob(Bytes(size), s) == (if |b| <= size then Ok(Blob(b), x) else Err(BytesOverflow))
    ensures size < TWO_32 ==>
      if |b| < size then ReadBlob(Str(size), s) == Ok(Blob(b + [0]), x) else ReadBlob(Str(size), s).Err?
    ensures ReadBlob(FixedBytes(size), s) ==
      (if |b| == size then Ok(Blob(b), x)
       else if b == [] then Ok(Blob(seq(size, _ => 0)), x)
       else Err(WrongFixedLength))
  {
    if b == [] && size == 0 { assert b == seq(size, _ => 0); }
  }

  /** A bool is any number but zero, read as a 32-bit varint. */
  lemma {:induction false} BoolExact(s: seq<Byte>, n: nat, rest: seq<Byte>, inArray: bool, was: Value)
    requires Decode32(s) == Ok(n, rest)
    ensures DecodeValue(Bool, inArray, was, s) == Ok(Num(if n == 0 then 0 else 1), rest)
  {
  }

  lemma {:induction false} LittleEndianNumber(b: seq<Byte>)
    ensures FromLittleEndian(b) == Number(b, 256)
  {
    if b != [] { LittleEndianNumber(b[1..]); }
  }

  /** A fixed number is four or eight bytes, least significant first. */
  lemma {:induction false} FixedExact(b: seq<Byte>, x: seq<Byte>, inArray: bool, was: Value)
    ensures |b| == 4 ==> DecodeValue(Fixed32, inArray, was, b + x) == Ok(Num(Number(b, 256)), x)
    ensures |b| == 8 ==> DecodeValue(Fixed64, inArray, was, b + x) == Ok(Num(Number(b, 256)), x)
    ensures |b| < 4 ==> DecodeValue(Fixed32, inArray, was, b).Err?
    ensures |b| < 8 ==> DecodeValue(Fixed64, inArray, was, b).Err?
  {
    LittleEndianNumber(b);
    assert (b + x)[..|b|] == b && (b + x)[|b|..] == x;
  }

  // ----- one record -----

  /** A record of field i is decoded into the state. */
  lemma {:induction false} FieldRecord(fields: seq<Field>, st: Decoding, i: nat, wire: nat, y: seq<Byte>)
    requires Valid(fields) && i < |fields| == |st.slots| && wire < 8
    ensures var r := DecodeField(fields, st, i, wire, y);
      DecodeLoop(fields, st, Tag(fields[i].tag, wire) + y) ==
        if r.Err? then Failure(r.error) else DecodeLoop(fields, r.value, r.rest)
  {
    assert ValidField(fields[i]);
    KeyStep(fields, st, fields[i].tag, wire, y);
    FindUnique(fields, i);
  }

  /** A zero key ends the message, whatever follows. */
  lemma {:induction false} ZeroKeyEnds(fields: seq<Field>, st: Decoding, x: seq<Byte>)
    requires |st.slots| == |fields|
    ensures DecodeLoop(fields, st, [0] + x) == Success(st)
  {
    assert ([0] + x)[1..] == x;
  }

  /** Two inputs that lead to the same state and rest are decoded alike. */
  lemma {:induction false} LeadAlike(fields: seq<Field>, st: Decoding, s: seq<Byte>, t: seq<Byte>, st': Decoding,
                                     x: seq<Byte>)
    requires |st.slots| == |fields| == |st'.slots|
    requires Leads(true, fields, st, s, st', x) && Leads(true, fields, st, t, st', x)
    ensures DecodeLoop(fields, st, s) == DecodeLoop(fields, st, t)
  {
  }

  /** No input at all: nothing is present, and what was not sent has its declared default. */
  lemma {:induction false} EmptyInput(fields: seq<Field>)
    requires Lenient(fields)
    ensures DecodeFresh(fields, []) == Success(Defaults(fields))
    ensures forall i :: 0 <= i < |fields| ==> Untouched(fields[i], Defaults(fields)[i])
  {
    NothingRequired(fields, |fields|);
    var st := Start(Defaults(fields));
    assert DecodeLoop(fields, st, []) == Success(st);
    assert FixedComplete(fields, st) && RequiredSeen(fields, st.seen);
    forall i | 0 <= i < |fields| ensures Untouched(fields[i], Defaults(fields)[i]) {
      assert !fields[i].rule.FixedCount? && !fields[i].rule.Required?;
      assert Defaults(fields)[i] == DefaultSlot(fields[i]);
      DefaultUntouched(fields[i]);
    }
  }

  lemma {:induction false} DefaultUntouched(f: Field)
    requires !f.rule.FixedCount?
    ensures Untouched(f, DefaultSlot(f))
  {
    assert DefaultValue(f) == if f.kind.Sub? then Msg(Defaults(f.kind.fields)) else f.dflt;
  }

  predicate Untouched(f: Field, s: Slot) {
    var d := if f.kind.Sub? then Msg(Defaults(f.kind.fields)) else f.dflt;
    s == if f.rule.Repeated? then Many([])
      else if f.rule.OneOf? then Choice(None)
      else if f.rule.Optional? then Opt(false, d)
      else One(d)
  }

  // ----- several records of one array -----

  lemma {:induction false} PackedTooLong(kind: Kind, items: seq<Value>, room: nat)
    requires Packable(kind) && |items| > room
    requires forall k :: 0 <= k < |items| ==> TypedValue(kind, items[k])
    ensures EncodeItems([], kind, items).Done? && DecodePacked(kind, room, EncodeItems([], kind, items).bytes).Failure?
    decreases |items|
  {
    PackedRoundTrip(kind, items[1..], |items|);
    if room > 0 { PackedTooLong(kind, items[1..], room - 1); }
    PackedMoreFails(kind, items, room);
  }

  lemma {:induction false} PackedMoreFails(kind: Kind, items: seq<Value>, room: nat)
    requires Packable(kind) && |items| > room && forall k :: 0 <= k < |items| ==> TypedValue(kind, items[k])
    requires EncodeItems([], kind, items[1..]).Done?
    requires room > 0 ==> DecodePacked(kind, room - 1, EncodeItems([], kind, items[1..]).bytes).Failure?
    ensures EncodeItems([], kind, items).Done? && DecodePacked(kind, room, EncodeItems([], kind, items).bytes).Failure?
  {
    var first, others := PackedFirst(kind, items);
    assert first + others != [];
  }

  /** The state with other elements in the array at i. */
  function WithItems(st: Decoding, i: nat, items: seq<Value>): (st': Decoding)
    requires i < |st.slots|
  {
    st.(slots := st.slots[i := Many(items)])
  }

  predicate ListAt(fields: seq<Field>, st: Decoding, i: nat) {
    && Valid(fields) && i < |fields| == |st.slots| && fields[i].rule.Repeated? && st.slots[i].Many?
  }

  /** The array of numbers at i, not yet beyond its capacity. */
  predicate ArrayAt(fields: seq<Field>, st: Decoding, i: nat) {
    ListAt(fields, st, i) && Packable(fields[i].kind) && |st.slots[i].items| <= fields[i].rule.max
  }

  predicate TypedItems(f: Field, vs: seq<Value>) { forall k :: 0 <= k < |vs| ==> TypedValue(f.kind, vs[k]) }

  function PackedBytes(f: Field, vs: seq<Value>): (s: seq<Byte>)
    requires Packable(f.kind) && TypedItems(f, vs)
  {
    PackedRoundTrip(f.kind, vs, |vs|);
    EncodeItems([], f.kind, vs).bytes
  }

  lemma {:induction false} ReceivedArray(fields: seq<Field>, st: Decoding, i: nat, slot: Slot)
    requires i < |fields| == |st.slots| && (fields[i].rule.Repeated? || fields[i].rule.FixedCount?)
    ensures Received(fields, Marked(fields, st, i), i, slot) == st.(slots := st.slots[i := slot])
  {
  }

  /** What one record does to the array. */
  lemma {:induction false} ArrayRecord(fields: seq<Field>, st: Decoding, i: nat, wire: nat, y: seq<Byte>)
    requires ListAt(fields, st, i) && wire < 8
    ensures var f, was := fields[i], st.slots[i].items;
      var r := DecodeElements(f, |was|, f.rule.max, wire, y);
      DecodeLoop(fields, st, Tag(f.tag, wire) + y) ==
        if r.Err? then Failure(r.error) else DecodeLoop(fields, WithItems(st, i, was + r.value), r.rest)
  {
    FieldRecord(fields, st, i, wire, y);
    var f, was := fields[i], st.slots[i].items;
    var r := DecodeElements(f, |was|, f.rule.max, wire, y);
    assert DecodeSlot(f, st.slots[i], 0, wire, y) ==
      if r.Err? then Err(r.error) else Ok((Many(was + r.value), |r.value|), r.rest);
    if r.Ok? { ReceivedArray(fields, st, i, Many(was + r.value)); }
  }

  /** A packed record adds its elements to those that are there, unless they are too many. */
  lemma {:induction false} PackedAdds(fields: seq<Field>, st: Decoding, i: nat, vs: seq<Value>, x: seq<Byte>)
    requires ArrayAt(fields, st, i) && TypedItems(fields[i], vs) && |PackedBytes(fields[i], vs)| < TWO_32
    ensures var f, was := fields[i], st.slots[i].items;
      var r := DecodeLoop(fields, st, Tag(f.tag, 2) + (Delimited(PackedBytes(f, vs)) + x));
      if |was| + |vs| <= f.rule.max then r == DecodeLoop(fields, WithItems(st, i, was + vs), x) else r.Failure?
  {
    var f, was := fields[i], st.slots[i].items;
    ArrayRecord(fields, st, i, 2, Delimited(PackedBytes(f, vs)) + x);
    PackedRead(f, |was|, f.rule.max, vs, x);
  }

  lemma {:induction false} PackedRead(f: Field, filled: nat, max: nat, vs: seq<Value>, x: seq<Byte>)
    requires Packable(f.kind) && TypedItems(f, vs) && |PackedBytes(f, vs)| < TWO_32 && filled <= max
    ensures var r := DecodeElements(f, filled, max, 2, Delimited(PackedBytes(f, vs)) + x);
      if filled + |vs| <= max then r == Ok(vs, x) else r.Err?
  {
    var inner := PackedBytes(f, vs);
    var d := DecodePacked(f.kind, max - filled, inner);
    assert if filled + |vs| <= max then d == Success(vs) else d.Failure? by {
      if filled + |vs| <= max {
        PackedRoundTrip(f.kind, vs, max - filled);
      } else {
        PackedTooLong(f.kind, vs, max - filled);
      }
    }
    DelimitedRoundTrip(inner, x);
  }

  lemma {:induction false} PackedLeads(fields: seq<Field>, st: Decoding, i: nat, vs: seq<Value>, x: seq<Byte>)
    requires ArrayAt(fields, st, i) && TypedItems(fields[i], vs) && |PackedBytes(fields[i], vs)| < TWO_32
    requires |st.slots[i].items| + |vs| <= fields[i].rule.max
    ensures Leads(true, fields, st, Tag(fields[i].tag, 2) + (Delimited(PackedBytes(fields[i], vs)) + x),
                  WithItems(st, i, st.slots[i].items + vs), x)
  {
    PackedAdds(fields, st, i, vs, x);
  }

  /** So does a record of its own for one element of an array that could have been packed. */
  lemma {:induction false} UnpackedAdds(fields: seq<Field>, st: Decoding, i: nat, v: Value, x: seq<Byte>)
    requires ArrayAt(fields, st, i) && TypedValue(fields[i].kind, v)
    ensures var f, was := fields[i], st.slots[i].items;
      EncodeValue(f.kind, v).Done? &&
      var r := DecodeLoop(fields, st, Tag(f.tag, WireType(f.kind)) + (EncodeValue(f.kind, v).bytes + x));
      if |was| < f.rule.max then r == DecodeLoop(fields, WithItems(st, i, was + [v]), x) else r.Failure?
  {
    var f, was := fields[i], st.slots[i].items;
    NumberRoundTrip(f.kind, v, true, Undef, x);
    ArrayRecord(fields, st, i, WireType(f.kind), EncodeValue(f.kind, v).bytes + x);
  }

  /** Two packed records are one. */
  lemma {:induction false} PackedTwice(fields: seq<Field>, st: Decoding, i: nat, vs: seq<Value>, ws: seq<Value>,
                                       x: seq<Byte>)
    requires ArrayAt(fields, st, i) && TypedItems(fields[i], vs) && TypedItems(fields[i], ws)
    requires |PackedBytes(fields[i], vs)| < TWO_32 && |PackedBytes(fields[i], ws)| < TWO_32
    requires TypedItems(fields[i], vs + ws) && |PackedBytes(fields[i], vs + ws)| < TWO_32
    requires |st.slots[i].items| + |vs| + |ws| <= fields[i].rule.max
    ensures var f := fields[i];
      var second := Tag(f.tag, 2) + (Delimited(PackedBytes(f, ws)) + x);
      DecodeLoop(fields, st, Tag(f.tag, 2) + (Delimited(PackedBytes(f, vs)) + second)) ==
        DecodeLoop(fields, st, Tag(f.tag, 2) + (Delimited(PackedBytes(f, vs + ws)) + x))
  {
    var f, was := fields[i], st.slots[i].items;
    var second := Tag(f.tag, 2) + (Delimited(PackedBytes(f, ws)) + x);
    var st' := WithItems(st, i, was + vs);
    var st'' := WithItems(st, i, was + (vs + ws));
    assert was + vs + ws == was + (vs + ws);
    assert WithItems(st', i, was + vs + ws) == st'';
    PackedLeads(fields, st, i, vs, second);
    PackedLeads(fields, st', i, ws, x);
    PackedLeads(fields, st, i, vs + ws, x);
    var s, t := Tag(f.tag, 2) + (Delimited(PackedBytes(f, vs)) + second),
      Tag(f.tag, 2) + (Delimited(PackedBytes(f, vs + ws)) + x);
    LeadsOn(true, fields, st, s, st', second, st'', x);
    LeadAlike(fields, st, s, t, st'', x);
  }

  // ----- several records of one field that is not an array -----

  /** A field with one value that is not a submessage. */
  predicate ScalarAt(fields: seq<Field>, st: Decoding, i: nat, v: Value) {
    && Valid(fields) && i < |fields| == |st.slots| && !fields[i].rule.Repeated? && !fields[i].rule.FixedCount?
    && !fields[i].kind.Sub? && TypedValue(fields[i].kind, v) && EncodeValue(fields[i].kind, v).Done?
    && |EncodeValue(fields[i].kind, v).bytes| < TWO_63 && DecodableValue(fields[i].kind, v)
  }

  function OneRecord(f: Field, v: Value): (s: seq<Byte>)
    requires TypedValue(f.kind, v) && EncodeValue(f.kind, v).Done?
  {
    Tag(f.tag, WireType(f.kind)) + EncodeValue(f.kind, v).bytes
  }

  function Updated(f: Field, v: Value): (s: Slot) {
    if f.rule.Optional? then Opt(true, v) else if f.rule.OneOf? then Choice(Some(v)) else One(v)
  }

  /** The value as it comes back. */
  function ReadBack(kind: Kind, v: Value): (w: Value)
    requires TypedValue(kind, v) && EncodeValue(kind, v).Done?
  {
    var r := DecodeValue(kind, false, Undef, EncodeValue(kind, v).bytes);
    if r.Ok? then r.value else Undef
  }

  /** The state once the value has arrived: it is stored, whatever was there, and the other members of a union are no
      longer selected. */
  function WithValue(fields: seq<Field>, st: Decoding, i: nat, v: Value): (st': Decoding)
    requires ScalarAt(fields, st, i, v)
    ensures |st'.slots| == |fields|
  {
    Received(fields, Marked(fields, st, i), i, Updated(fields[i], ReadBack(fields[i].kind, v)))
  }

  lemma {:induction false} ScalarStored(fields: seq<Field>, st: Decoding, i: nat, v: Value, x: seq<Byte>)
    requires ScalarAt(fields, st, i, v)
    ensures Same(fields[i].kind, v, ReadBack(fields[i].kind, v))
    ensures Leads(true, fields, st, OneRecord(fields[i], v) + x, WithValue(fields, st, i, v), x)
  {
    var wire, y := WireType(fields[i].kind), EncodeValue(fields[i].kind, v).bytes + x;
    assert OneRecord(fields[i], v) + x == Tag(fields[i].tag, wire) + y by { OneRecordThen(fields[i], v, x); }
    assert ValidField(fields[i]);
    ScalarYields(fields, st, i, v, x);
    RecordLeads(fields, st, i, wire, y, true, WithValue(fields, st, i, v), x);
  }

  lemma {:induction false} OneRecordThen(f: Field, v: Value, x: seq<Byte>)
    requires TypedValue(f.kind, v) && EncodeValue(f.kind, v).Done?
    ensures OneRecord(f, v) + x == Tag(f.tag, WireType(f.kind)) + (EncodeValue(f.kind, v).bytes + x)
  {
    Regroup(Tag(f.tag, WireType(f.kind)), EncodeValue(f.kind, v).bytes, x);
  }

  lemma {:induction false} ScalarYields(fields: seq<Field>, st: Decoding, i: nat, v: Value, x: seq<Byte>)
    requires ScalarAt(fields, st, i, v) && ValidField(fields[i])
    ensures Same(fields[i].kind, v, ReadBack(fields[i].kind, v))
    ensures Yields(fields, st, i, WireType(fields[i].kind), EncodeValue(fields[i].kind, v).bytes + x, true,
                   WithValue(fields, st, i, v), x)
  {
    var f := fields[i];
    var y := EncodeValue(f.kind, v).bytes + x;
    SlotStored(f, st.slots[i], v, x);
    SlotYields(fields, st, i, WireType(f.kind), y, Updated(f, ReadBack(f.kind, v)), x);
  }

  lemma {:induction false} SlotStored(f: Field, was: Slot, v: Value, x: seq<Byte>)
    requires ValidField(f) && !f.rule.Repeated? && !f.rule.FixedCount? && !f.kind.Sub? && TypedValue(f.kind, v)
    requires EncodeValue(f.kind, v).Done? && |EncodeValue(f.kind, v).bytes| < TWO_63 && DecodableValue(f.kind, v)
    ensures Same(f.kind, v, ReadBack(f.kind, v))
    ensures DecodeSlot(f, was, 0, WireType(f.kind), EncodeValue(f.kind, v).bytes + x) ==
      Ok((Updated(f, ReadBack(f.kind, v)), 0), x)
  {
    var w := ValueStored(f.kind, v, Stored(was), x);
  }

  lemma {:induction false} SlotYields(fields: seq<Field>, st: Decoding, i: nat, wire: nat, y: seq<Byte>, slot: Slot,
                                      x: seq<Byte>)
    requires i < |fields| == |st.slots| && !fields[i].rule.FixedCount?
    requires DecodeSlot(fields[i], st.slots[i], 0, wire, y) == Ok((slot, 0), x)
    ensures Yields(fields, st, i, wire, y, true, Received(fields, Marked(fields, st, i), i, slot), x)
  {
  }

  lemma {:induction false} ValueStored(kind: Kind, v: Value, was: Value, x: seq<Byte>) returns (w: Value)
    requires ValidKind(kind) && !kind.Sub? && TypedValue(kind, v) && EncodeValue(kind, v).Done?
    requires |EncodeValue(kind, v).bytes| < TWO_63 && DecodableValue(kind, v)
    ensures Same(kind, v, w) && w == ReadBack(kind, v)
    ensures DecodeValue(kind, false, was, EncodeValue(kind, v).bytes + x) == Ok(w, x)
  {
    var b := EncodeValue(kind, v).bytes;
    ValueRoundTrip(kind, v, false, Undef, []);
    assert b + [] == b;
    w := ReadBack(kind, v);
    UnknownFields.ValueLocal(kind, false, Undef, b, x);
    assert [] + x == x;
  }

  /** Of two records for one field the later counts. */
  lemma {:induction false} LastCounts(fields: seq<Field>, st: Decoding, i: nat, v: Value, w: Value, x: seq<Byte>)
    requires ScalarAt(fields, st, i, v) && ScalarAt(fields, st, i, w)
    ensures DecodeLoop(fields, st, OneRecord(fields[i], v) + (OneRecord(fields[i], w) + x)) ==
      DecodeLoop(fields, st, OneRecord(fields[i], w) + x)
  {
    OverwrittenBy(fields, st, i, i, v, w);
    TwoRecords(fields, st, i, i, v, w, x);
  }

  /** Of two members of a union the later counts: the earlier one leaves no trace. */
  lemma {:induction false} LastMemberCounts(fields: seq<Field>, st: Decoding, i: nat, j: nat, v: Value, w: Value,
                                            x: seq<Byte>)
    requires ScalarAt(fields, st, i, v) && ScalarAt(fields, st, j, w) && i != j
    requires fields[i].rule.OneOf? && fields[j].rule == fields[i].rule
    ensures DecodeLoop(fields, st, OneRecord(fields[i], v) + (OneRecord(fields[j], w) + x)) ==
      DecodeLoop(fields, st, OneRecord(fields[j], w) + x)
    ensures WithValue(fields, st, j, w).slots[i] == Choice(None)
  {
    OverwrittenBy(fields, st, i, j, v, w);
    TwoRecords(fields, st, i, j, v, w, x);
  }

  lemma {:induction false} OverwrittenBy(fields: seq<Field>, st: Decoding, i: nat, j: nat, v: Value, w: Value)
    requires ScalarAt(fields, st, i, v) && ScalarAt(fields, st, j, w)
    requires i == j || (fields[i].rule.OneOf? && fields[j].rule == fields[i].rule)
    ensures ScalarAt(fields, WithValue(fields, st, i, v), j, w)
    ensures WithValue(fields, WithValue(fields, st, i, v), j, w) == WithValue(fields, st, j, w)
  {
    var a, b := Updated(fields[i], ReadBack(fields[i].kind, v)), Updated(fields[j], ReadBack(fields[j].kind, w));
    ReceivedTwice(fields, st, i, j, a, b);
  }

  lemma {:induction false} ReceivedTwice(fields: seq<Field>, st: Decoding, i: nat, j: nat, a: Slot, b: Slot)
    requires i < |fields| == |st.slots| && j < |fields|
    requires i == j || (fields[i].rule.OneOf? && fields[j].rule == fields[i].rule)
    ensures var st' := Received(fields, Marked(fields, st, i), i, a);
      Received(fields, Marked(fields, st', j), j, b) == Received(fields, Marked(fields, st, j), j, b)
  {
    var st' := Received(fields, Marked(fields, st, i), i, a);
    var r, s := Received(fields, Marked(fields, st', j), j, b), Received(fields, Marked(fields, st, j), j, b);
    assert r.slots == s.slots by {
      assert forall k :: 0 <= k < |fields| ==> r.slots[k] == s.slots[k];
    }
  }

  lemma {:induction false} TwoRecords(fields: seq<Field>, st: Decoding, i: nat, j: nat, v: Value, w: Value,
                                      x: seq<Byte>)
    requires ScalarAt(fields, st, i, v) && ScalarAt(fields, st, j, w)
    requires ScalarAt(fields, WithValue(fields, st, i, v), j, w)
    requires WithValue(fields, WithValue(fields, st, i, v), j, w) == WithValue(fields, st, j, w)
    ensures DecodeLoop(fields, st, OneRecord(fields[i], v) + (OneRecord(fields[j], w) + x)) ==
      DecodeLoop(fields, st, OneRecord(fields[j], w) + x)
  {
    var second := OneRecord(fields[j], w) + x;
    var st', st'' := WithValue(fields, st, i, v), WithValue(fields, st, j, w);
    ScalarStored(fields, st, i, v, second);
    ScalarStored(fields, st', j, w, x);
    ScalarStored(fields, st, j, w, x);
    LeadsOn(true, fields, st, OneRecord(fields[i], v) + second, st', second, st'', x);
    LeadAlike(fields, st, OneRecord(fields[i], v) + second, second, st'', x);
  }

  // ----- submessages are merged -----

  /** Nothing is required of the messages of this descriptor. */
  predicate Lenient(fields: seq<Field>) {
    forall i :: 0 <= i < |fields| ==> !fields[i].rule.Required? && !fields[i].rule.FixedCount?
  }

  lemma {:induction false} LenientRun(fields: seq<Field>, st: Decoding, s: seq<Byte>)
    requires Lenient(fields) && |st.slots| == |fields| && st.seen == {} && st.fixedField == None && st.fixedSize == 0
    requires UnknownFields.Run(fields, st, s).Some?
    ensures var r := UnknownFields.Run(fields, st, s).value; r == Start(r.slots)
    decreases |s|
  {
    if s != [] {
      var r := DecodeRecord(fields, st, Decode32(s).value, Decode32(s).rest);
      LenientRecord(fields, st, Decode32(s).value, Decode32(s).rest);
      LenientRun(fields, r.value, r.rest);
    }
  }

  lemma {:induction false} LenientRecord(fields: seq<Field>, st: Decoding, key: nat, s: seq<Byte>)
    requires Lenient(fields) && |st.slots| == |fields| && DecodeRecord(fields, st, key, s).Ok?
    ensures var r := DecodeRecord(fields, st, key, s).value; r == st.(slots := r.slots)
  {
    var i := Find(fields, key / 8);
    if i.Some? { assert !fields[i.value].rule.Required? && !fields[i.value].rule.FixedCount?; }
  }

  /** Decoding two messages one after another into the same struct is decoding their concatenation. */
  lemma {:induction false} MergeConcatenates(fields: seq<Field>, slots: seq<Slot>, a: seq<Byte>, b: seq<Byte>)
    requires Lenient(fields) && |slots| == |fields| && UnknownFields.Run(fields, Start(slots), a).Some?
    ensures DecodeMessage(fields, slots, a).Success?
    ensures DecodeMessage(fields, slots, a + b) == DecodeMessage(fields, DecodeMessage(fields, slots, a).value, b)
  {
    var st := Start(slots);
    UnknownFields.RunThen(fields, st, a, b);
    UnknownFields.RunThen(fields, st, a, []);
    LenientRun(fields, st, a);
    assert a + [] == a;
    NothingRequired(fields, |fields|);
  }

  lemma {:induction false} NothingRequired(fields: seq<Field>, n: nat)
    requires Lenient(fields) && n <= |fields|
    ensures RequiredBefore(fields, n) == 0
  {
    if n > 0 { NothingRequired(fields, n - 1); }
  }

  /** A field with one submessage. */
  predicate SubAt(fields: seq<Field>, st: Decoding, i: nat) {
    && Valid(fields) && i < |fields| == |st.slots| && !fields[i].rule.Repeated? && !fields[i].rule.FixedCount?
    && fields[i].kind.Sub?
  }

  /** The submessage at i as decoding finds it. */
  function SubSlots(fields: seq<Field>, st: Decoding, i: nat): (slots: seq<Slot>)
    requires SubAt(fields, st, i)
    ensures |slots| == |fields[i].kind.fields|
  {
    Into(fields[i].kind.fields, Stored(st.slots[i]))
  }

  function WithSub(fields: seq<Field>, st: Decoding, i: nat, slots: seq<Slot>): (st': Decoding)
    requires SubAt(fields, st, i)
    ensures |st'.slots| == |fields|
  {
    Received(fields, Marked(fields, st, i), i, Updated(fields[i], Msg(slots)))
  }

  /** A record for a submessage is merged into the one that is there. */
  lemma {:induction false} SubRecord(fields: seq<Field>, st: Decoding, i: nat, b: seq<Byte>, x: seq<Byte>)
    requires SubAt(fields, st, i) && |b| < TWO_32
    ensures var f := fields[i];
      var r := DecodeMessage(f.kind.fields, SubSlots(fields, st, i), b);
      DecodeLoop(fields, st, Tag(f.tag, 2) + (Delimited(b) + x)) ==
        if r.Failure? then Failure(r.error) else DecodeLoop(fields, WithSub(fields, st, i, r.value), x)
  {
    FieldRecord(fields, st, i, 2, Delimited(b) + x);
    SubSlot(fields[i], st.slots[i], b, x);
  }

  lemma {:induction false} SubSlot(f: Field, was: Slot, b: seq<Byte>, x: seq<Byte>)
    requires !f.rule.Repeated? && !f.rule.FixedCount? && f.kind.Sub? && |b| < TWO_32
    ensures var r := DecodeMessage(f.kind.fields, Into(f.kind.fields, Stored(was)), b);
      DecodeSlot(f, was, 0, 2, Delimited(b) + x) ==
        if r.Failure? then Err(r.error) else Ok((Updated(f, Msg(r.value)), 0), x)
  {
    DelimitedRoundTrip(b, x);
    SubValue(f.kind.fields, Stored(was), b, Delimited(b) + x, x);
  }

  lemma {:induction false} SubValue(sub: seq<Field>, was: Value, b: seq<Byte>, y: seq<Byte>, x: seq<Byte>)
    requires ReadDelimited(y) == Ok(b, x)
    ensures var r := DecodeMessage(sub, Into(sub, was), b);
      DecodeValue(Sub(sub), false, was, y) == if r.Failure? then Err(r.error) else Ok(Msg(r.value), x)
    ensures var r := DecodeMessage(sub, Defaults(sub), b);
      DecodeValue(Sub(sub), true, was, y) == if r.Failure? then Err(r.error) else Ok(Msg(r.value), x)
  {
  }

  /** Two records for one submessage are one record with both payloads. */
  lemma {:induction false} SubTwice(fields: seq<Field>, st: Decoding, i: nat, a: seq<Byte>, b: seq<Byte>, x: seq<Byte>)
    requires SubAt(fields, st, i) && |a| + |b| < TWO_32 && Lenient(fields[i].kind.fields)
    requires UnknownFields.Run(fields[i].kind.fields, Start(SubSlots(fields, st, i)), a).Some?
    ensures var key := Tag(fields[i].tag, 2);
      DecodeLoop(fields, st, key + (Delimited(a) + (key + (Delimited(b) + x)))) ==
        DecodeLoop(fields, st, key + (Delimited(a + b) + x))
  {
    var sub, base := fields[i].kind.fields, SubSlots(fields, st, i);
    var second := Tag(fields[i].tag, 2) + (Delimited(b) + x);
    MergeConcatenates(sub, base, a, b);
    var m := DecodeMessage(sub, base, a).value;
    var st' := WithSub(fields, st, i, m);
    var r := DecodeMessage(sub, m, b);
    var goal := if r.Failure? then Failure(r.error) else DecodeLoop(fields, WithSub(fields, st, i, r.value), x);
    SubAgain(fields, st, i, m);
    var key := Tag(fields[i].tag, 2);
    assert DecodeLoop(fields, st, key + (Delimited(a) + second)) == DecodeLoop(fields, st', second) by {
      SubRecord(fields, st, i, a, second);
    }
    assert DecodeLoop(fields, st', second) == goal by { SubRecord(fields, st', i, b, x); }
    assert DecodeLoop(fields, st, Tag(fields[i].tag, 2) + (Delimited(a + b) + x)) == goal by {
      SubRecord(fields, st, i, a + b, x);
    }
  }

  lemma {:induction false} SubAgain(fields: seq<Field>, st: Decoding, i: nat, m: seq<Slot>)
    requires SubAt(fields, st, i) && |m| == |fields[i].kind.fields|
    ensures var st' := WithSub(fields, st, i, m);
      && SubAt(fields, st', i) && SubSlots(fields, st', i) == m
      && forall n :: WithSub(fields, st', i, n) == WithSub(fields, st, i, n)
  {
    var st' := WithSub(fields, st, i, m);
    forall n ensures WithSub(fields, st', i, n) == WithSub(fields, st, i, n) {
      ReceivedTwice(fields, st, i, i, Updated(fields[i], Msg(m)), Updated(fields[i], Msg(n)));
    }
  }

  /** A record for an array of submessages adds one that starts from its defaults. */
  lemma {:induction false} EntryAdds(fields: seq<Field>, st: Decoding, i: nat, b: seq<Byte>, x: seq<Byte>)
    requires ListAt(fields, st, i) && fields[i].kind.Sub? && |b| < TWO_32
    ensures var f, was := fields[i], st.slots[i].items;
      var r, d := DecodeFresh(f.kind.fields, b), DecodeLoop(fields, st, Tag(f.tag, 2) + (Delimited(b) + x));
      if |was| < f.rule.max && r.Success? then d == DecodeLoop(fields, WithItems(st, i, was + [Msg(r.value)]), x)
      else d.Failure?
  {
    var f, was := fields[i], st.slots[i].items;
    ArrayRecord(fields, st, i, 2, Delimited(b) + x);
    EntryRead(f, |was|, b, x);
  }

  lemma {:induction false} EntryRead(f: Field, filled: nat, b: seq<Byte>, x: seq<Byte>)
    requires f.rule.Repeated? && f.kind.Sub? && |b| < TWO_32
    ensures var r, d := DecodeFresh(f.kind.fields, b), DecodeElements(f, filled, f.rule.max, 2, Delimited(b) + x);
      if filled < f.rule.max && r.Success? then d == Ok([Msg(r.value)], x) else d.Err?
  {
    assert ReadDelimited(Delimited(b) + x) == Ok(b, x) by { DelimitedRoundTrip(b, x); }
    EntryOf(f, filled, b, Delimited(b) + x, x);
  }

  lemma {:induction false} EntryOf(f: Field, filled: nat, b: seq<Byte>, y: seq<Byte>, x: seq<Byte>)
    requires f.rule.Repeated? && f.kind.Sub? && ReadDelimited(y) == Ok(b, x)
    ensures var r, d := DecodeFresh(f.kind.fields, b), DecodeElements(f, filled, f.rule.max, 2, y);
      if filled < f.rule.max && r.Success? then d == Ok([Msg(r.value)], x) else d.Err?
  {
    SubValue(f.kind.fields, Undef, b, y, x);
  }

  // ----- arrays of fixed count -----

  /** An array of a fixed count of numbers. */
  predicate FixedAt(fields: seq<Field>, st: Decoding, i: nat) {
    && Valid(fields) && i < |fields| == |st.slots| && fields[i].rule.FixedCount? && Packable(fields[i].kind)
    && st.slots[i].Fixed? && |st.slots[i].items| == fields[i].rule.n && Filled(st, i) <= fields[i].rule.n
  }

  /** How much of the array has arrived, if it is the current one. */
  function Filled(st: Decoding, i: nat): (n: nat) { if st.fixedField == Some(i) then st.fixedSize else 0 }

  /** No other array is waiting for elements. */
  predicate OthersComplete(fields: seq<Field>, st: Decoding, i: nat) {
    forall k :: 0 <= k < |fields| && k != i && fields[k].rule.FixedCount? && st.fixedField == Some(k) ==>
      st.fixedSize == fields[k].rule.n
  }

  /** The state once vs have been put behind what has arrived. */
  function WithFixed(fields: seq<Field>, st: Decoding, i: nat, vs: seq<Value>): (st': Decoding)
    requires FixedAt(fields, st, i) && Filled(st, i) + |vs| <= fields[i].rule.n
  {
    var was, filled := st.slots[i].items, Filled(st, i);
    st.(slots := st.slots[i := Fixed(was[..filled] + vs + was[filled + |vs|..])], fixedField := Some(i),
        fixedSize := filled + |vs|)
  }

  /** A packed record fills the array further, unless that is too much or another array is not complete. */
  lemma {:induction false} FixedAdds(fields: seq<Field>, st: Decoding, i: nat, vs: seq<Value>, x: seq<Byte>)
    requires FixedAt(fields, st, i) && TypedItems(fields[i], vs) && |PackedBytes(fields[i], vs)| < TWO_32
    ensures var f := fields[i];
      var r := DecodeLoop(fields, st, Tag(f.tag, 2) + (Delimited(PackedBytes(f, vs)) + x));
      if OthersComplete(fields, st, i) && Filled(st, i) + |vs| <= f.rule.n
      then r == DecodeLoop(fields, WithFixed(fields, st, i, vs), x)
      else r.Failure?
  {
    var f, y := fields[i], Delimited(PackedBytes(fields[i], vs)) + x;
    FieldRecord(fields, st, i, 2, y);
    PackedRead(f, Filled(st, i), f.rule.n, vs, x);
    FixedField(fields, st, i, y, vs, x);
  }

  lemma {:induction false} FixedField(fields: seq<Field>, st: Decoding, i: nat, y: seq<Byte>, vs: seq<Value>,
                                      x: seq<Byte>)
    requires FixedAt(fields, st, i)
    requires var d := DecodeElements(fields[i], Filled(st, i), fields[i].rule.n, 2, y);
      if Filled(st, i) + |vs| <= fields[i].rule.n then d == Ok(vs, x) else d.Err?
    ensures var r := DecodeField(fields, st, i, 2, y);
      if OthersComplete(fields, st, i) && Filled(st, i) + |vs| <= fields[i].rule.n
      then r == Ok(WithFixed(fields, st, i, vs), x)
      else r.Err?
  {
    var was, filled := st.slots[i].items, Filled(st, i);
    if filled + |vs| <= fields[i].rule.n {
      var items := was[..filled] + vs + was[filled + |vs|..];
      assert vs == [] ==> items == was;
      ReceivedArray(fields, st, i, Fixed(items));
    }
  }

  /** Two packed records are one. */
  lemma {:induction false} FixedTwice(fields: seq<Field>, st: Decoding, i: nat, vs: seq<Value>, ws: seq<Value>,
                                      x: seq<Byte>)
    requires FixedAt(fields, st, i) && TypedItems(fields[i], vs) && TypedItems(fields[i], ws)
    requires |PackedBytes(fields[i], vs)| < TWO_32 && |PackedBytes(fields[i], ws)| < TWO_32
    requires TypedItems(fields[i], vs + ws) && |PackedBytes(fields[i], vs + ws)| < TWO_32
    requires OthersComplete(fields, st, i) && Filled(st, i) + |vs| + |ws| <= fields[i].rule.n
    ensures var f := fields[i];
      var second := Tag(f.tag, 2) + (Delimited(PackedBytes(f, ws)) + x);
      DecodeLoop(fields, st, Tag(f.tag, 2) + (Delimited(PackedBytes(f, vs)) + second)) ==
        DecodeLoop(fields, st, Tag(f.tag, 2) + (Delimited(PackedBytes(f, vs + ws)) + x))
  {
    var f := fields[i];
    var second := Tag(f.tag, 2) + (Delimited(PackedBytes(f, ws)) + x);
    var st', all := WithFixed(fields, st, i, vs), WithFixed(fields, st, i, vs + ws);
    FixedAgain(fields, st, i, vs, ws);
    assert DecodeLoop(fields, st, Tag(f.tag, 2) + (Delimited(PackedBytes(f, vs)) + second))
      == DecodeLoop(fields, st', second) by { FixedAdds(fields, st, i, vs, second); }
    assert DecodeLoop(fields, st', second) == DecodeLoop(fields, all, x) by { FixedAdds(fields, st', i, ws, x); }
    FixedAdds(fields, st, i, vs + ws, x);
  }

  lemma {:induction false} FixedAgain(fields: seq<Field>, st: Decoding, i: nat, vs: seq<Value>, ws: seq<Value>)
    requires FixedAt(fields, st, i) && Filled(st, i) + |vs| + |ws| <= fields[i].rule.n
    ensures var st' := WithFixed(fields, st, i, vs);
      && FixedAt(fields, st', i) && Filled(st', i) == Filled(st, i) + |vs| && OthersComplete(fields, st', i)
      && WithFixed(fields, st', i, ws) == WithFixed(fields, st, i, vs + ws)
  {
    Spliced(st.slots[i].items, Filled(st, i), vs, ws);
  }

  lemma {:induction false} Spliced<T>(was: seq<T>, filled: nat, vs: seq<T>, ws: seq<T>)
    requires filled + |vs| + |ws| <= |was|
    ensures var now, n := was[..filled] + vs + was[filled + |vs|..], filled + |vs|;
      && now[..n] == was[..filled] + vs && now[n + |ws|..] == was[n + |ws|..]
      && now[..n] + ws + now[n + |ws|..] == was[..filled] + (vs + ws) + was[filled + |vs + ws|..]
  {
  }

  /** An array that is left incomplete for another one of fixed count makes the message fail. */
  lemma {:induction false} SwitchRefused(fields: seq<Field>, st: Decoding, i: nat, j: nat, vs: seq<Value>,
                                         ws: seq<Value>, x: seq<Byte>)
    requires FixedAt(fields, st, i) && FixedAt(fields, st, j) && i != j
    requires TypedItems(fields[i], vs) && |PackedBytes(fields[i], vs)| < TWO_32
    requires TypedItems(fields[j], ws) && |PackedBytes(fields[j], ws)| < TWO_32
    requires Filled(st, i) + |vs| < fields[i].rule.n
    ensures var f, g := fields[i], fields[j];
      var second := Tag(g.tag, 2) + (Delimited(PackedBytes(g, ws)) + x);
      DecodeLoop(fields, st, Tag(f.tag, 2) + (Delimited(PackedBytes(f, vs)) + second)).Failure?
  {
    var f, g := fields[i], fields[j];
    var second := Tag(g.tag, 2) + (Delimited(PackedBytes(g, ws)) + x);
    FixedAdds(fields, st, i, vs, second);
    if OthersComplete(fields, st, i) {
      var st' := WithFixed(fields, st, i, vs);
      assert !OthersComplete(fields, st', j) by { assert st'.fixedField == Some(i); }
      FixedAdds(fields, st', j, ws, x);
    }
  }

  /** An array of fixed count that did not receive all its elements makes the message fail. */
  lemma {:induction false} ShortArrayRefused(fields: seq<Field>, slots: seq<Slot>, i: nat, vs: seq<Value>)
    requires Valid(fields) && i < |fields| == |slots| && fields[i].rule.FixedCount? && Packable(fields[i].kind)
    requires TypedItems(fields[i], vs) && |PackedBytes(fields[i], vs)| < TWO_32 && |vs| < fields[i].rule.n
    ensures var f := fields[i];
      DecodeMessage(fields, slots, Tag(f.tag, 2) + Delimited(PackedBytes(f, vs))) == Failure(WrongFixedCount)
  {
    var f, st := fields[i], Start(slots);
    var y := Delimited(PackedBytes(f, vs));
    assert y + [] == y;
    PackedRead(f, 0, f.rule.n, vs, []);
    FieldRecord(fields, st, i, 2, y);
    var r := DecodeField(fields, st, i, 2, y);
    assert r.Ok? && r.rest == [] && r.value.fixedField == Some(i) && r.value.fixedSize == |vs|;
  }
}
