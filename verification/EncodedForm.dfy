/** What the encoder has to write, by the wire format alone: which records, with which numbers in them. And that it
    writes exactly that. */
module EncodedForm {
  import opened Common
  import opened Varint
  import opened Schema
  import opened EncodeSpec
  import opened WireFormat

  // ----- the records of a message -----

  /** The part of a buffer in front of its first zero. */
  predicate IsCString(b: seq<Byte>, size: nat, c: seq<Byte>) {
    && |c| <= |b| && |c| <= size && c == b[..|c|] && (forall i :: 0 <= i < |c| ==> c[i] != 0)
    && (|c| == |b| || |c| == size || b[|c|] == 0)
  }

  ghost predicate ValueForm(kind: Kind, v: Value, wire: nat, p: seq<Byte>)
    requires TypedValue(kind, v)
    decreases kind, 0
  {
    match kind
    case Bool => wire == 0 && IsVarint(p, v.n)
    case Int(_) => wire == 0 && IsVarint(p, if v.n < 0 then v.n + TWO_64 else v.n)
    case UInt(_) => wire == 0 && IsVarint(p, v.n)
    case SInt(_) => wire == 0 && IsVarint(p, if v.n < 0 then -2 * v.n - 1 else 2 * v.n)
    case Fixed32 => wire == 5 && IsFixed(p, v.n, 4)
    case Fixed64 => wire == 1 && IsFixed(p, v.n, 8)
    case Bytes(cap) => wire == 2 && |v.bytes| <= cap && IsDelimited(p, v.bytes)
    case FixedBytes(_) => wire == 2 && IsDelimited(p, v.bytes)
    case Str(size) => wire == 2 && exists c :: IsCString(v.bytes, size, c) && IsDelimited(p, c)
    case Sub(fields) => wire == 2 && exists inner :: MessageForm(fields, v.slots, 0, inner) && IsDelimited(p, inner)
  }

  ghost predicate RecordForm(f: Field, v: Value, s: seq<Byte>)
    requires TypedValue(f.kind, v)
    decreases f, 0
  {
    exists wire, p :: ValueForm(f.kind, v, wire, p) && Lays(s, [Record(f.tag, wire, p)])
  }

  /** Values one after another. */
  ghost predicate PackedForm(kind: Kind, items: seq<Value>, s: seq<Byte>)
    requires forall k :: 0 <= k < |items| ==> TypedValue(kind, items[k])
    decreases kind, 1 + |items|
  {
    if items == [] then s == []
    else
      exists wire, p, rest ::
        ValueForm(kind, items[0], wire, p) && s == p + rest && PackedForm(kind, items[1..], rest)
  }

  /** A record for each value. */
  ghost predicate ItemsForm(f: Field, items: seq<Value>, s: seq<Byte>)
    requires forall k :: 0 <= k < |items| ==> TypedValue(f.kind, items[k])
    decreases f, 1 + |items|
  {
    if items == [] then s == []
    else exists a, rest :: RecordForm(f, items[0], a) && s == a + rest && ItemsForm(f, items[1..], rest)
  }

  /** An array is one record of packed values if these are numbers, and one record for each value if not. */
  ghost predicate ArrayForm(f: Field, items: seq<Value>, max: nat, s: seq<Byte>)
    requires forall k :: 0 <= k < |items| ==> TypedValue(f.kind, items[k])
    decreases f, 2 + |items|
  {
    if items == [] then s == []
    else
      && |items| <= max
      && if Packable(f.kind)
         then
           exists inner, p ::
             PackedForm(f.kind, items, inner) && IsDelimited(p, inner) && Lays(s, [Record(f.tag, 2, p)])
         else ItemsForm(f, items, s)
  }

  ghost predicate FieldForm(f: Field, slot: Slot, s: seq<Byte>)
    requires TypedSlot(f, slot)
    decreases f, 3 + if slot.Many? || slot.Fixed? then |slot.items| else 0
  {
    match f.rule
    case Required => RecordForm(f, slot.v, s)
    case Optional => if slot.has then RecordForm(f, slot.v, s) else s == []
    case Singular => if IsZero(f.kind, slot.v) then s == [] else RecordForm(f, slot.v, s)
    case Repeated(max) => ArrayForm(f, slot.items, max, s)
    case FixedCount(n) => ArrayForm(f, slot.items, n, s)
    case OneOf(_) => if slot.sel.Some? then RecordForm(f, slot.sel.value, s) else s == []
  }

  /** The fields from i on, in order. */
  ghost predicate MessageForm(fields: seq<Field>, slots: seq<Slot>, i: nat, s: seq<Byte>)
    requires Typed(fields, slots) && i <= |fields|
    decreases fields, |fields| - i
  {
    if i == |fields| then s == []
    else
      exists a, rest :: FieldForm(fields[i], slots[i], a) && s == a + rest && MessageForm(fields, slots, i + 1, rest)
  }

  // ----- numbers -----

  lemma {:induction false} EncodeIsVarint(v: nat)
    ensures IsVarint(Encode(v), v)
  {
    if v >= 128 {
      var h := Encode(v / 128);
      EncodeIsVarint(v / 128);
      var s := Encode(v);
      assert s == [v % 128 + 128] + h && s[1..] == h;
      assert s[|s| - 1] == h[|h| - 1];
      if |h| == 1 { assert Number(h, 128) == h[0] by { assert h[1..] == []; } }
    } else {
      assert Encode(v)[1..] == [];
    }
  }

  lemma {:induction false} VarintExact(s: seq<Byte>, v: nat)
    ensures IsVarint(s, v) <==> s == Encode(v)
  {
    EncodeIsVarint(v);
    if IsVarint(s, v) { VarintUnique(s, Encode(v), v); }
  }

  lemma {:induction false} LittleEndianIsFixed(n: nat, k: nat)
    requires n < Power256(k)
    ensures IsFixed(LittleEndian(n, k), n, k)
    decreases k
  {
    if k > 0 {
      LittleEndianIsFixed(n / 256, k - 1);
      assert LittleEndian(n, k)[1..] == LittleEndian(n / 256, k - 1);
    }
  }

  lemma {:induction false} FixedExact(s: seq<Byte>, n: nat, k: nat)
    requires n < Power256(k)
    ensures IsFixed(s, n, k) <==> s == LittleEndian(n, k)
  {
    LittleEndianIsFixed(n, k);
    if IsFixed(s, n, k) { FixedUnique(s, LittleEndian(n, k), n, k); }
  }

  lemma {:induction false} DelimitedExact(s: seq<Byte>, b: seq<Byte>)
    ensures IsDelimited(s, b) <==> s == Delimited(b)
  {
    VarintExact(Encode(|b|), |b|);
    if IsDelimited(s, b) {
      var a :| IsVarint(a, |b|) && s == a + b;
      VarintExact(a, |b|);
    }
  }

  lemma {:induction false} OneRecordExact(s: seq<Byte>, tag: nat, wire: nat, p: seq<Byte>)
    ensures Lays(s, [Record(tag, wire, p)]) <==> s == Tag(tag, wire) + p
  {
    var r := Record(tag, wire, p);
    var rs: seq<Record> := [r];
    VarintExact(Tag(tag, wire), 8 * tag + wire);
    LaysOne(Tag(tag, wire), r);
    if Lays(s, rs) {
      var key, rest :| IsKey(key, rs[0]) && s == key + (rs[0].payload + rest) && Lays(rest, rs[1..]);
      VarintExact(key, 8 * tag + wire);
      assert rest == [] && p + [] == p;
    }
  }

  lemma {:induction false} CStringExact(b: seq<Byte>, size: nat, c: seq<Byte>)
    ensures IsCString(b, size, c) <==> c == CStr(b, size)
  {
    var d := CStr(b, size);
    assert forall i :: 0 <= i < |d| ==> d[i] == b[i];
    assert IsCString(b, size, c) ==> forall i :: 0 <= i < |c| ==> c[i] == b[i];
  }

  // ----- values, fields and messages -----

  lemma {:induction false} ValueExact(kind: Kind, v: Value, wire: nat, p: seq<Byte>)
    requires TypedValue(kind, v)
    ensures ValueForm(kind, v, wire, p) <==> wire == WireType(kind) && EncodeValue(kind, v) == Done(p)
    decreases kind, 0
  {
    if kind.Sub? {
      SubExact(kind.fields, v, wire, p);
    } else if kind.Bytes? || kind.FixedBytes? {
      DelimitedExact(p, v.bytes);
    } else if kind.Str? {
      StringExact(v.bytes, kind.size, p);
    } else if kind.Fixed32? || kind.Fixed64? {
      Powers();
      FixedExact(p, v.n, if kind.Fixed32? then 4 else 8);
    } else {
      IntegerExact(kind, v, wire, p);
    }
  }

  lemma {:induction false} IntegerExact(kind: Kind, v: Value, wire: nat, p: seq<Byte>)
    requires TypedValue(kind, v) && (kind.Bool? || kind.Int? || kind.UInt? || kind.SInt?)
    ensures ValueForm(kind, v, wire, p) <==> wire == WireType(kind) && EncodeValue(kind, v) == Done(p)
  {
    match kind
    case Int(_) =>
      assert ToU64(v.n) == if v.n < 0 then v.n + TWO_64 else v.n;
      VarintExact(p, ToU64(v.n));
    case SInt(_) =>
      ZigZagValue(v.n);
      VarintExact(p, ZigZag(v.n));
    case Bool => VarintExact(p, v.n);
    case UInt(_) => VarintExact(p, v.n);
  }

  lemma {:induction false} StringExact(b: seq<Byte>, size: nat, p: seq<Byte>)
    ensures (exists c :: IsCString(b, size, c) && IsDelimited(p, c)) <==> p == Delimited(CStr(b, size))
  {
    var d := CStr(b, size);
    CStringExact(b, size, d);
    DelimitedExact(p, d);
    if c :| IsCString(b, size, c) && IsDelimited(p, c) { CStringExact(b, size, c); }
  }

  lemma {:induction false} SubExact(fields: seq<Field>, v: Value, wire: nat, p: seq<Byte>)
    requires TypedValue(Sub(fields), v)
    ensures ValueForm(Sub(fields), v, wire, p) <==> wire == 2 && EncodeValue(Sub(fields), v) == Done(p)
    decreases fields, 1 + |fields|
  {
    var r := EncodeFrom(fields, v.slots, 0);
    if r.Done? {
      MessageExact(fields, v.slots, 0, r.bytes);
      DelimitedExact(p, r.bytes);
    }
    if inner :| MessageForm(fields, v.slots, 0, inner) && IsDelimited(p, inner) {
      MessageExact(fields, v.slots, 0, inner);
    }
  }

  lemma {:induction false} RecordExact(f: Field, v: Value, s: seq<Byte>)
    requires TypedValue(f.kind, v)
    ensures RecordForm(f, v, s) <==> EncodeTagged(f, v) == Done(s)
    decreases f, 0
  {
    var r := EncodeValue(f.kind, v);
    if r.Done? {
      ValueExact(f.kind, v, WireType(f.kind), r.bytes);
      OneRecordExact(s, f.tag, WireType(f.kind), r.bytes);
    }
    if wire, p :| ValueForm(f.kind, v, wire, p) && Lays(s, [Record(f.tag, wire, p)]) {
      ValueExact(f.kind, v, wire, p);
    }
  }

  lemma {:induction false} PackedExact(kind: Kind, items: seq<Value>, s: seq<Byte>)
    requires forall k :: 0 <= k < |items| ==> TypedValue(kind, items[k])
    ensures PackedForm(kind, items, s) <==> EncodeItems([], kind, items) == Done(s)
    decreases kind, 1 + |items|
  {
    if items != [] {
      var first, others := EncodeValue(kind, items[0]), EncodeItems([], kind, items[1..]);
      FirstPacked(kind, items);
      if first.Done? && others.Done? {
        ValueExact(kind, items[0], WireType(kind), first.bytes);
        PackedExact(kind, items[1..], others.bytes);
      }
      if wire, p, rest :|
        ValueForm(kind, items[0], wire, p) && s == p + rest && PackedForm(kind, items[1..], rest)
      {
        ValueExact(kind, items[0], wire, p);
        PackedExact(kind, items[1..], rest);
      }
    }
  }

  lemma {:induction false} FirstPacked(kind: Kind, items: seq<Value>)
    requires items != [] && forall k :: 0 <= k < |items| ==> TypedValue(kind, items[k])
    ensures var r, first, others :=
      EncodeItems([], kind, items), EncodeValue(kind, items[0]), EncodeItems([], kind, items[1..]);
      && (r.Done? <==> first.Done? && others.Done?)
      && (r.Done? ==> r.bytes == first.bytes + others.bytes)
  {
    var first := EncodeValue(kind, items[0]);
    if first.Done? { assert [] + first.bytes == first.bytes; }
  }

  lemma {:induction false} ItemsExact(f: Field, items: seq<Value>, s: seq<Byte>)
    requires forall k :: 0 <= k < |items| ==> TypedValue(f.kind, items[k])
    ensures ItemsForm(f, items, s) <==> EncodeItems(Tag(f.tag, WireType(f.kind)), f.kind, items) == Done(s)
    decreases f, 1 + |items|
  {
    var prefix := Tag(f.tag, WireType(f.kind));
    if items != [] {
      var first, others := EncodeTagged(f, items[0]), EncodeItems(prefix, f.kind, items[1..]);
      if first.Done? && others.Done? {
        RecordExact(f, items[0], first.bytes);
        ItemsExact(f, items[1..], others.bytes);
      }
      if a, rest :| RecordForm(f, items[0], a) && s == a + rest && ItemsForm(f, items[1..], rest) {
        RecordExact(f, items[0], a);
        ItemsExact(f, items[1..], rest);
      }
    }
  }

  lemma {:induction false} ArrayExact(f: Field, items: seq<Value>, max: nat, s: seq<Byte>)
    requires forall k :: 0 <= k < |items| ==> TypedValue(f.kind, items[k])
    ensures ArrayForm(f, items, max, s) <==> EncodeArray(f, items, max) == Done(s)
    decreases f, 2 + |items|
  {
    if items != [] && |items| <= max {
      if Packable(f.kind) {
        var r := EncodeItems([], f.kind, items);
        if r.Done? {
          PackedExact(f.kind, items, r.bytes);
          DelimitedExact(Delimited(r.bytes), r.bytes);
          OneRecordExact(s, f.tag, 2, Delimited(r.bytes));
        }
        if inner, p :|
          PackedForm(f.kind, items, inner) && IsDelimited(p, inner) && Lays(s, [Record(f.tag, 2, p)])
        {
          PackedExact(f.kind, items, inner);
          DelimitedExact(p, inner);
          OneRecordExact(s, f.tag, 2, p);
        }
      } else {
        ItemsExact(f, items, s);
      }
    }
  }

  lemma {:induction false} FieldExact(f: Field, slot: Slot, s: seq<Byte>)
    requires TypedSlot(f, slot)
    ensures FieldForm(f, slot, s) <==> EncodeField(f, slot) == Done(s)
    decreases f, 3 + if slot.Many? || slot.Fixed? then |slot.items| else 0
  {
    match f.rule
    case Required => RecordExact(f, slot.v, s);
    case Optional => if slot.has { RecordExact(f, slot.v, s); }
    case Singular => if !IsZero(f.kind, slot.v) { RecordExact(f, slot.v, s); }
    case Repeated(max) => ArrayExact(f, slot.items, max, s);
    case FixedCount(n) => ArrayExact(f, slot.items, n, s);
    case OneOf(_) => if slot.sel.Some? { RecordExact(f, slot.sel.value, s); }
  }

  lemma {:induction false} MessageExact(fields: seq<Field>, slots: seq<Slot>, i: nat, s: seq<Byte>)
    requires Typed(fields, slots) && i <= |fields|
    ensures MessageForm(fields, slots, i, s) <==> EncodeFrom(fields, slots, i) == Done(s)
    decreases fields, |fields| - i
  {
    if i < |fields| {
      assert TypedSlot(fields[i], slots[i]);
      var first, others := EncodeField(fields[i], slots[i]), EncodeFrom(fields, slots, i + 1);
      if first.Done? && others.Done? {
        FieldExact(fields[i], slots[i], first.bytes);
        MessageExact(fields, slots, i + 1, others.bytes);
      }
      if a, rest :| FieldForm(fields[i], slots[i], a) && s == a + rest && MessageForm(fields, slots, i + 1, rest) {
        FieldExact(fields[i], slots[i], a);
        MessageExact(fields, slots, i + 1, rest);
      }
    }
  }

  // ----- well-formed records -----

  lemma {:induction false} DelimitedPayload(p: seq<Byte>, b: seq<Byte>)
    requires IsDelimited(p, b)
    ensures IsPayload(2, p)
  {
    var a :| IsVarint(a, |b|) && p == a + b;
    assert p[..|a|] == a;
    assert LengthAhead(p, |a|);
  }

  lemma {:induction false} ValuePayload(kind: Kind, v: Value, wire: nat, p: seq<Byte>)
    requires TypedValue(kind, v) && ValueForm(kind, v, wire, p)
    ensures IsPayload(wire, p)
  {
    ValueExact(kind, v, wire, p);
    if wire == 2 {
      var b := if kind.Str? then CStr(v.bytes, kind.size)
               else if kind.Sub? then EncodeFrom(kind.fields, v.slots, 0).bytes
               else v.bytes;
      DelimitedExact(p, b);
      DelimitedPayload(p, b);
    }
  }

  /** Records with the number of the field and the payload that their wire type calls for. */
  ghost predicate RecordsOf(f: Field, rs: seq<Record>) {
    forall i :: 0 <= i < |rs| ==> rs[i].tag == f.tag && IsPayload(rs[i].wire, rs[i].payload)
  }

  lemma {:induction false} ItemRecords(f: Field, items: seq<Value>, s: seq<Byte>) returns (rs: seq<Record>)
    requires forall k :: 0 <= k < |items| ==> TypedValue(f.kind, items[k])
    requires ItemsForm(f, items, s)
    ensures Lays(s, rs) && RecordsOf(f, rs)
    decreases |items|
  {
    if items == [] {
      rs := [];
    } else {
      var a, rest :| RecordForm(f, items[0], a) && s == a + rest && ItemsForm(f, items[1..], rest);
      var first := OneRecord(f, items[0], a);
      var others := ItemRecords(f, items[1..], rest);
      rs := first + others;
      LaysAppend(a, first, rest, others);
    }
  }

  lemma {:induction false} OneRecord(f: Field, v: Value, s: seq<Byte>) returns (rs: seq<Record>)
    requires TypedValue(f.kind, v) && RecordForm(f, v, s)
    ensures Lays(s, rs) && RecordsOf(f, rs)
  {
    var wire, p :| ValueForm(f.kind, v, wire, p) && Lays(s, [Record(f.tag, wire, p)]);
    ValuePayload(f.kind, v, wire, p);
    rs := [Record(f.tag, wire, p)];
  }

  lemma {:induction false} ArrayRecords(f: Field, items: seq<Value>, max: nat, s: seq<Byte>) returns (rs: seq<Record>)
    requires forall k :: 0 <= k < |items| ==> TypedValue(f.kind, items[k])
    requires ArrayForm(f, items, max, s)
    ensures Lays(s, rs) && RecordsOf(f, rs)
  {
    if items == [] {
      rs := [];
    } else if Packable(f.kind) {
      var inner, p :| PackedForm(f.kind, items, inner) && IsDelimited(p, inner) && Lays(s, [Record(f.tag, 2, p)]);
      DelimitedPayload(p, inner);
      rs := [Record(f.tag, 2, p)];
    } else {
      rs := ItemRecords(f, items, s);
    }
  }

  lemma {:induction false} FieldRecords(f: Field, slot: Slot, s: seq<Byte>) returns (rs: seq<Record>)
    requires TypedSlot(f, slot) && EncodeField(f, slot) == Done(s)
    ensures Lays(s, rs) && RecordsOf(f, rs)
  {
    FieldExact(f, slot, s);
    if f.rule.Repeated? || f.rule.FixedCount? {
      rs := ArrayRecords(f, slot.items, if f.rule.Repeated? then f.rule.max else f.rule.n, s);
    } else if s == [] {
      rs := [];
    } else {
      rs := OneRecord(f, match slot case One(v) => v case Opt(_, v) => v case Choice(c) => c.value, s);
    }
  }

  /** Every record is one of a field of the message, with the payload that its wire type calls for. */
  ghost predicate WellFormed(fields: seq<Field>, rs: seq<Record>) {
    forall i :: 0 <= i < |rs| ==>
      IsPayload(rs[i].wire, rs[i].payload) && exists j :: 0 <= j < |fields| && rs[i].tag == fields[j].tag
  }

  /** What pb_encode writes is a sequence of records, each of them well formed by the wire format. */
  lemma {:induction false} MessageRecords(fields: seq<Field>, slots: seq<Slot>, i: nat) returns (rs: seq<Record>)
    requires Typed(fields, slots) && i <= |fields| && EncodeFrom(fields, slots, i).Done?
    ensures Lays(EncodeFrom(fields, slots, i).bytes, rs) && WellFormed(fields, rs)
    decreases |fields| - i
  {
    if i == |fields| {
      rs := [];
    } else {
      assert TypedSlot(fields[i], slots[i]);
      var a, rest := EncodeField(fields[i], slots[i]).bytes, EncodeFrom(fields, slots, i + 1).bytes;
      var first := FieldRecords(fields[i], slots[i], a);
      var others := MessageRecords(fields, slots, i + 1);
      rs := first + others;
      LaysAppend(a, first, rest, others);
    }
  }

  /** pb_encode succeeds with these bytes exactly when they are the records that the struct calls for. */
  lemma {:induction false} EncodedExactly(fields: seq<Field>, slots: seq<Slot>, s: seq<Byte>)
    requires Typed(fields, slots)
    ensures EncodeMessage(fields, slots) == Done(s) <==> MessageForm(fields, slots, 0, s)
  {
    MessageExact(fields, slots, 0, s);
  }

  /** Apart from submessages and from bytes of fixed length, which are always written, a value counts as zero exactly
      when it is the same as the zero of its kind. */
  lemma {:induction false} ZeroExact(kind: Kind, v: Value)
    requires TypedValue(kind, v) && !kind.Sub?
    ensures IsZero(kind, v) <==> if kind.FixedBytes? then kind.size == 0 else Same(kind, v, Zero(kind))
  {
    if kind.Str? {
      var c := CStr(v.bytes, kind.size);
      assert CStr([0], kind.size) == [];
      if v.bytes != [] && v.bytes[0] != 0 { assert c[0] == v.bytes[0]; }
    }
  }
}
