/** A message is read by a descriptor that lacks some of its fields: what is lacking is skipped, the rest arrives. */
module Compatibility {
  import opened Common
  import opened Varint
  import opened Schema
  import opened EncodeSpec
  import opened DecodeSpec
  import opened WireFormat
  import opened ReaderForm
  import EncodedForm
  import UnknownFields
  import RoundTrip

  // ----- the reader's descriptor -----

  /** The fields among the first n whose numbers the reader knows. */
  function Kept(fields: seq<Field>, known: set<nat>, n: nat): (r: seq<Field>)
    requires n <= |fields|
    ensures |r| <= n
  {
    if n == 0 then []
    else Kept(fields, known, n - 1) + if fields[n - 1].tag in known then [fields[n - 1]] else []
  }

  /** Their slots. */
  function KeptSlots(fields: seq<Field>, slots: seq<Slot>, known: set<nat>, n: nat): (r: seq<Slot>)
    requires n <= |fields| == |slots|
    ensures |r| == |Kept(fields, known, n)|
  {
    if n == 0 then []
    else KeptSlots(fields, slots, known, n - 1) + if fields[n - 1].tag in known then [slots[n - 1]] else []
  }

  lemma {:induction false} KeptFrom(fields: seq<Field>, slots: seq<Slot>, known: set<nat>, n: nat, j: nat)
    returns (i: nat)
    requires n <= |fields| == |slots| && j < |Kept(fields, known, n)|
    ensures i < n && Kept(fields, known, n)[j] == fields[i] && KeptSlots(fields, slots, known, n)[j] == slots[i]
    ensures fields[i].tag in known
    decreases n
  {
    if j < |Kept(fields, known, n - 1)| {
      i := KeptFrom(fields, slots, known, n - 1, j);
    } else {
      i := n - 1;
    }
  }

  lemma {:induction false} KeptPrefix(fields: seq<Field>, slots: seq<Slot>, known: set<nat>, m: nat, n: nat)
    requires m <= n <= |fields| == |slots|
    ensures |Kept(fields, known, m)| <= |Kept(fields, known, n)|
    ensures Kept(fields, known, n)[..|Kept(fields, known, m)|] == Kept(fields, known, m)
    ensures KeptSlots(fields, slots, known, n)[..|Kept(fields, known, m)|] == KeptSlots(fields, slots, known, m)
    decreases n
  {
    if m < n { KeptPrefix(fields, slots, known, m, n - 1); }
  }

  /** Field i, if it is kept, has its place behind those kept before it. */
  lemma {:induction false} KeptAt(fields: seq<Field>, slots: seq<Slot>, known: set<nat>, i: nat)
    requires i < |fields| == |slots|
    ensures var j, n := |Kept(fields, known, i)|, |fields|;
      if fields[i].tag in known
      then j < |Kept(fields, known, n)| && Kept(fields, known, n)[j] == fields[i]
        && KeptSlots(fields, slots, known, n)[j] == slots[i] && |Kept(fields, known, i + 1)| == j + 1
      else |Kept(fields, known, i + 1)| == j
  {
    KeptPrefix(fields, slots, known, i + 1, |fields|);
    var j, all := |Kept(fields, known, i)|, Kept(fields, known, |fields|);
    var front := Kept(fields, known, i + 1);
    if fields[i].tag in known {
      assert front[j] == fields[i] && KeptSlots(fields, slots, known, i + 1)[j] == slots[i];
      assert all[..|front|][j] == all[j];
    }
  }

  lemma {:induction false} KeptValid(fields: seq<Field>, slots: seq<Slot>, known: set<nat>, n: nat)
    requires Valid(fields) && Typed(fields, slots) && n <= |fields|
    ensures Valid(Kept(fields, known, n)) && Typed(Kept(fields, known, n), KeptSlots(fields, slots, known, n))
    decreases n
  {
    if n > 0 {
      var r, p := Kept(fields, known, n), KeptSlots(fields, slots, known, n);
      KeptValid(fields, slots, known, n - 1);
      assert ValidField(fields[n - 1]) && TypedSlot(fields[n - 1], slots[n - 1]);
      if fields[n - 1].tag in known {
        forall j | 0 <= j < |r| ensures ValidField(r[j]) && TypedSlot(r[j], p[j]) {
          var i := KeptFrom(fields, slots, known, n, j);
          assert ValidField(fields[i]) && TypedSlot(fields[i], slots[i]);
        }
        forall i, j | 0 <= i < j < |r|
          ensures r[i].tag != r[j].tag
          ensures Selected(r, p, i) && Selected(r, p, j) ==> r[i].rule != r[j].rule
        {
          KeptPair(fields, slots, known, n, i, j);
        }
      }
    }
  }

  lemma {:induction false} KeptPair(fields: seq<Field>, slots: seq<Slot>, known: set<nat>, n: nat, i: nat, j: nat)
    requires Valid(fields) && Typed(fields, slots) && 0 < n <= |fields| && i < j < |Kept(fields, known, n)|
    requires Valid(Kept(fields, known, n - 1))
    requires Typed(Kept(fields, known, n - 1), KeptSlots(fields, slots, known, n - 1))
    ensures var r, p := Kept(fields, known, n), KeptSlots(fields, slots, known, n);
      && r[i].tag != r[j].tag
      && (Selected(r, p, i) && Selected(r, p, j) ==> r[i].rule != r[j].rule)
  {
    var r, p := Kept(fields, known, n), KeptSlots(fields, slots, known, n);
    var r', p' := Kept(fields, known, n - 1), KeptSlots(fields, slots, known, n - 1);
    if j == |r'| {
      var a := KeptFrom(fields, slots, known, n - 1, i);
      assert r[i] == r'[i] && p[i] == p'[i] && r[j] == fields[n - 1] && p[j] == slots[n - 1];
      assert Selected(r, p, i) <==> Selected(fields, slots, a);
      assert Selected(r, p, j) <==> Selected(fields, slots, n - 1);
    } else {
      assert r[i] == r'[i] && r[j] == r'[j] && p[i] == p'[i] && p[j] == p'[j];
      assert Selected(r, p, i) <==> Selected(r', p', i);
      assert Selected(r, p, j) <==> Selected(r', p', j);
    }
  }

  // ----- what is lacking is skipped -----

  /** A value whose length the reader can count in 32 bits. */
  predicate ShortValue(kind: Kind, v: Value)
    requires TypedValue(kind, v)
  {
    kind.Sub? ==> EncodeMessage(kind.fields, v.slots).Done? && |EncodeMessage(kind.fields, v.slots).bytes| < TWO_32
  }

  predicate ShortItems(kind: Kind, items: seq<Value>)
    requires forall k :: 0 <= k < |items| ==> TypedValue(kind, items[k])
  {
    if Packable(kind)
    then EncodeItems([], kind, items).Done? && |EncodeItems([], kind, items).bytes| < TWO_32
    else forall k :: 0 <= k < |items| ==> ShortValue(kind, items[k])
  }

  predicate ShortSlot(f: Field, s: Slot)
    requires TypedSlot(f, s)
  {
    match f.rule
    case Required => ShortValue(f.kind, s.v)
    case Singular => IsZero(f.kind, s.v) || ShortValue(f.kind, s.v)
    case Optional => s.has ==> ShortValue(f.kind, s.v)
    case OneOf(_) => s.sel.Some? ==> ShortValue(f.kind, s.sel.value)
    case Repeated(_) => ShortItems(f.kind, s.items)
    case FixedCount(_) => ShortItems(f.kind, s.items)
  }

  lemma {:induction false} ValueSkippable(kind: Kind, v: Value)
    requires ValidKind(kind) && TypedValue(kind, v) && EncodeValue(kind, v).Done? && ShortValue(kind, v)
    ensures IsSkippable(WireType(kind), EncodeValue(kind, v).bytes)
  {
    var p := EncodeValue(kind, v).bytes;
    EncodedForm.ValueExact(kind, v, WireType(kind), p);
    EncodedForm.ValuePayload(kind, v, WireType(kind), p);
    match kind
    case Bytes(_) => UnknownFields.DelimitedSkippable(v.bytes);
    case FixedBytes(_) => UnknownFields.DelimitedSkippable(v.bytes);
    case Str(size) => UnknownFields.DelimitedSkippable(CStr(v.bytes, size));
    case Sub(fields) => UnknownFields.DelimitedSkippable(EncodeMessage(fields, v.slots).bytes);
    case _ =>
  }

  predicate Lacks(fields: seq<Field>, tag: nat) { forall i :: 0 <= i < |fields| ==> fields[i].tag != tag }

  /** One record of a field that the reader lacks: skipped, or refused for its length. */
  lemma {:induction false} DelimitedLeads(fields: seq<Field>, st: Decoding, tag: nat, b: seq<Byte>, x: seq<Byte>)
    requires |st.slots| == |fields| && Lacks(fields, tag) && 1 <= tag < 0x2000_0000 && |b| < TWO_63
    ensures RoundTrip.Leads(|b| < TWO_32, fields, st, Tag(tag, 2) + Delimited(b) + x, st, x)
  {
    if |b| < TWO_32 {
      UnknownFields.DelimitedSkippable(b);
      UnknownFields.UnknownSkipped(fields, st, tag, 2, Delimited(b), x);
    } else {
      var y := Delimited(b) + x;
      assert Tag(tag, 2) + Delimited(b) + x == Tag(tag, 2) + y;
      RoundTrip.KeyStep(fields, st, tag, 2, y);
      RoundTrip.DelimitedRoundTrip(b, x);
      assert Skip(2, y).Err?;
    }
  }

  lemma {:induction false} RecordLeads(fields: seq<Field>, st: Decoding, f: Field, v: Value, x: seq<Byte>)
    requires |st.slots| == |fields| && Lacks(fields, f.tag) && ValidField(f) && TypedValue(f.kind, v)
    requires EncodeValue(f.kind, v).Done? && |EncodeValue(f.kind, v).bytes| < TWO_63
    ensures RoundTrip.Leads(ShortValue(f.kind, v), fields, st,
                            Tag(f.tag, WireType(f.kind)) + EncodeValue(f.kind, v).bytes + x, st, x)
  {
    if f.kind.Sub? {
      DelimitedLeads(fields, st, f.tag, EncodeMessage(f.kind.fields, v.slots).bytes, x);
    } else {
      ValueSkippable(f.kind, v);
      UnknownFields.UnknownSkipped(fields, st, f.tag, WireType(f.kind), EncodeValue(f.kind, v).bytes, x);
    }
  }

  lemma {:induction false} ItemsLead(fields: seq<Field>, st: Decoding, f: Field, items: seq<Value>, x: seq<Byte>)
    requires |st.slots| == |fields| && Lacks(fields, f.tag) && ValidField(f) && !Packable(f.kind)
    requires forall k :: 0 <= k < |items| ==> TypedValue(f.kind, items[k])
    requires var r := EncodeItems(Tag(f.tag, WireType(f.kind)), f.kind, items); r.Done? && |r.bytes| < TWO_63
    ensures RoundTrip.Leads(ShortItems(f.kind, items), fields, st,
                            EncodeItems(Tag(f.tag, WireType(f.kind)), f.kind, items).bytes + x, st, x)
    decreases |items|
  {
    if items == [] {
      RoundTrip.LeadsNowhere(fields, st, x);
    } else {
      var s := EncodeItems(Tag(f.tag, WireType(f.kind)), f.kind, items).bytes + x;
      var y := FirstItemLeads(fields, st, f, items, x);
      ShortSplit(f.kind, items);
      if ShortValue(f.kind, items[0]) {
        ItemsLead(fields, st, f, items[1..], x);
        RoundTrip.LeadsOn(ShortItems(f.kind, items[1..]), fields, st, s, st, y, st, x);
      } else {
        RoundTrip.LeadsFails(fields, st, s, st, y, st, x);
      }
    }
  }

  lemma {:induction false} FirstItemLeads(fields: seq<Field>, st: Decoding, f: Field, items: seq<Value>, x: seq<Byte>)
    returns (y: seq<Byte>)
    requires |st.slots| == |fields| && Lacks(fields, f.tag) && ValidField(f) && items != []
    requires forall k :: 0 <= k < |items| ==> TypedValue(f.kind, items[k])
    requires var r := EncodeItems(Tag(f.tag, WireType(f.kind)), f.kind, items); r.Done? && |r.bytes| < TWO_63
    ensures var r := EncodeItems(Tag(f.tag, WireType(f.kind)), f.kind, items[1..]);
      r.Done? && |r.bytes| < TWO_63 && y == r.bytes + x
    ensures RoundTrip.Leads(ShortValue(f.kind, items[0]), fields, st,
                            EncodeItems(Tag(f.tag, WireType(f.kind)), f.kind, items).bytes + x, st, y)
  {
    var prefix := Tag(f.tag, WireType(f.kind));
    RoundTrip.ItemsSplit(prefix, f.kind, items);
    var b, c := EncodeValue(f.kind, items[0]).bytes, EncodeItems(prefix, f.kind, items[1..]).bytes;
    assert prefix + (b + c) + x == prefix + b + (c + x);
    y := c + x;
    RecordLeads(fields, st, f, items[0], y);
  }

  lemma {:induction false} ShortSplit(kind: Kind, items: seq<Value>)
    requires !Packable(kind) && items != [] && forall k :: 0 <= k < |items| ==> TypedValue(kind, items[k])
    ensures ShortItems(kind, items) <==> ShortValue(kind, items[0]) && ShortItems(kind, items[1..])
  {
    assert forall k :: 0 < k < |items| ==> items[k] == items[1..][k - 1];
  }

  /** A whole field that the reader lacks. */
  lemma {:induction false} FieldLeads(fields: seq<Field>, st: Decoding, f: Field, slot: Slot, x: seq<Byte>)
    requires |st.slots| == |fields| && Lacks(fields, f.tag) && ValidField(f) && TypedSlot(f, slot)
    requires EncodeField(f, slot).Done? && |EncodeField(f, slot).bytes| < TWO_63
    ensures RoundTrip.Leads(ShortSlot(f, slot), fields, st, EncodeField(f, slot).bytes + x, st, x)
  {
    if f.rule.Repeated? || f.rule.FixedCount? {
      ArrayLeads(fields, st, f, slot, x);
    } else if RoundTrip.Absent(f, slot) {
      RoundTrip.LeadsNowhere(fields, st, x);
    } else {
      RecordLeads(fields, st, f, Stored(slot), x);
    }
  }

  lemma {:induction false} ArrayLeads(fields: seq<Field>, st: Decoding, f: Field, slot: Slot, x: seq<Byte>)
    requires |st.slots| == |fields| && Lacks(fields, f.tag) && ValidField(f) && TypedSlot(f, slot)
    requires f.rule.Repeated? || f.rule.FixedCount?
    requires EncodeField(f, slot).Done? && |EncodeField(f, slot).bytes| < TWO_63
    ensures RoundTrip.Leads(ShortItems(f.kind, slot.items), fields, st, EncodeField(f, slot).bytes + x, st, x)
  {
    var items := slot.items;
    if items == [] {
      RoundTrip.LeadsNowhere(fields, st, x);
      assert ShortItems(f.kind, []);
    } else if Packable(f.kind) {
      DelimitedLeads(fields, st, f.tag, EncodeItems([], f.kind, items).bytes, x);
    } else {
      ItemsLead(fields, st, f, items, x);
    }
  }

  // ----- whole messages -----

  /** Every field from i on either can be skipped or, if the reader knows it, arrives. */
  predicate ReadableFrom(fields: seq<Field>, slots: seq<Slot>, known: set<nat>, i: nat)
    requires Typed(fields, slots)
  {
    forall j :: i <= j < |fields| ==> Readable(fields[j], slots[j], known)
  }

  predicate Readable(f: Field, s: Slot, known: set<nat>)
    requires TypedSlot(f, s)
  {
    if f.tag in known then RoundTrip.DecodableSlot(f, s) else ShortSlot(f, s)
  }

  lemma {:induction false} KeptLacks(fields: seq<Field>, slots: seq<Slot>, known: set<nat>, tag: nat)
    requires |fields| == |slots| && tag !in known
    ensures Lacks(Kept(fields, known, |fields|), tag)
  {
    forall j | 0 <= j < |Kept(fields, known, |fields|)| ensures Kept(fields, known, |fields|)[j].tag != tag {
      var i := KeptFrom(fields, slots, known, |fields|, j);
    }
  }

  /** The known ones of the first i fields have arrived. Unfolds where Ready is named. */
  predicate Arriving(fields: seq<Field>, slots: seq<Slot>, known: set<nat>, i: nat, st: Decoding)
    requires i <= |fields| == |slots|
  {
    var r, p, j := Kept(fields, known, |fields|), KeptSlots(fields, slots, known, |fields|), |Kept(fields, known, i)|;
    |st.slots| == |r| && j <= |r| && forall k: nat :: k == j ==> RoundTrip.Ready(r, p, k, st)
  }

  lemma {:induction false} LoopLacking(fields: seq<Field>, slots: seq<Slot>, known: set<nat>, i: nat, st: Decoding)
    returns (st': Decoding)
    requires Valid(fields) && Typed(fields, slots) && i <= |fields|
    requires EncodeFrom(fields, slots, i).Done? && |EncodeFrom(fields, slots, i).bytes| < TWO_63
    requires Arriving(fields, slots, known, i, st)
    ensures var r, p := Kept(fields, known, |fields|), KeptSlots(fields, slots, known, |fields|);
      var s := EncodeFrom(fields, slots, i).bytes;
      if ReadableFrom(fields, slots, known, i)
      then Arriving(fields, slots, known, |fields|, st') && DecodeLoop(r, st, s) == Success(st')
      else DecodeLoop(r, st, s).Failure?
    decreases |fields| - i
  {
    var r, p := Kept(fields, known, |fields|), KeptSlots(fields, slots, known, |fields|);
    st' := st;
    if i == |fields| {
      assert EncodeFrom(fields, slots, i).bytes == [];
    } else {
      st' := FirstLacking(fields, slots, known, i, st);
      var d := DecodeLoop(r, st, EncodeFrom(fields, slots, i).bytes);
      if Readable(fields[i], slots[i], known) {
        assert d == DecodeLoop(r, st', EncodeFrom(fields, slots, i + 1).bytes);
        st' := LoopLacking(fields, slots, known, i + 1, st');
      }
    }
  }

  /** The first field of those from i on, in front of the others. */
  lemma {:induction false} FirstLacking(fields: seq<Field>, slots: seq<Slot>, known: set<nat>, i: nat, st: Decoding)
    returns (st': Decoding)
    requires Valid(fields) && Typed(fields, slots) && i < |fields|
    requires EncodeFrom(fields, slots, i).Done? && |EncodeFrom(fields, slots, i).bytes| < TWO_63
    requires Arriving(fields, slots, known, i, st)
    ensures TypedSlot(fields[i], slots[i])
    ensures EncodeFrom(fields, slots, i + 1).Done? && |EncodeFrom(fields, slots, i + 1).bytes| < TWO_63
    ensures ReadableFrom(fields, slots, known, i) <==>
      Readable(fields[i], slots[i], known) && ReadableFrom(fields, slots, known, i + 1)
    ensures var r, ok := Kept(fields, known, |fields|), Readable(fields[i], slots[i], known);
      && |st'.slots| == |r| && (ok ==> Arriving(fields, slots, known, i + 1, st'))
      && RoundTrip.Leads(ok, r, st, EncodeFrom(fields, slots, i).bytes, st', EncodeFrom(fields, slots, i + 1).bytes)
  {
    RoundTrip.FromSplit(fields, slots, i);
    ReadableSplit(fields, slots, known, i);
    st' := FieldLacking(fields, slots, known, i, st, EncodeFrom(fields, slots, i + 1).bytes);
  }

  lemma {:induction false} ReadableSplit(fields: seq<Field>, slots: seq<Slot>, known: set<nat>, i: nat)
    requires Typed(fields, slots) && i < |fields| && TypedSlot(fields[i], slots[i])
    ensures ReadableFrom(fields, slots, known, i) <==>
      Readable(fields[i], slots[i], known) && ReadableFrom(fields, slots, known, i + 1)
  {
  }

  lemma {:induction false} FieldLacking(fields: seq<Field>, slots: seq<Slot>, known: set<nat>, i: nat, st: Decoding,
                                        x: seq<Byte>)
    returns (st': Decoding)
    requires Valid(fields) && Typed(fields, slots) && i < |fields| && TypedSlot(fields[i], slots[i])
    requires EncodeField(fields[i], slots[i]).Done? && |EncodeField(fields[i], slots[i]).bytes| < TWO_63
    requires Arriving(fields, slots, known, i, st)
    ensures var r, p := Kept(fields, known, |fields|), KeptSlots(fields, slots, known, |fields|);
      var ok := Readable(fields[i], slots[i], known);
      && |st'.slots| == |r| && (ok ==> Arriving(fields, slots, known, i + 1, st'))
      && RoundTrip.Leads(ok, r, st, EncodeField(fields[i], slots[i]).bytes + x, st', x)
  {
    var r, p := Kept(fields, known, |fields|), KeptSlots(fields, slots, known, |fields|);
    Place(fields, slots, known, i, st);
    if fields[i].tag in known {
      st' := KnownArrives(r, p, |Kept(fields, known, i)|, fields[i], slots[i], st, x);
    } else {
      st' := st;
      KeptLacks(fields, slots, known, fields[i].tag);
      FieldLeads(r, st, fields[i], slots[i], x);
    }
  }

  /** The place of field i among those that the reader knows. */
  lemma {:induction false} Place(fields: seq<Field>, slots: seq<Slot>, known: set<nat>, i: nat, st: Decoding)
    requires Valid(fields) && Typed(fields, slots) && i < |fields| && Arriving(fields, slots, known, i, st)
    ensures ValidField(fields[i])
    ensures var r, p := Kept(fields, known, |fields|), KeptSlots(fields, slots, known, |fields|);
      var j := |Kept(fields, known, i)|;
      && Valid(r) && Typed(r, p) && j <= |r| && RoundTrip.Ready(r, p, j, st)
      && if fields[i].tag in known
         then j < |r| && r[j] == fields[i] && p[j] == slots[i]
           && forall d: Decoding :: |d.slots| == |r| && RoundTrip.Ready(r, p, j + 1, d) ==>
                Arriving(fields, slots, known, i + 1, d)
         else Arriving(fields, slots, known, i + 1, st)
  {
    var r, p := Kept(fields, known, |fields|), KeptSlots(fields, slots, known, |fields|);
    KeptValid(fields, slots, known, |fields|);
    KeptAt(fields, slots, known, i);
    KeptPrefix(fields, slots, known, i + 1, |fields|);
    assert RoundTrip.Ready(r, p, |Kept(fields, known, i)|, st);
  }

  /** A known field arrives in its place, j. */
  lemma {:induction false} KnownArrives(r: seq<Field>, p: seq<Slot>, j: nat, f: Field, slot: Slot, st: Decoding,
                                        x: seq<Byte>)
    returns (st': Decoding)
    requires Valid(r) && Typed(r, p) && j < |r| && r[j] == f && p[j] == slot && RoundTrip.Ready(r, p, j, st)
    requires TypedSlot(f, slot) && EncodeField(f, slot).Done? && |EncodeField(f, slot).bytes| < TWO_63
    ensures |st'.slots| == |r| && (RoundTrip.DecodableSlot(f, slot) ==> RoundTrip.Ready(r, p, j + 1, st'))
    ensures RoundTrip.Leads(RoundTrip.DecodableSlot(f, slot), r, st, EncodeField(f, slot).bytes + x, st', x)
  {
    st' := RoundTrip.FieldRoundTrip(r, p, j, st, x);
  }

  /** What a writer with more fields wrote is accepted by a reader that knows only some of them exactly when the known
      fields are decodable and no field that is skipped has a length beyond 32 bits; and then the reader has the known
      fields as they were written. */
  lemma {:induction false} LackingFieldsRead(fields: seq<Field>, slots: seq<Slot>, known: set<nat>)
    requires Valid(fields) && Typed(fields, slots)
    requires EncodeMessage(fields, slots).Done? && |EncodeMessage(fields, slots).bytes| < TWO_63
    ensures var r, p := Kept(fields, known, |fields|), KeptSlots(fields, slots, known, |fields|);
      var d := DecodeFresh(r, EncodeMessage(fields, slots).bytes);
      && (d.Success? <==> ReadableFrom(fields, slots, known, 0))
      && (d.Success? ==> SameMessage(r, p, d.value))
  {
    var r, p := Kept(fields, known, |fields|), KeptSlots(fields, slots, known, |fields|);
    KeptValid(fields, slots, known, |fields|);
    var st := Start(Defaults(r));
    assert RoundTrip.Ready(r, p, 0, st);
    var st' := LoopLacking(fields, slots, known, 0, st);
    if ReadableFrom(fields, slots, known, 0) {
      assert RoundTrip.Ready(r, p, |r|, st');
      RoundTrip.ReadyFinishes(r, p, st');
    }
  }
}
