/** Every reader stops where its item ends: what follows cannot change what was read. Hence a
    record with a field number the descriptor lacks can be put between any two records. */
module UnknownFields {
  import opened Common
  import opened Varint
  import opened Schema
  import opened DecodeSpec
  import opened EncodeSpec
  import opened WireFormat
  import opened ReaderForm
  import RoundTrip

  // ----- readers are local -----

  /** Appending x to the input appends x to the rest. */
  function Later<T>(r: Parsed<T>, x: seq<Byte>): (r': Parsed<T>) {
    match r case Err(e) => Err(e) case Ok(v, rest) => Ok(v, rest + x)
  }

  lemma {:induction false} Decode64Local(s: seq<Byte>, k: nat, x: seq<Byte>)
    requires Decode64From(s, k).Ok?
    ensures Decode64From(s + x, k) == Later(Decode64From(s, k), x)
    decreases |s|
  {
    assert (s + x)[1..] == s[1..] + x;
    if s[0] >= 128 { Decode64Local(s[1..], k + 1, x); }
  }

  lemma {:induction false} SkipSignLocal(s: seq<Byte>, k: nat, negative: bool, x: seq<Byte>)
    requires SkipSign(s, k, negative).Ok?
    ensures SkipSign(s + x, k, negative) == Later(SkipSign(s, k, negative), x)
    decreases |s|
  {
    assert (s + x)[1..] == s[1..] + x;
    if s[0] >= 128 { SkipSignLocal(s[1..], k + 1, negative, x); }
  }

  lemma {:induction false} Decode32Local(s: seq<Byte>, k: nat, x: seq<Byte>)
    requires k <= 4 && Decode32From(s, k).Ok?
    ensures Decode32From(s + x, k) == Later(Decode32From(s, k), x)
    decreases |s|
  {
    assert (s + x)[1..] == s[1..] + x;
    if s[0] >= 128 {
      if k == 4 {
        SkipSignLocal(s[1..], 5, s[0] % 16 >= 8, x);
      } else {
        Decode32Local(s[1..], k + 1, x);
      }
    }
  }

  lemma {:induction false} ReadLocal(s: seq<Byte>, n: nat, x: seq<Byte>)
    requires n <= |s|
    ensures Read(s + x, n) == Later(Read(s, n), x)
  {
    assert (s + x)[..n] == s[..n] && (s + x)[n..] == s[n..] + x;
  }

  lemma {:induction false} ReadDelimitedLocal(s: seq<Byte>, x: seq<Byte>)
    requires ReadDelimited(s).Ok?
    ensures ReadDelimited(s + x) == Later(ReadDelimited(s), x)
  {
    Decode32Local(s, 0, x);
    ReadLocal(Decode32(s).rest, Decode32(s).value, x);
  }

  lemma {:induction false} SkipVarintLocal(s: seq<Byte>, x: seq<Byte>)
    requires SkipVarint(s).Ok?
    ensures SkipVarint(s + x) == Later(SkipVarint(s), x)
    decreases |s|
  {
    assert (s + x)[1..] == s[1..] + x;
    if s[0] >= 128 { SkipVarintLocal(s[1..], x); }
  }

  lemma {:induction false} SkipLocal(wire: nat, s: seq<Byte>, x: seq<Byte>)
    requires Skip(wire, s).Ok?
    ensures Skip(wire, s + x) == Later(Skip(wire, s), x)
  {
    if wire == 0 {
      SkipVarintLocal(s, x);
    } else if wire == 2 {
      Decode32Local(s, 0, x);
      ReadLocal(Decode32(s).rest, Decode32(s).value, x);
    } else {
      ReadLocal(s, if wire == 1 then 8 else 4, x);
    }
  }

  lemma {:induction false} ReadBlobLocal(kind: Kind, s: seq<Byte>, x: seq<Byte>)
    requires kind.Bytes? || kind.Str? || kind.FixedBytes?
    requires ReadBlob(kind, s).Ok?
    ensures ReadBlob(kind, s + x) == Later(ReadBlob(kind, s), x)
  {
    Decode32Local(s, 0, x);
    var n, t := Decode32(s).value, Decode32(s).rest;
    if n <= |t| { ReadLocal(t, n, x); }
  }

  lemma {:induction false} ValueLocal(kind: Kind, inArray: bool, was: Value, s: seq<Byte>, x: seq<Byte>)
    requires DecodeValue(kind, inArray, was, s).Ok?
    ensures DecodeValue(kind, inArray, was, s + x) == Later(DecodeValue(kind, inArray, was, s), x)
  {
    match kind
    case Bool => Decode32Local(s, 0, x);
    case Fixed32 => ReadLocal(s, 4, x);
    case Fixed64 => ReadLocal(s, 8, x);
    case Int(_) => Decode64Local(s, 0, x);
    case UInt(_) => Decode64Local(s, 0, x);
    case SInt(_) => Decode64Local(s, 0, x);
    case Bytes(_) => ReadBlobLocal(kind, s, x);
    case Str(_) => ReadBlobLocal(kind, s, x);
    case FixedBytes(_) => ReadBlobLocal(kind, s, x);
    case Sub(fields) => ReadDelimitedLocal(s, x);
  }

  lemma {:induction false} ElementsLocal(f: Field, filled: nat, max: nat, wire: nat, s: seq<Byte>, x: seq<Byte>)
    requires DecodeElements(f, filled, max, wire, s).Ok?
    ensures DecodeElements(f, filled, max, wire, s + x) == Later(DecodeElements(f, filled, max, wire, s), x)
  {
    if wire == 2 && Packable(f.kind) {
      ReadDelimitedLocal(s, x);
    } else {
      ValueLocal(f.kind, true, Undef, s, x);
    }
  }

  lemma {:induction false} SlotLocal(f: Field, slot: Slot, filled: nat, wire: nat, s: seq<Byte>, x: seq<Byte>)
    requires DecodeSlot(f, slot, filled, wire, s).Ok?
    ensures DecodeSlot(f, slot, filled, wire, s + x) == Later(DecodeSlot(f, slot, filled, wire, s), x)
  {
    if f.rule.Repeated? || f.rule.FixedCount? {
      ArrayLocal(f, slot, filled, wire, s, x);
    } else {
      ValueLocal(f.kind, false, Stored(slot), s, x);
    }
  }

  lemma {:induction false} ArrayLocal(f: Field, slot: Slot, filled: nat, wire: nat, s: seq<Byte>, x: seq<Byte>)
    requires (f.rule.Repeated? || f.rule.FixedCount?) && DecodeSlot(f, slot, filled, wire, s).Ok?
    ensures DecodeSlot(f, slot, filled, wire, s + x) == Later(DecodeSlot(f, slot, filled, wire, s), x)
  {
    if f.rule.Repeated? {
      ElementsLocal(f, |Elements(slot)|, f.rule.max, wire, s, x);
    } else {
      ElementsLocal(f, filled, f.rule.n, wire, s, x);
    }
  }

  lemma {:induction false} FieldLocal(fields: seq<Field>, st: Decoding, i: nat, wire: nat, s: seq<Byte>, x: seq<Byte>)
    requires i < |fields| == |st.slots| && DecodeField(fields, st, i, wire, s).Ok?
    ensures DecodeField(fields, st, i, wire, s + x) == Later(DecodeField(fields, st, i, wire, s), x)
  {
    var current := fields[i].rule.FixedCount? && st.fixedField == Some(i);
    var filled := if current then st.fixedSize else 0;
    var r := DecodeSlot(fields[i], st.slots[i], filled, wire, s);
    var r' := DecodeSlot(fields[i], st.slots[i], filled, wire, s + x);
    assert r.Ok?;
    assert r'.Ok? && r'.value == r.value && r'.rest == r.rest + x by {
      SlotLocal(fields[i], st.slots[i], filled, wire, s, x);
    }
  }

  lemma {:induction false} RecordLocal(fields: seq<Field>, st: Decoding, key: nat, s: seq<Byte>, x: seq<Byte>)
    requires |st.slots| == |fields| && DecodeRecord(fields, st, key, s).Ok?
    ensures DecodeRecord(fields, st, key, s + x) == Later(DecodeRecord(fields, st, key, s), x)
  {
    match Find(fields, key / 8)
    case Some(i) => FieldLocal(fields, st, i, key % 8, s, x);
    case None =>
      if fields == [] && key / 8 == 0 {
        Decode32Local(s, 0, x);
      } else {
        SkipLocal(key % 8, s, x);
      }
  }

  // ----- inputs made of whole records -----

  /** The state after an input that consists of whole records, none of them a terminator. */
  function Run(fields: seq<Field>, st: Decoding, s: seq<Byte>): (r: Option<Decoding>)
    requires |st.slots| == |fields|
    ensures r.Some? ==> |r.value.slots| == |fields|
    decreases |s|
  {
    if s == [] then Some(st)
    else if Decode32(s).Err? || Decode32(s).value == 0 then None
    else match DecodeRecord(fields, st, Decode32(s).value, Decode32(s).rest)
      case Err(_) => None
      case Ok(st', rest) => Run(fields, st', rest)
  }

  /** After whole records the decoder goes on from the state they lead to. */
  lemma {:induction false} RunThen(fields: seq<Field>, st: Decoding, pre: seq<Byte>, x: seq<Byte>)
    requires |st.slots| == |fields| && Run(fields, st, pre).Some?
    ensures DecodeLoop(fields, st, pre + x) == DecodeLoop(fields, Run(fields, st, pre).value, x)
    decreases |pre|
  {
    if pre == [] {
      assert pre + x == x;
    } else {
      Decode32Local(pre, 0, x);
      var key, t := Decode32(pre).value, Decode32(pre).rest;
      RecordLocal(fields, st, key, t, x);
      var next := DecodeRecord(fields, st, key, t);
      RunThen(fields, next.value, next.rest, x);
    }
  }

  /** A field number and the payload that its wire type calls for, by the wire format. */
  ghost predicate WellFormedRecord(tag: nat, wire: nat, payload: seq<Byte>) {
    1 <= tag < 0x2000_0000 && IsSkippable(wire, payload)
  }

  lemma {:induction false} WellFormedSkips(tag: nat, wire: nat, payload: seq<Byte>)
    requires WellFormedRecord(tag, wire, payload)
    ensures wire < 8 && Skip(wire, payload) == Ok((), [])
  {
    SkipExact(wire, payload, |payload|);
    assert payload[..|payload|] == payload;
  }

  /** Delimited bytes with a 32-bit length can be skipped. */
  lemma {:induction false} DelimitedSkippable(b: seq<Byte>)
    requires |b| < TWO_32
    ensures IsSkippable(2, Delimited(b))
  {
    var p := Delimited(b);
    Decode32Small(|b|, b);
    SkipExact(2, p, |p|);
    assert p[..|p|] == p && b[|b|..] == [] == p[|p|..];
  }

  lemma {:induction false} UnknownRecord(fields: seq<Field>, st: Decoding, tag: nat, wire: nat, s: seq<Byte>,
                                         x: seq<Byte>)
    requires |st.slots| == |fields| && tag >= 1 && wire < 8 && Find(fields, tag).None? && Skip(wire, s) == Ok((), x)
    ensures DecodeRecord(fields, st, 8 * tag + wire, s) == Ok(st, x)
  {
    assert (8 * tag + wire) / 8 == tag && (8 * tag + wire) % 8 == wire;
  }

  lemma {:induction false} UnknownSkipped(fields: seq<Field>, st: Decoding, tag: nat, wire: nat, payload: seq<Byte>,
                                          x: seq<Byte>)
    requires |st.slots| == |fields| && WellFormedRecord(tag, wire, payload)
    requires forall i :: 0 <= i < |fields| ==> fields[i].tag != tag
    ensures DecodeLoop(fields, st, Tag(tag, wire) + payload + x) == DecodeLoop(fields, st, x)
  {
    assert Tag(tag, wire) + payload + x == Tag(tag, wire) + (payload + x);
    WellFormedSkips(tag, wire, payload);
    RoundTrip.KeyStep(fields, st, tag, wire, payload + x);
    SkipLocal(wire, payload, x);
    assert [] + x == x;
    UnknownRecord(fields, st, tag, wire, payload + x, x);
  }

  /** Behind the key of an unknown field the decoder goes on right behind the payload that the wire type calls for, and
      fails if there is none. */
  lemma {:induction false} UnknownExact(fields: seq<Field>, st: Decoding, tag: nat, wire: nat, s: seq<Byte>)
    requires |st.slots| == |fields| && 1 <= tag < 0x2000_0000 && wire < 8
    requires forall i :: 0 <= i < |fields| ==> fields[i].tag != tag
    ensures forall m :: 0 <= m <= |s| && IsSkippable(wire, s[..m]) ==>
      DecodeLoop(fields, st, Tag(tag, wire) + s) == DecodeLoop(fields, st, s[m..])
    ensures (forall m :: 0 <= m <= |s| ==> !IsSkippable(wire, s[..m])) ==>
      DecodeLoop(fields, st, Tag(tag, wire) + s).Failure?
  {
    RoundTrip.KeyStep(fields, st, tag, wire, s);
    forall m | 0 <= m <= |s| && IsSkippable(wire, s[..m])
      ensures DecodeLoop(fields, st, Tag(tag, wire) + s) == DecodeLoop(fields, st, s[m..])
    {
      SkipExact(wire, s, m);
      UnknownRecord(fields, st, tag, wire, s, s[m..]);
    }
    if forall m :: 0 <= m <= |s| ==> !IsSkippable(wire, s[..m]) {
      SkipNothing(wire, s);
    }
  }

  /** Inserting a record with an unknown field number behind any number of whole records changes
      neither success nor the resulting struct, whatever stands behind it. */
  lemma {:induction false} UnknownFieldIgnored(fields: seq<Field>, slots: seq<Slot>, pre: seq<Byte>, tag: nat,
                                               wire: nat, payload: seq<Byte>, post: seq<Byte>)
    requires |slots| == |fields| && Run(fields, Start(slots), pre).Some? && WellFormedRecord(tag, wire, payload)
    requires forall i :: 0 <= i < |fields| ==> fields[i].tag != tag
    ensures DecodeMessage(fields, slots, pre + (Tag(tag, wire) + payload + post)) ==
      DecodeMessage(fields, slots, pre + post)
  {
    var st := Start(slots);
    RunThen(fields, st, pre, Tag(tag, wire) + payload + post);
    RunThen(fields, st, pre, post);
    UnknownSkipped(fields, Run(fields, st, pre).value, tag, wire, payload, post);
  }

  // ----- required fields -----

  /** The field numbers of the records the decoder reads. */
  function TagsRead(fields: seq<Field>, st: Decoding, s: seq<Byte>): (tags: set<nat>)
    requires |st.slots| == |fields|
    decreases |s|
  {
    if s == [] || Decode32(s).Err? || Decode32(s).value == 0 then {}
    else
      var key := Decode32(s).value;
      match DecodeRecord(fields, st, key, Decode32(s).rest)
      case Err(_) => {}
      case Ok(st', rest) => {key / 8} + TagsRead(fields, st', rest)
  }

  lemma {:induction false} RecordSeen(fields: seq<Field>, st: Decoding, key: nat, s: seq<Byte>, i: nat)
    requires Valid(fields) && |st.slots| == |fields| && i < |fields| && fields[i].rule.Required?
    requires RequiredBefore(fields, i) < MAX_REQUIRED_FIELDS && DecodeRecord(fields, st, key, s).Ok?
    ensures RequiredBefore(fields, i) in DecodeRecord(fields, st, key, s).value.seen <==>
      RequiredBefore(fields, i) in st.seen || fields[i].tag == key / 8
  {
    match Find(fields, key / 8)
    case None =>
    case Some(j) =>
      assert DecodeRecord(fields, st, key, s) == DecodeField(fields, st, j, key % 8, s);
      if j != i {
        assert fields[i].tag != fields[j].tag;
        if fields[j].rule.Required? {
          RequiredDistinct(fields, i, j);
        }
      }
  }

  lemma {:induction false} SeenIsRead(fields: seq<Field>, st: Decoding, s: seq<Byte>, i: nat)
    requires Valid(fields) && |st.slots| == |fields| && i < |fields| && fields[i].rule.Required?
    requires RequiredBefore(fields, i) < MAX_REQUIRED_FIELDS && DecodeLoop(fields, st, s).Success?
    ensures RequiredBefore(fields, i) in DecodeLoop(fields, st, s).value.seen <==>
      RequiredBefore(fields, i) in st.seen || fields[i].tag in TagsRead(fields, st, s)
    decreases |s|
  {
    if s != [] && Decode32(s).value != 0 {
      var key, t := Decode32(s).value, Decode32(s).rest;
      var next := DecodeRecord(fields, st, key, t);
      RecordSeen(fields, st, key, t, i);
      SeenIsRead(fields, next.value, next.rest, i);
    }
  }

  lemma {:induction false} RequiredDistinct(fields: seq<Field>, i: nat, j: nat)
    requires i < |fields| && j < |fields| && i != j && fields[i].rule.Required? && fields[j].rule.Required?
    ensures RequiredBefore(fields, i) != RequiredBefore(fields, j)
  {
    if i < j { RequiredMonotone(fields, i, j); } else { RequiredMonotone(fields, j, i); }
  }

  /** Without another error, decoding succeeds exactly when each of the first 64 required fields
      was read; later required fields are not checked. */
  lemma {:induction false} RequiredFieldsChecked(fields: seq<Field>, slots: seq<Slot>, s: seq<Byte>)
    requires Valid(fields) && |slots| == |fields|
    requires DecodeLoop(fields, Start(slots), s).Success?
    requires FixedComplete(fields, DecodeLoop(fields, Start(slots), s).value)
    ensures DecodeMessage(fields, slots, s).Success? <==>
      forall i :: 0 <= i < |fields| && fields[i].rule.Required? && RequiredBefore(fields, i) < 64 ==>
        fields[i].tag in TagsRead(fields, Start(slots), s)
    ensures DecodeMessage(fields, slots, s).Failure? ==> DecodeMessage(fields, slots, s).error == MissingRequired
  {
    var st := Start(slots);
    var seen := DecodeLoop(fields, st, s).value.seen;
    forall i | 0 <= i < |fields| && fields[i].rule.Required? && RequiredBefore(fields, i) < MAX_REQUIRED_FIELDS
      ensures fields[i].tag in TagsRead(fields, st, s) <==> RequiredBefore(fields, i) in seen
      ensures RequiredBefore(fields, i) < RequiredBefore(fields, |fields|)
    {
      SeenIsRead(fields, st, s, i);
      RequiredMonotone(fields, i, |fields|);
    }
    if !RequiredSeen(fields, seen) {
      var r :| 0 <= r < RequiredBefore(fields, |fields|) && r < MAX_REQUIRED_FIELDS && r !in seen;
      var i := RoundTrip.RequiredAt(fields, r, |fields|);
    }
  }
}
