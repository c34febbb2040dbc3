/** pb_decode over input streams, proved against DecodeSpec. */
module PbDecode {
  import opened Common
  import opened Varint
  import opened Schema
  import opened DecodeSpec
  import opened IStream
  import opened FieldIter
  import opened RequiredBits

  /** The destination struct. */
  class Struct {
    var slots: seq<Slot>

    constructor (slots: seq<Slot>)
      ensures this.slots == slots
    {
      this.slots := slots;
    }
  }

  // ----- pb_message_set_to_defaults -----

  method SetToDefaults(fields: seq<Field>) returns (slots: seq<Slot>)
    ensures slots == Defaults(fields)
    decreases fields, 0
  {
    slots := [];
    for i := 0 to |fields|
      invariant |slots| == i && forall k :: 0 <= k < i ==> slots[k] == DefaultSlot(fields[k])
    {
      var s := SetFieldToDefault(fields[i]);
      slots := slots + [s];
    }
  }

  /** pb_field_set_to_default. */
  method SetFieldToDefault(f: Field) returns (s: Slot)
    ensures s == DefaultSlot(f)
    decreases f
  {
    var init, v := !(f.rule.Repeated? || f.rule.FixedCount? || f.rule.OneOf?), Undef;
    if init {
      if f.kind.Sub? {
        var slots := SetToDefaults(f.kind.fields);
        v := Msg(slots);
      } else {
        v := f.dflt;
      }
    }
    match f.rule
    case Required => s := One(v);
    case Singular => s := One(v);
    case Optional => s := Opt(false, v);
    case Repeated(_) => s := Many([]);
    case FixedCount(n) => s := Fixed(seq(n, _ => Undef));
    case OneOf(_) => s := Choice(None);
  }

  // ----- single values -----

  /** The cast to the field's size and the comparison behind it. */
  method Clamp(v: int, lo: int, hi: int) returns (ok: bool, w: Value)
    requires lo < hi
    ensures ok == (lo <= v < hi) && (ok ==> w == Num(v))
  {
    var clamped := lo + (v - lo) % (hi - lo);
    Truncated(v - lo, hi - lo);
    ok, w := clamped == v, Num(clamped);
  }

  lemma {:induction false} Truncated(x: int, n: int)
    requires n > 0
    ensures x % n == x <==> 0 <= x < n
  {
  }

  /** pb_dec_varint, pb_dec_uvarint and pb_dec_svarint. */
  method GetInteger(input: Stream, kind: Kind) returns (ok: bool, v: Value)
    requires input.Valid() && (kind.Int? || kind.UInt? || kind.SInt?)
    modifies input
    ensures input.Valid() && input.End() == old(input.End())
    ensures Reads(ReadInteger(kind, old(input.Rest())), ok, v, input.Rest())
  {
    v := Undef;
    var u;
    ok, u := input.Varint64();
    if !ok {
      return;
    }
    if !ValidSize(kind.size) {
      return false, v;
    }
    var half := Half(kind.size);
    match kind
    case UInt(_) => ok, v := Clamp(u, 0, 2 * half);
    case SInt(_) => ok, v := Clamp(UnZigZag(u % TWO_64), -half, half);
    case Int(size) => ok, v := Clamp(Signed(u, if size == 8 then TWO_63 else TWO_31), -half, half);
  }

  /** pb_dec_bytes, pb_dec_string and pb_dec_fixed_length_bytes. */
  method GetBlob(input: Stream, kind: Kind) returns (ok: bool, v: Value)
    requires input.Valid() && (kind.Bytes? || kind.Str? || kind.FixedBytes?)
    modifies input
    ensures input.Valid() && input.End() == old(input.End())
    ensures Reads(ReadBlob(kind, old(input.Rest())), ok, v, input.Rest())
  {
    v := Undef;
    var n, b;
    ok, n := input.Varint32();
    if !ok {
      return;
    }
    assert n < TWO_32 by { Decode32Range(old(input.Rest()), 0); Rooms(); }
    match kind
    case Bytes(cap) =>
      if n > cap {
        return false, v;
      }
      ok, b := input.Read(n);
      v := Blob(b);
    case Str(size) =>
      var alloc := if n + 1 == TWO_32 then 0 else n + 1;
      if alloc < n || alloc > size {
        return false, v;
      }
      ok, b := input.Read(n);
      v := Blob(b + [0]);
    case FixedBytes(size) =>
      if n == 0 {
        return true, Blob(seq(size, _ => 0));
      }
      if n != size {
        return false, v;
      }
      ok, b := input.Read(n);
      v := Blob(b);
  }

  /** The PB_DECODERS table. */
  method GetValue(input: Stream, kind: Kind, inArray: bool, was: Value) returns (ok: bool, v: Value)
    requires input.Valid() && ValidKind(kind)
    modifies input
    ensures input.Valid() && input.End() <= old(input.End()) && (ok ==> input.End() == old(input.End()))
    ensures Reads(DecodeValue(kind, inArray, was, old(input.Rest())), ok, v, input.Rest())
    decreases kind, 0
  {
    var n, b;
    match kind
    case Bool =>
      ok, n := input.Varint32();
      v := Num(if n != 0 then 1 else 0);
    case Fixed32 =>
      ok, b := input.Read(4);
      v := Num(FromLittleEndian(b));
    case Fixed64 =>
      ok, b := input.Read(8);
      v := Num(FromLittleEndian(b));
    case Int(_) => ok, v := GetInteger(input, kind);
    case UInt(_) => ok, v := GetInteger(input, kind);
    case SInt(_) => ok, v := GetInteger(input, kind);
    case Bytes(_) => ok, v := GetBlob(input, kind);
    case Str(_) => ok, v := GetBlob(input, kind);
    case FixedBytes(_) => ok, v := GetBlob(input, kind);
    case Sub(fields) =>
      ghost var s := input.Rest();
      ok, v := GetSub(input, fields, inArray, was);
      SubMeans(fields, inArray, was, s, ok, v, input.Rest());
  }

  /** pb_decode_noinit on a struct. The definition unfolds only where DecodeMessage is named. */
  ghost predicate Decodes(fields: seq<Field>, slots: seq<Slot>, s: seq<Byte>, ok: bool, out: seq<Slot>) {
    && |slots| == |fields|
    && forall t :: t == s ==> var r := DecodeMessage(fields, slots, t); ok == r.Success? && (ok ==> out == r.value)
  }

  lemma {:induction false} MessageMeans(fields: seq<Field>, slots: seq<Slot>, s: seq<Byte>)
    requires |slots| == |fields|
    ensures var r := DecodeLoop(fields, Start(slots), s);
      var ok := r.Success? && FixedComplete(fields, r.value) && RequiredSeen(fields, r.value.seen);
      Decodes(fields, slots, s, ok, if ok then r.value.slots else [])
      && forall out :: !ok ==> Decodes(fields, slots, s, ok, out)
  {
    var m := DecodeMessage(fields, slots, s);
  }

  function Initial(fields: seq<Field>, inArray: bool, was: Value): (slots: seq<Slot>)
    ensures |slots| == |fields|
  {
    if inArray then Defaults(fields) else Into(fields, was)
  }

  method InitialSlots(fields: seq<Field>, inArray: bool, was: Value) returns (slots: seq<Slot>)
    ensures slots == Initial(fields, inArray, was)
  {
    slots := Into(fields, was);
    if inArray {
      slots := SetToDefaults(fields);
    }
  }

  ghost predicate SubReads(fields: seq<Field>, inArray: bool, was: Value, s: seq<Byte>, ok: bool, v: Value,
                           rest: seq<Byte>) {
    var r := ReadDelimited(s);
    if r.Err? then !ok
    else v.Msg? && Decodes(fields, Initial(fields, inArray, was), r.value, ok, v.slots) && (ok ==> rest == r.rest)
  }

  lemma {:induction false} SubMeans(fields: seq<Field>, inArray: bool, was: Value, s: seq<Byte>, ok: bool, v: Value,
                                    rest: seq<Byte>)
    requires SubReads(fields, inArray, was, s, ok, v, rest)
    ensures Reads(DecodeValue(Sub(fields), inArray, was, s), ok, v, rest)
  {
    var r := ReadDelimited(s);
    if r.Ok? {
      var m := DecodeMessage(fields, Initial(fields, inArray, was), r.value);
    }
  }

  /** pb_dec_submessage: array entries are initialised first. */
  method GetSub(input: Stream, fields: seq<Field>, inArray: bool, was: Value) returns (ok: bool, v: Value)
    requires input.Valid() && Valid(fields)
    modifies input
    ensures input.Valid() && input.End() <= old(input.End()) && (ok ==> input.End() == old(input.End()))
    ensures SubReads(fields, inArray, was, old(input.Rest()), ok, v, input.Rest())
    decreases fields, 4
  {
    v := Undef;
    var sub;
    ok, sub := input.MakeSubstream();
    if !ok {
      return;
    }
    var slots := InitialSlots(fields, inArray, was);
    var dest := new Struct(slots);
    ok := DecodeNoInit(sub, fields, dest);
    input.CloseSubstream(sub);
    v := Msg(dest.slots);
  }

  /** pb_decode_noinit: merge the input into the struct. */
  method DecodeNoInit(input: Stream, fields: seq<Field>, dest: Struct) returns (ok: bool)
    requires input.Valid() && Valid(fields) && |dest.slots| == |fields|
    modifies input, dest
    ensures input.Valid() && input.End() <= old(input.End()) && (ok ==> input.End() == old(input.End()))
    ensures Decodes(fields, old(dest.slots), old(input.Rest()), ok, dest.slots)
    decreases fields, 3
  {
    var d := new Decoder(fields, dest);
    ghost var slots, s := dest.slots, input.Rest();
    ghost var st;
    ok, st := d.Records(input);
    if ok {
      ok := d.Complete(st);
    }
    MessageMeans(fields, slots, s);
  }

  // ----- arrays -----

  /** With vs read, the rest of the array completes it to `goal`. Unfolds where DecodePacked is named. */
  ghost predicate Completes(kind: Kind, room: nat, vs: seq<Value>, s: seq<Byte>, goal: Outcome<seq<Value>>) {
    && |vs| <= room
    && forall n: nat, t :: n == room - |vs| && t == s ==> goal == Prepend(vs, DecodePacked(kind, n, t))
  }

  ghost function Prepend(vs: seq<Value>, r: Outcome<seq<Value>>): (t: Outcome<seq<Value>>) {
    if r.Success? then Success(vs + r.value) else r
  }

  lemma {:induction false} PackedStart(kind: Kind, room: nat, s: seq<Byte>)
    ensures Completes(kind, room, [], s, DecodePacked(kind, room, s))
  {
    var r := DecodePacked(kind, room, s);
    assert r.Success? ==> [] + r.value == r.value;
  }

  /** The first element of a packed array and the others. */
  lemma {:induction false} PackedUnfold(kind: Kind, n: nat, s: seq<Byte>)
    requires s != [] && n > 0
    ensures var r := DecodeValue(kind, true, Undef, s);
      DecodePacked(kind, n, s) ==
        if r.Err? then Failure(r.error) else Prepend([r.value], DecodePacked(kind, n - 1, r.rest))
  {
  }

  lemma {:induction false} PrependTwice(vs: seq<Value>, v: Value, r: Outcome<seq<Value>>)
    ensures Prepend(vs, Prepend([v], r)) == Prepend(vs + [v], r)
  {
    if r.Success? { Regroup(vs, [v], r.value); }
  }

  /** d is what is left to decode. Unfolds where DecodePacked is named. */
  ghost predicate IsPacked(kind: Kind, n: nat, s: seq<Byte>, d: Outcome<seq<Value>>) {
    forall m: nat :: m == n ==> d == DecodePacked(kind, m, s)
  }

  lemma {:induction false} CompletesWith(kind: Kind, room: nat, vs: seq<Value>, s: seq<Byte>, goal: Outcome<seq<Value>>)
    returns (d: Outcome<seq<Value>>)
    requires Completes(kind, room, vs, s, goal)
    ensures IsPacked(kind, room - |vs|, s, d) && goal == Prepend(vs, d)
  {
    d := DecodePacked(kind, room - |vs|, s);
  }

  lemma {:induction false} CompletesBy(kind: Kind, room: nat, vs: seq<Value>, s: seq<Byte>, d: Outcome<seq<Value>>)
    requires |vs| <= room && IsPacked(kind, room - |vs|, s, d)
    ensures Completes(kind, room, vs, s, Prepend(vs, d))
  {
    assert d == DecodePacked(kind, room - |vs|, s);
  }

  lemma {:induction false} PackedNext(kind: Kind, n: nat, s: seq<Byte>, d: Outcome<seq<Value>>, ok: bool, v: Value,
                                      rest: seq<Byte>) returns (e: Outcome<seq<Value>>)
    requires IsPacked(kind, n, s, d) && s != [] && n > 0 && Reads(DecodeValue(kind, true, Undef, s), ok, v, rest)
    ensures if ok then IsPacked(kind, n - 1, rest, e) && d == Prepend([v], e) else d.Failure?
  {
    var r := DecodeValue(kind, true, Undef, s);
    assert d == DecodePacked(kind, n, s);
    assert d == if r.Err? then Failure(r.error) else Prepend([r.value], DecodePacked(kind, n - 1, r.rest)) by {
      PackedUnfold(kind, n, s);
    }
    e := if ok then DecodePacked(kind, n - 1, rest) else d;
  }

  lemma {:induction false} PackedStep(kind: Kind, room: nat, vs: seq<Value>, s: seq<Byte>, goal: Outcome<seq<Value>>,
                                      ok: bool, v: Value, rest: seq<Byte>)
    requires Completes(kind, room, vs, s, goal) && s != [] && |vs| < room
    requires Reads(DecodeValue(kind, true, Undef, s), ok, v, rest)
    ensures if ok then Completes(kind, room, vs + [v], rest, goal) else goal.Failure?
  {
    var d := CompletesWith(kind, room, vs, s, goal);
    var e := PackedNext(kind, room - |vs|, s, d, ok, v, rest);
    if ok {
      PrependTwice(vs, v, e);
      CompletesBy(kind, room, vs + [v], rest, e);
    }
  }

  lemma {:induction false} PackedEnd(kind: Kind, room: nat, vs: seq<Value>, s: seq<Byte>, goal: Outcome<seq<Value>>)
    requires Completes(kind, room, vs, s, goal) && (s == [] || |vs| == room)
    ensures if s == [] then goal == Success(vs) else goal.Failure?
  {
    var r := DecodePacked(kind, room - |vs|, s);
    assert vs + [] == vs;
  }

  /** The loop over a packed array and the test behind it. */
  method GetPacked(sub: Stream, kind: Kind, room: nat) returns (ok: bool, vs: seq<Value>)
    requires sub.Valid() && ValidKind(kind)
    modifies sub
    ensures sub.Valid() && sub.End() <= old(sub.End()) && (ok ==> sub.End() == old(sub.End()))
    ensures var r := DecodePacked(kind, room, old(sub.Rest()));
      ok == r.Success? && (ok ==> vs == r.value)
    decreases kind, 1
  {
    vs, ok := [], true;
    ghost var goal := DecodePacked(kind, room, sub.Rest());
    PackedStart(kind, room, sub.Rest());
    while sub.left > 0 && |vs| < room
      invariant sub.Valid() && sub.End() == old(sub.End())
      invariant Completes(kind, room, vs, sub.Rest(), goal)
      decreases room - |vs|
    {
      ghost var s := sub.Rest();
      var v;
      ok, v := GetValue(sub, kind, true, Undef);
      PackedStep(kind, room, vs, s, goal, ok, v, sub.Rest());
      if !ok {
        return;
      }
      vs := vs + [v];
    }
    PackedEnd(kind, room, vs, sub.Rest(), goal);
    ok := sub.left == 0;
  }

  /** The elements of one record of an array field. */
  method GetElements(input: Stream, f: Field, filled: nat, max: nat, wire: nat) returns (ok: bool, vs: seq<Value>)
    requires input.Valid() && ValidField(f)
    modifies input
    ensures input.Valid() && input.End() <= old(input.End()) && (ok ==> input.End() == old(input.End()))
    ensures Reads(DecodeElements(f, filled, max, wire, old(input.Rest())), ok, vs, input.Rest())
    decreases f, 0
  {
    vs := [];
    if wire == 2 && Packable(f.kind) {
      var sub;
      ok, sub := input.MakeSubstream();
      if !ok {
        return;
      }
      ok, vs := GetPacked(sub, f.kind, if filled < max then max - filled else 0);
      if ok {
        input.CloseSubstream(sub);
      }
    } else {
      if filled >= max {
        return false, [];
      }
      var v;
      ok, v := GetValue(input, f.kind, true, Undef);
      vs := [v];
    }
  }

  /** An array field: the count is in the struct, or kept by pb_decode_noinit. */
  method GetArray(input: Stream, f: Field, slot: Slot, filled: nat, wire: nat) returns (ok: bool, s: Slot, added: nat)
    requires input.Valid() && ValidField(f) && (f.rule.Repeated? || f.rule.FixedCount?)
    modifies input
    ensures input.Valid() && input.End() <= old(input.End()) && (ok ==> input.End() == old(input.End()))
    ensures Reads(DecodeSlot(f, slot, filled, wire, old(input.Rest())), ok, (s, added), input.Rest())
    decreases f, 1
  {
    s, added := slot, 0;
    var vs;
    ghost var b := input.Rest();
    if f.rule.Repeated? {
      var was := Elements(slot);
      ok, vs := GetElements(input, f, |was|, f.rule.max, wire);
      s, added := Many(was + vs), |vs|;
      RepeatedReads(f, slot, filled, wire, b, ok, vs, input.Rest());
    } else {
      var n := f.rule.n;
      var was := if |Elements(slot)| == n then Elements(slot) else seq(n, _ => Undef);
      ok, vs := GetElements(input, f, filled, n, wire);
      CountedReads(f, slot, filled, wire, b, ok, vs, input.Rest());
      if ok {
        s, added := Fixed(if vs == [] then was else was[..filled] + vs + was[filled + |vs|..]), |vs|;
      }
    }
  }

  lemma {:induction false} RepeatedReads(f: Field, slot: Slot, filled: nat, wire: nat, b: seq<Byte>, ok: bool,
                                         vs: seq<Value>, rest: seq<Byte>)
    requires f.rule.Repeated? && Reads(DecodeElements(f, |Elements(slot)|, f.rule.max, wire, b), ok, vs, rest)
    ensures Reads(DecodeSlot(f, slot, filled, wire, b), ok, (Many(Elements(slot) + vs), |vs|), rest)
  {
  }

  lemma {:induction false} CountedReads(f: Field, slot: Slot, filled: nat, wire: nat, b: seq<Byte>, ok: bool,
                                        vs: seq<Value>, rest: seq<Byte>)
    requires f.rule.FixedCount? && Reads(DecodeElements(f, filled, f.rule.n, wire, b), ok, vs, rest)
    ensures ok && vs != [] ==> filled + |vs| <= f.rule.n
    ensures !ok ==> DecodeSlot(f, slot, filled, wire, b).Err?
    ensures ok ==>
      var was := if |Elements(slot)| == f.rule.n then Elements(slot) else seq(f.rule.n, _ => Undef);
      var s := Fixed(if vs == [] then was else was[..filled] + vs + was[filled + |vs|..]);
      DecodeSlot(f, slot, filled, wire, b) == Ok((s, |vs|), rest)
  {
  }

  /** decode_static_field on the storage of one field. */
  method GetSlot(input: Stream, f: Field, slot: Slot, filled: nat, wire: nat) returns (ok: bool, s: Slot, added: nat)
    requires input.Valid() && ValidField(f)
    modifies input
    ensures input.Valid() && input.End() <= old(input.End()) && (ok ==> input.End() == old(input.End()))
    ensures Reads(DecodeSlot(f, slot, filled, wire, old(input.Rest())), ok, (s, added), input.Rest())
    decreases f, 2
  {
    if f.rule.Repeated? || f.rule.FixedCount? {
      ok, s, added := GetArray(input, f, slot, filled, wire);
      return;
    }
    added := 0;
    var v;
    ok, v := GetValue(input, f.kind, false, Stored(slot));
    s := if f.rule.Optional? then Opt(true, v) else if f.rule.OneOf? then Choice(Some(v)) else One(v);
  }

  // ----- messages -----

  predicate Current(fields: seq<Field>, st: Decoding, i: nat)
    requires i < |fields|
  {
    fields[i].rule.FixedCount? && st.fixedField == Some(i)
  }

  ghost predicate Admits(fields: seq<Field>, st: Decoding, i: nat)
    requires i < |fields|
  {
    fields[i].rule.FixedCount? && !Current(fields, st, i) ==> FixedComplete(fields, st)
  }

  function Filled(fields: seq<Field>, st: Decoding, i: nat): (n: nat)
    requires i < |fields|
  {
    if Current(fields, st, i) then st.fixedSize else 0
  }

  function Entered(fields: seq<Field>, st: Decoding, i: nat): (r: Decoding)
    requires i < |fields|
  {
    var st' := Marked(fields, st, i);
    if fields[i].rule.FixedCount? then st'.(fixedField := Some(i), fixedSize := Filled(fields, st, i)) else st'
  }

  function Placed(fields: seq<Field>, st: Decoding, i: nat, slot: Slot, added: nat): (r: Decoding)
    requires i < |fields| == |st.slots|
  {
    var st' := Received(fields, st, i, slot);
    if fields[i].rule.FixedCount? then st'.(fixedSize := st.fixedSize + added) else st'
  }

  /** The local variables of pb_decode_noinit. */
  class Decoder {
    const fields: seq<Field>
    const dest: Struct
    const iter: Iterator
    const seen: Bitmap
    var fixedField: Option<nat>
    var fixedSize: nat

    /** The variables hold the state st. Nothing is required of an empty descriptor, whose bitmap is
        not looked at. */
    ghost predicate Holds(st: Decoding)
      reads this, dest, iter, seen, seen.words
    {
      && Valid(fields) && iter.fields == fields && iter.Valid() && seen.Valid()
      && dest.slots == st.slots && |st.slots| == |fields|
      && fixedField == st.fixedField && fixedSize == st.fixedSize
      && (fixedField.Some? ==> fixedField.value < |fields| && fields[fixedField.value].rule.FixedCount?)
      && (fields != [] ==> seen.Seen() == st.seen)
      && (forall r :: r in st.seen ==> r < RequiredBefore(fields, |fields|))
    }

    constructor (fields: seq<Field>, dest: Struct)
      requires Valid(fields) && |dest.slots| == |fields|
      ensures this.fields == fields && this.dest == dest && Holds(Start(dest.slots))
      ensures fresh(iter) && fresh(seen.words)
    {
      this.fields, this.dest := fields, dest;
      iter := new Iterator(fields);
      seen := new Bitmap();
      fixedField, fixedSize := None, 0;
    }

    /** The previous fixed-count array is complete. */
    method FixedDone(ghost st: Decoding) returns (b: bool)
      requires Holds(st)
      ensures b == FixedComplete(fields, st)
    {
      b := fixedField.None? || fixedSize == fields[fixedField.value].rule.n;
    }

    /** Before a field is decoded: a fixed-count array becomes the current one, and a required field
        is marked as seen. */
    method Enter(ghost st: Decoding) returns (ok: bool, filled: nat)
      requires Holds(st) && iter.pos < |fields|
      modifies this, seen.words
      ensures ok == Admits(fields, st, iter.pos)
      ensures ok ==> Holds(Entered(fields, st, iter.pos)) && filled == Filled(fields, st, iter.pos)
    {
      var i, f := iter.pos, fields[iter.pos];
      ok, filled := true, 0;
      if f.rule.FixedCount? {
        if fixedField != Some(i) {
          ok := FixedDone(st);
          if !ok {
            return;
          }
          fixedField, fixedSize := Some(i), 0;
        }
        filled := fixedSize;
      }
      if f.rule.Required? { RequiredMonotone(fields, i, |fields|); }
      if f.rule.Required? && iter.required < MAX_REQUIRED_FIELDS {
        seen.Mark(iter.required);
      }
    }

    /** The decoded value is in place. */
    method Store(slot: Slot, added: nat, ghost st: Decoding)
      requires Holds(st) && iter.pos < |fields|
      requires fields[iter.pos].rule.FixedCount? ==> fixedField == Some(iter.pos)
      modifies this, dest
      ensures Holds(Placed(fields, st, iter.pos, slot, added))
    {
      var i := iter.pos;
      dest.slots := Deselect(fields, dest.slots, i)[i := slot];
      if fields[i].rule.FixedCount? {
        fixedSize := fixedSize + added;
      }
    }

    /** The field that the iterator found. */
    method Field(input: Stream, wire: nat, ghost st: Decoding) returns (ok: bool, ghost st': Decoding)
      requires Holds(st) && iter.pos < |fields| && input.Valid()
      modifies this, dest, seen.words, input
      ensures input.Valid() && input.End() <= old(input.End()) && (ok ==> input.End() == old(input.End()))
      ensures Reads(DecodeField(fields, st, iter.pos, wire, old(input.Rest())), ok, st', input.Rest())
      ensures ok ==> Holds(st')
      decreases fields, 0
    {
      ghost var s := input.Rest();
      var filled, slot, added;
      st' := st;
      ok, filled := Enter(st);
      if !ok {
        return;
      }
      ok, slot, added := GetSlot(input, fields[iter.pos], dest.slots[iter.pos], filled, wire);
      if ok {
        st' := Placed(fields, Entered(fields, st, iter.pos), iter.pos, slot, added);
        Store(slot, added, Entered(fields, st, iter.pos));
      }
    }

    /** The placeholder of an empty descriptor, found by field number zero: a required bool. */
    method Placeholder(input: Stream, ghost st: Decoding) returns (ok: bool)
      requires Holds(st) && fields == [] && input.Valid()
      modifies seen.words, input
      ensures input.Valid() && input.End() == old(input.End()) && Holds(st)
      ensures ok == Decode32(old(input.Rest())).Ok? && (ok ==> input.Rest() == Decode32(old(input.Rest())).rest)
    {
      seen.Mark(0);
      var n;
      ok, n := input.Varint32();
    }

    /** One record behind its key. */
    method Record(input: Stream, key: nat, ghost st: Decoding) returns (ok: bool, ghost st': Decoding)
      requires Holds(st) && input.Valid()
      modifies this, dest, iter, seen.words, input
      ensures input.Valid() && input.End() <= old(input.End()) && (ok ==> input.End() == old(input.End()))
      ensures Reads(DecodeRecord(fields, st, key, old(input.Rest())), ok, st', input.Rest())
      ensures ok ==> Holds(st')
      decreases fields, 1
    {
      st' := st;
      var tag, wire := key / 8, key % 8;
      var found := iter.Find(tag);
      if !found {
        ok := input.SkipField(wire);
        return;
      }
      if iter.pos == |fields| {
        ok := Placeholder(input, st);
      } else {
        FindUnique(fields, iter.pos);
        ok, st' := Field(input, wire, st);
      }
    }

    /** The loop over the records. */
    method Records(input: Stream) returns (ok: bool, ghost st: Decoding)
      requires Holds(Start(dest.slots)) && input.Valid()
      modifies this, dest, iter, seen.words, input
      ensures input.Valid() && input.End() <= old(input.End()) && (ok ==> input.End() == old(input.End()))
      ensures ok == DecodeLoop(fields, Start(old(dest.slots)), old(input.Rest())).Success?
      ensures ok ==> Holds(st) && st == DecodeLoop(fields, Start(old(dest.slots)), old(input.Rest())).value
      decreases fields, 2
    {
      ghost var goal := DecodeLoop(fields, Start(dest.slots), input.Rest());
      st := Start(dest.slots);
      assert Leads(fields, st, input.Rest(), goal);
      while input.left > 0
        invariant Holds(st) && input.Valid() && input.End() == old(input.End())
        invariant Leads(fields, st, input.Rest(), goal)
        decreases input.left
      {
        ghost var s := input.Rest();
        LeadsEnd(fields, st, s, goal);
        var key;
        ok, key := input.Varint32();
        if !ok || key == 0 {
          return;
        }
        ghost var t, next := input.Rest(), st;
        ok, next := Record(input, key, st);
        LeadsStep(fields, st, s, goal, key, t, ok, next, input.Rest());
        if !ok {
          return;
        }
        st := next;
      }
      LeadsEnd(fields, st, input.Rest(), goal);
      ok := true;
    }

    /** The checks behind the loop. */
    method Complete(ghost st: Decoding) returns (ok: bool)
      requires Holds(st)
      modifies iter
      ensures ok == (FixedComplete(fields, st) && RequiredSeen(fields, st.seen))
    {
      ok := FixedDone(st);
      if !ok {
        return;
      }
      var count := iter.CountRequired();
      if count > 0 {
        assert fields != [];
        ok := seen.AllSeen(count);
        assert seen.Seen() == st.seen;
      }
    }
  }

  /** Records still to come lead to `goal`. Unfolds where DecodeLoop is named. */
  ghost predicate Leads(fields: seq<Field>, st: Decoding, s: seq<Byte>, goal: Outcome<Decoding>) {
    |st.slots| == |fields| && forall t :: t == s ==> goal == DecodeLoop(fields, st, t)
  }

  /** Nothing is left, or the terminating zero key has been read. */
  lemma {:induction false} LeadsEnd(fields: seq<Field>, st: Decoding, s: seq<Byte>, goal: Outcome<Decoding>)
    requires Leads(fields, st, s, goal)
    ensures s == [] ==> goal == Success(st)
    ensures s != [] && Decode32(s).Err? ==> goal.Failure?
    ensures s != [] && Decode32(s).Ok? && Decode32(s).value == 0 ==> goal == Success(st)
  {
    var r := DecodeLoop(fields, st, s);
  }

  lemma {:induction false} LeadsStep(fields: seq<Field>, st: Decoding, s: seq<Byte>, goal: Outcome<Decoding>,
                                     key: nat, t: seq<Byte>, ok: bool, st': Decoding, rest: seq<Byte>)
    requires Leads(fields, st, s, goal) && s != [] && Decode32(s) == Ok(key, t) && key != 0
    requires Reads(DecodeRecord(fields, st, key, t), ok, st', rest)
    ensures if ok then Leads(fields, st', rest, goal) && |rest| < |s| else goal.Failure?
  {
    var r := DecodeLoop(fields, st, s);
    if ok { var more := DecodeLoop(fields, st', rest); }
  }

  // ----- pb_decode -----

  /** pb_decode: the struct is initialised, then the input is merged into it. */
  method Decode(input: Stream, fields: seq<Field>, dest: Struct) returns (ok: bool)
    requires input.Valid() && Valid(fields)
    modifies input, dest
    ensures input.Valid() && (ok ==> input.End() == old(input.End()))
    ensures Decodes(fields, Defaults(fields), old(input.Rest()), ok, dest.slots)
  {
    dest.slots := SetToDefaults(fields);
    ok := DecodeNoInit(input, fields, dest);
  }

  /** pb_istream_from_buffer and pb_decode. */
  method DecodeBytes(bytes: seq<Byte>, fields: seq<Field>) returns (ok: bool, slots: seq<Slot>)
    requires Valid(fields)
    ensures var r := DecodeFresh(fields, bytes);
      ok == r.Success? && (ok ==> slots == r.value)
  {
    var input := new Stream(bytes, 0, |bytes|);
    var dest := new Struct([]);
    assert input.Rest() == bytes;
    ok := Decode(input, fields, dest);
    slots := dest.slots;
  }
}
