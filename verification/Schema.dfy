/** Message descriptors of nanopb and the structs they describe.
    A descriptor is a finite tree of fields; a struct is one slot for each field. */
module Schema {
  import opened Common
  import opened Varint

  /** PB_LTYPE: how one value is stored and written. `size` is the data_size in bytes. */
  datatype Kind =
    | Bool
    | Int(size: nat)
    | UInt(size: nat)
    | SInt(size: nat)
    | Fixed32
    | Fixed64
    | Bytes(cap: nat)
    | Str(size: nat)
    | Sub(fields: seq<Field>)
    | FixedBytes(size: nat)

  /** PB_HTYPE, with the optional fields split by whether the struct has a has_ member and the
      repeated ones by whether it has a _count member. */
  datatype Rule =
    | Required
    | Optional
    | Singular
    | Repeated(max: nat)
    | FixedCount(n: nat)
    | OneOf(group: nat)

  /** `dflt` is what a field that is not a submessage is initialised to. */
  datatype Field = Field(tag: nat, rule: Rule, kind: Kind, dflt: Value)

  /** `Undef` is storage that initialisation does not touch. */
  datatype Value = Num(n: int) | Blob(bytes: seq<Byte>) | Msg(slots: seq<Slot>) | Undef

  /** The storage of one field: an array holds its live elements, and a member of a union
      holds a value exactly when the which_ member names it. */
  datatype Slot =
    | One(v: Value)
    | Opt(has: bool, v: Value)
    | Many(items: seq<Value>)
    | Fixed(items: seq<Value>)
    | Choice(sel: Option<Value>)

  predicate Packable(kind: Kind) {
    kind.Bool? || kind.Int? || kind.UInt? || kind.SInt? || kind.Fixed32? || kind.Fixed64?
  }

  predicate ValidSize(size: nat) {
    size == 1 || size == 2 || size == 4 || size == 8
  }

  /** Half the number of values of an integer of `size` bytes. */
  function Half(size: nat): (h: int)
    requires ValidSize(size)
    ensures h > 0
  {
    if size == 1 then 0x80 else if size == 2 then 0x8000 else if size == 4 then TWO_31 else TWO_63
  }

  function Zero(kind: Kind): (v: Value) {
    match kind
    case Bytes(_) => Blob([])
    case Str(_) => Blob([0])
    case FixedBytes(size) => Blob(seq(size, _ => 0))
    case _ => Num(0)
  }

  // ----- well-formed descriptors -----

  predicate ValidKind(kind: Kind)
    decreases kind
  {
    match kind
    case Int(size) => ValidSize(size)
    case UInt(size) => ValidSize(size)
    case SInt(size) => ValidSize(size)
    case Bytes(cap) => cap < TWO_32
    case Str(size) => size < TWO_32
    case FixedBytes(size) => size < TWO_32
    case Sub(fields) => Valid(fields)
    case _ => true
  }

  /** What the generator guarantees: distinct field numbers of at most 29 bits, storable sizes,
      and zero as the default of a field whose presence is its being non-zero. */
  predicate Valid(fields: seq<Field>)
    decreases fields
  {
    && (forall i :: 0 <= i < |fields| ==> ValidField(fields[i]))
    && (forall i, j :: 0 <= i < j < |fields| ==> fields[i].tag != fields[j].tag)
  }

  predicate ValidField(f: Field)
    decreases f
  {
    && 1 <= f.tag < 0x2000_0000
    && ValidKind(f.kind)
    && (f.rule.Repeated? ==> f.rule.max < TWO_32)
    && (f.rule.FixedCount? ==> f.rule.n < TWO_32)
    && (f.rule.Singular? && !f.kind.Sub? ==> f.dflt == Zero(f.kind))
  }

  // ----- structs that match a descriptor -----

  predicate TypedValue(kind: Kind, v: Value)
    decreases kind
  {
    match kind
    case Bool => v == Num(0) || v == Num(1)
    case Int(size) => v.Num? && ValidSize(size) && -Half(size) <= v.n < Half(size)
    case SInt(size) => v.Num? && ValidSize(size) && -Half(size) <= v.n < Half(size)
    case UInt(size) => v.Num? && ValidSize(size) && 0 <= v.n < 2 * Half(size)
    case Fixed32 => v.Num? && 0 <= v.n < TWO_32
    case Fixed64 => v.Num? && 0 <= v.n < TWO_64
    case Bytes(_) => v.Blob? && |v.bytes| < TWO_32
    case Str(size) => v.Blob? && |v.bytes| <= size
    case FixedBytes(size) => v.Blob? && |v.bytes| == size
    case Sub(fields) => v.Msg? && Typed(fields, v.slots)
  }

  predicate TypedSlot(f: Field, s: Slot)
    decreases f
  {
    match f.rule
    case Required => s.One? && TypedValue(f.kind, s.v)
    case Singular => s.One? && TypedValue(f.kind, s.v)
    case Optional => s.Opt? && TypedValue(f.kind, s.v)
    case Repeated(_) =>
      && s.Many? && |s.items| < TWO_32
      && forall k :: 0 <= k < |s.items| ==> TypedValue(f.kind, s.items[k])
    case FixedCount(n) => s.Fixed? && |s.items| == n && forall k :: 0 <= k < n ==> TypedValue(f.kind, s.items[k])
    case OneOf(_) => s.Choice? && (s.sel.Some? ==> TypedValue(f.kind, s.sel.value))
  }

  /** The struct has the layout of its descriptor; one which_ member selects within each union. */
  predicate Typed(fields: seq<Field>, slots: seq<Slot>)
    decreases fields
  {
    && |slots| == |fields|
    && (forall i :: 0 <= i < |fields| ==> TypedSlot(fields[i], slots[i]))
    && (forall i, j :: 0 <= i < j < |fields| && Selected(fields, slots, i) && Selected(fields, slots, j) ==>
          fields[i].rule != fields[j].rule)
  }

  predicate Selected(fields: seq<Field>, slots: seq<Slot>, i: nat)
    requires i < |fields| == |slots|
  {
    fields[i].rule.OneOf? && slots[i].Choice? && slots[i].sel.Some?
  }

  // ----- defaults -----

  /** pb_message_set_to_defaults. */
  function Defaults(fields: seq<Field>): (slots: seq<Slot>)
    ensures |slots| == |fields|
    ensures forall i :: 0 <= i < |fields| ==> slots[i] == DefaultSlot(fields[i])
    decreases fields
  {
    seq(|fields|, i requires 0 <= i < |fields| => DefaultSlot(fields[i]))
  }

  function DefaultSlot(f: Field): (s: Slot)
    decreases f
  {
    match f.rule
    case Required => One(DefaultValue(f))
    case Singular => One(DefaultValue(f))
    case Optional => Opt(false, DefaultValue(f))
    case Repeated(_) => Many([])
    case FixedCount(n) => Fixed(seq(n, _ => Undef))
    case OneOf(_) => Choice(None)
  }

  function DefaultValue(f: Field): (v: Value)
    decreases f, 0
  {
    if f.kind.Sub? then Msg(Defaults(f.kind.fields)) else f.dflt
  }

  // ----- equal messages -----

  /** The C string in a buffer, cut at the buffer's size as pb_enc_string cuts it. */
  function CStr(b: seq<Byte>, size: nat): (s: seq<Byte>)
    ensures |s| <= size && |s| <= |b| && s == b[..|s|]
    ensures |s| < |b| && |s| < size ==> b[|s|] == 0
    ensures forall i :: 0 <= i < |s| ==> s[i] != 0
  {
    if b == [] || size == 0 || b[0] == 0 then [] else [b[0]] + CStr(b[1..], size - 1)
  }

  /** Equality up to storage that carries no meaning. */
  predicate Same(kind: Kind, a: Value, b: Value)
    decreases kind, 0
  {
    match kind
    case Str(size) => a.Blob? && b.Blob? && CStr(a.bytes, size) == CStr(b.bytes, size)
    case Sub(fields) => a.Msg? && b.Msg? && SameMessage(fields, a.slots, b.slots)
    case _ => a == b
  }

  predicate SameItems(kind: Kind, a: seq<Value>, b: seq<Value>)
    decreases kind, 1
  {
    |a| == |b| && forall k :: 0 <= k < |a| ==> Same(kind, a[k], b[k])
  }

  predicate SameSlot(f: Field, a: Slot, b: Slot)
    decreases f
  {
    match f.rule
    case Required => a.One? && b.One? && Same(f.kind, a.v, b.v)
    case Singular => a.One? && b.One? && Same(f.kind, a.v, b.v)
    case Optional => a.Opt? && b.Opt? && a.has == b.has && (a.has ==> Same(f.kind, a.v, b.v))
    case Repeated(_) => a.Many? && b.Many? && SameItems(f.kind, a.items, b.items)
    case FixedCount(_) => a.Fixed? && b.Fixed? && SameItems(f.kind, a.items, b.items)
    case OneOf(_) =>
      && a.Choice? && b.Choice? && a.sel.Some? == b.sel.Some?
      && (a.sel.Some? ==> Same(f.kind, a.sel.value, b.sel.value))
  }

  predicate SameMessage(fields: seq<Field>, a: seq<Slot>, b: seq<Slot>)
    decreases fields
  {
    |a| == |fields| == |b| && forall i :: 0 <= i < |fields| ==> SameSlot(fields[i], a[i], b[i])
  }
}
