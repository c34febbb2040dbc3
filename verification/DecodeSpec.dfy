/** What pb_decode makes of any input, as functions of the bytes still to be read. */
module DecodeSpec {
  import opened Common
  import opened Varint
  import opened Schema

  const MAX_REQUIRED_FIELDS: nat := 64

  datatype Outcome<+T> = Success(value: T) | Failure(error: Error)

  /** The state of one pb_decode_noinit call: the struct, the required fields met so far by their
      required_field_index, and the progress of the last fixed-count array. */
  datatype Decoding = Decoding(slots: seq<Slot>, seen: set<nat>, fixedField: Option<nat>, fixedSize: nat)

  // ----- scalars -----

  function Read(s: seq<Byte>, n: nat): (r: Parsed<seq<Byte>>)
    ensures r.Ok? ==> |r.rest| == |s| - n && Suffix(r.rest, s) && r.value == s[..n]
    ensures r.Ok? <==> n <= |s|
  {
    if |s| < n then Err(EndOfStream) else Ok(s[..n], s[n..])
  }

  function FromLittleEndian(s: seq<Byte>): (n: nat) {
    if s == [] then 0 else s[0] + 256 * FromLittleEndian(s[1..])
  }

  function ReadFixed(s: seq<Byte>, n: nat): (r: Parsed<Value>)
    ensures r.Ok? ==> |r.rest| == |s| - n && Suffix(r.rest, s)
  {
    match Read(s, n)
    case Err(e) => Err(e)
    case Ok(b, rest) => Ok(Num(FromLittleEndian(b)), rest)
  }

  /** Store `v` in an integer with values lo..hi-1, refusing what the cast would change. */
  function Store(v: int, lo: int, hi: int, rest: seq<Byte>): (r: Parsed<Value>)
    ensures r.Ok? ==> r.rest == rest
  {
    if lo <= v < hi then Ok(Num(v), rest) else Err(IntegerTooLarge)
  }

  function ReadInteger(kind: Kind, s: seq<Byte>): (r: Parsed<Value>)
    requires kind.Int? || kind.UInt? || kind.SInt?
    ensures r.Ok? ==> |r.rest| < |s| && Suffix(r.rest, s)
  {
    match Decode64(s)
    case Err(e) => Err(e)
    case Ok(u, rest) =>
      if !ValidSize(kind.size) then Err(InvalidDataSize)
      else
        var half := Half(kind.size);
        match kind
        case UInt(_) => Store(u, 0, 2 * half, rest)
        case SInt(_) => Store(UnZigZag(u % TWO_64), -half, half, rest)
        case Int(size) => Store(Signed(u, if size == 8 then TWO_63 else TWO_31), -half, half, rest)
  }

  /** A length and that many bytes. */
  function ReadDelimited(s: seq<Byte>): (r: Parsed<seq<Byte>>)
    ensures r.Ok? ==> |r.rest| < |s| && Suffix(r.rest, s) && |r.value| < |s|
  {
    match Decode32(s)
    case Err(e) => Err(e)
    case Ok(n, t) => if |t| < n then Err(ParentTooShort) else Ok(t[..n], t[n..])
  }

  function ReadBlob(kind: Kind, s: seq<Byte>): (r: Parsed<Value>)
    requires kind.Bytes? || kind.Str? || kind.FixedBytes?
    ensures r.Ok? ==> |r.rest| < |s| && Suffix(r.rest, s)
  {
    match Decode32(s)
    case Err(e) => Err(e)
    case Ok(n, t) =>
      match kind
      case Bytes(cap) =>
        if n > cap then Err(BytesOverflow)
        else (match Read(t, n) case Err(e) => Err(e) case Ok(b, rest) => Ok(Blob(b), rest))
      case Str(size) =>
        if n == TWO_32 - 1 then Err(SizeTooLarge)
        else if n + 1 > size then Err(StringOverflow)
        else (match Read(t, n) case Err(e) => Err(e) case Ok(b, rest) => Ok(Blob(b + [0]), rest))
      case FixedBytes(size) =>
        if n == 0 then Ok(Blob(seq(size, _ => 0)), t)
        else if n != size then Err(WrongFixedLength)
        else (match Read(t, n) case Err(e) => Err(e) case Ok(b, rest) => Ok(Blob(b), rest))
  }

  /** pb_skip_field. */
  function Skip(wire: nat, s: seq<Byte>): (r: Parsed<()>)
    ensures r.Ok? ==> |r.rest| <= |s| && Suffix(r.rest, s)
  {
    if wire == 0 then SkipVarint(s)
    else if wire == 1 then SkipBytes(s, 8)
    else if wire == 2 then (match Decode32(s) case Err(e) => Err(e) case Ok(n, t) => SkipBytes(t, n))
    else if wire == 5 then SkipBytes(s, 4)
    else Err(InvalidWireType)
  }

  function SkipBytes(s: seq<Byte>, n: nat): (r: Parsed<()>)
    ensures r.Ok? ==> |r.rest| <= |s| && Suffix(r.rest, s)
  {
    match Read(s, n) case Err(e) => Err(e) case Ok(_, rest) => Ok((), rest)
  }

  function SkipVarint(s: seq<Byte>): (r: Parsed<()>)
    ensures r.Ok? ==> |r.rest| < |s| && Suffix(r.rest, s)
  {
    if s == [] then Err(EndOfStream)
    else if s[0] >= 128 then SkipVarint(s[1..])
    else Ok((), s[1..])
  }

  // ----- values and arrays -----

  /** One value into storage that holds `was`. A submessage in an array starts from its defaults,
      any other is merged into what is there. */
  function DecodeValue(kind: Kind, inArray: bool, was: Value, s: seq<Byte>): (r: Parsed<Value>)
    ensures r.Ok? ==> |r.rest| < |s| && Suffix(r.rest, s)
    decreases kind, 0
  {
    match kind
    case Bool =>
      (match Decode32(s) case Err(e) => Err(e) case Ok(n, rest) => Ok(Num(if n != 0 then 1 else 0), rest))
    case Fixed32 => ReadFixed(s, 4)
    case Fixed64 => ReadFixed(s, 8)
    case Int(_) => ReadInteger(kind, s)
    case UInt(_) => ReadInteger(kind, s)
    case SInt(_) => ReadInteger(kind, s)
    case Bytes(_) => ReadBlob(kind, s)
    case Str(_) => ReadBlob(kind, s)
    case FixedBytes(_) => ReadBlob(kind, s)
    case Sub(fields) =>
      match ReadDelimited(s)
      case Err(e) => Err(e)
      case Ok(inner, rest) =>
        match DecodeMessage(fields, if inArray then Defaults(fields) else Into(fields, was), inner)
        case Failure(e) => Err(e)
        case Success(slots) => Ok(Msg(slots), rest)
  }

  /** The submessage in storage; a union that holds another member is reset to defaults. */
  function Into(fields: seq<Field>, was: Value): (slots: seq<Slot>)
    ensures |slots| == |fields|
  {
    if was.Msg? && |was.slots| == |fields| then was.slots else Defaults(fields)
  }

  /** A packed array: elements to the end of the substream, at most `room` of them. */
  function DecodePacked(kind: Kind, room: nat, s: seq<Byte>): (r: Outcome<seq<Value>>)
    ensures r.Success? ==> |r.value| <= room
    decreases kind, 1 + |s|
  {
    if s == [] then Success([])
    else if room == 0 then Failure(ArrayOverflow)
    else match DecodeValue(kind, true, Undef, s)
      case Err(e) => Failure(e)
      case Ok(v, rest) =>
        match DecodePacked(kind, room - 1, rest)
        case Failure(e) => Failure(e)
        case Success(vs) => Success([v] + vs)
  }

  /** The elements that one record adds to an array with `filled` of `max` elements. */
  function DecodeElements(f: Field, filled: nat, max: nat, wire: nat, s: seq<Byte>): (r: Parsed<seq<Value>>)
    ensures r.Ok? ==> |r.rest| < |s| && Suffix(r.rest, s) && (r.value == [] || filled + |r.value| <= max)
    decreases f, 0
  {
    if wire == 2 && Packable(f.kind) then
      match ReadDelimited(s)
      case Err(e) => Err(e)
      case Ok(inner, rest) =>
        (match DecodePacked(f.kind, if filled < max then max - filled else 0, inner)
         case Failure(e) => Err(e)
         case Success(vs) => Ok(vs, rest))
    else if filled >= max then Err(ArrayOverflow)
    else match DecodeValue(f.kind, true, Undef, s)
      case Err(e) => Err(e)
      case Ok(v, rest) => Ok([v], rest)
  }

  function Stored(slot: Slot): (v: Value) {
    match slot
    case One(v) => v
    case Opt(_, v) => v
    case Choice(Some(v)) => v
    case _ => Undef
  }

  function Elements(slot: Slot): (vs: seq<Value>) {
    if slot.Many? || slot.Fixed? then slot.items else []
  }

  /** decode_static_field on one slot; the number counts elements added to an array. */
  function DecodeSlot(f: Field, slot: Slot, filled: nat, wire: nat, s: seq<Byte>): (r: Parsed<(Slot, nat)>)
    ensures r.Ok? ==> |r.rest| < |s| && Suffix(r.rest, s)
    decreases f, 1
  {
    match f.rule
    case Repeated(max) =>
      var was := Elements(slot);
      (match DecodeElements(f, |was|, max, wire, s)
       case Err(e) => Err(e)
       case Ok(vs, rest) => Ok((Many(was + vs), |vs|), rest))
    case FixedCount(n) =>
      var was := if |Elements(slot)| == n then Elements(slot) else seq(n, _ => Undef);
      (match DecodeElements(f, filled, n, wire, s)
       case Err(e) => Err(e)
       case Ok(vs, rest) =>
         Ok((Fixed(if vs == [] then was else was[..filled] + vs + was[filled + |vs|..]), |vs|), rest))
    case _ =>
      match DecodeValue(f.kind, false, Stored(slot), s)
      case Err(e) => Err(e)
      case Ok(v, rest) =>
        var updated :=
          if f.rule.Optional? then Opt(true, v)
          else if f.rule.OneOf? then Choice(Some(v))
          else One(v);
        Ok((updated, 0), rest)
  }

  // ----- messages -----

  function Find(fields: seq<Field>, tag: nat): (r: Option<nat>)
    ensures r.Some? ==> r.value < |fields| && fields[r.value].tag == tag
    ensures r.None? ==> forall i :: 0 <= i < |fields| ==> fields[i].tag != tag
    decreases |fields|
  {
    if fields == [] then None
    else if fields[|fields| - 1].tag == tag then Some(|fields| - 1)
    else Find(fields[..|fields| - 1], tag)
  }

  /** The number of required fields before position i. */
  function RequiredBefore(fields: seq<Field>, i: nat): (n: nat)
    requires i <= |fields|
    ensures n <= i
  {
    if i == 0 then 0 else RequiredBefore(fields, i - 1) + if fields[i - 1].rule.Required? then 1 else 0
  }

  lemma {:induction false} FindUnique(fields: seq<Field>, i: nat)
    requires Valid(fields) && i < |fields|
    ensures Find(fields, fields[i].tag) == Some(i)
  {
    var r := Find(fields, fields[i].tag);
  }

  lemma {:induction false} RequiredMonotone(fields: seq<Field>, i: nat, j: nat)
    requires i < j <= |fields| && fields[i].rule.Required?
    ensures RequiredBefore(fields, i) < RequiredBefore(fields, j)
    decreases j
  {
    if i < j - 1 { RequiredMonotone(fields, i, j - 1); }
  }

  /** Setting which_ for member i clears the other members of its union. */
  function Deselect(fields: seq<Field>, slots: seq<Slot>, i: nat): (r: seq<Slot>)
    requires i < |fields| == |slots|
    ensures |r| == |slots|
    ensures forall j :: 0 <= j < |slots| ==>
      r[j] == if j != i && fields[i].rule.OneOf? && fields[j].rule == fields[i].rule then Choice(None) else slots[j]
  {
    seq(|slots|, j requires 0 <= j < |slots| =>
      if j != i && fields[i].rule.OneOf? && fields[j].rule == fields[i].rule then Choice(None) else slots[j])
  }

  predicate FixedComplete(fields: seq<Field>, st: Decoding) {
    st.fixedField.Some? && st.fixedField.value < |fields| && fields[st.fixedField.value].rule.FixedCount? ==>
      st.fixedSize == fields[st.fixedField.value].rule.n
  }

  /** Field i has been seen, if it is one of the required fields that are recorded. */
  function Marked(fields: seq<Field>, st: Decoding, i: nat): (st': Decoding)
    requires i < |fields|
  {
    var r := RequiredBefore(fields, i);
    if fields[i].rule.Required? && r < MAX_REQUIRED_FIELDS then st.(seen := st.seen + {r}) else st
  }

  /** Field i has received `slot`; the other members of its union are no longer selected. */
  function Received(fields: seq<Field>, st: Decoding, i: nat, slot: Slot): (st': Decoding)
    requires i < |fields| == |st.slots|
    ensures |st'.slots| == |fields|
  {
    st.(slots := Deselect(fields, st.slots, i)[i := slot])
  }

  function DecodeField(fields: seq<Field>, st: Decoding, i: nat, wire: nat, s: seq<Byte>): (r: Parsed<Decoding>)
    requires |st.slots| == |fields| && i < |fields|
    ensures r.Ok? ==> |r.rest| < |s| && Suffix(r.rest, s) && |r.value.slots| == |fields|
    decreases fields, 0
  {
    var f := fields[i];
    var current := f.rule.FixedCount? && st.fixedField == Some(i);
    if f.rule.FixedCount? && !current && !FixedComplete(fields, st) then Err(WrongFixedCount)
    else
      var filled := if current then st.fixedSize else 0;
      match DecodeSlot(f, st.slots[i], filled, wire, s)
      case Err(e) => Err(e)
      case Ok((slot, added), rest) =>
        var st' := Received(fields, Marked(fields, st, i), i, slot);
        Ok(if f.rule.FixedCount? then st'.(fixedField := Some(i), fixedSize := filled + added) else st', rest)
  }

  /** One record whose key has been read. The terminator of an empty descriptor answers to field
      number zero as a required bool in the placeholder member. */
  function DecodeRecord(fields: seq<Field>, st: Decoding, key: nat, s: seq<Byte>): (r: Parsed<Decoding>)
    requires |st.slots| == |fields|
    ensures r.Ok? ==> |r.rest| <= |s| && Suffix(r.rest, s) && |r.value.slots| == |fields|
    decreases fields, 1
  {
    match Find(fields, key / 8)
    case Some(i) => DecodeField(fields, st, i, key % 8, s)
    case None =>
      if fields == [] && key / 8 == 0
      then (match Decode32(s) case Err(e) => Err(e) case Ok(_, rest) => Ok(st, rest))
      else (match Skip(key % 8, s) case Err(e) => Err(e) case Ok(_, rest) => Ok(st, rest))
  }

  /** Records until the input ends or a zero key is read. */
  function DecodeLoop(fields: seq<Field>, st: Decoding, s: seq<Byte>): (r: Outcome<Decoding>)
    requires |st.slots| == |fields|
    ensures r.Success? ==> |r.value.slots| == |fields|
    decreases fields, 2 + |s|
  {
    if s == [] then Success(st)
    else match Decode32(s)
      case Err(e) => Failure(e)
      case Ok(key, t) =>
        if key == 0 then Success(st)
        else match DecodeRecord(fields, st, key, t)
          case Err(e) => Failure(e)
          case Ok(st', rest) => DecodeLoop(fields, st', rest)
  }

  predicate RequiredSeen(fields: seq<Field>, seen: set<nat>) {
    forall r :: 0 <= r < RequiredBefore(fields, |fields|) && r < MAX_REQUIRED_FIELDS ==> r in seen
  }

  function Start(slots: seq<Slot>): (st: Decoding) {
    Decoding(slots, {}, None, 0)
  }

  /** pb_decode_noinit: merge the input into a struct. */
  function DecodeMessage(fields: seq<Field>, slots: seq<Slot>, s: seq<Byte>): (r: Outcome<seq<Slot>>)
    requires |slots| == |fields|
    ensures r.Success? ==> |r.value| == |fields|
    decreases fields, 3 + |s|
  {
    match DecodeLoop(fields, Start(slots), s)
    case Failure(e) => Failure(e)
    case Success(st) =>
      if !FixedComplete(fields, st) then Failure(WrongFixedCount)
      else if !RequiredSeen(fields, st.seen) then Failure(MissingRequired)
      else Success(st.slots)
  }

  /** pb_decode. */
  function DecodeFresh(fields: seq<Field>, s: seq<Byte>): (r: Outcome<seq<Slot>>)
    ensures r.Success? ==> |r.value| == |fields|
  {
    DecodeMessage(fields, Defaults(fields), s)
  }
}
