/** The Protocol Buffers wire format in its own terms: numbers in groups of seven bits, keys, and the four payloads. No
    encoder or decoder is mentioned here. */
module WireFormat {
  import opened Common

  /** The value of digits to a base, least significant first; what a byte has above the base does not count. */
  function Number(s: seq<Byte>, base: nat): (n: nat)
    requires base > 0
  {
    if s == [] then 0 else s[0] % base + base * Number(s[1..], base)
  }

  function Power256(k: nat): (p: nat)
    ensures p > 0
  {
    if k == 0 then 1 else 256 * Power256(k - 1)
  }

  lemma {:induction false} Powers()
    ensures Power256(4) == TWO_32 && Power256(8) == TWO_64
  {
    assert Power256(2) == 0x1_0000;
    assert Power256(6) == 0x1_0000 * Power256(4);
  }

  /** Bytes of 128 and more, and then one below: a varint, in its shortest form or not. */
  predicate Groups(s: seq<Byte>) {
    s != [] && s[|s| - 1] < 128 && forall i :: 0 <= i < |s| - 1 ==> s[i] >= 128
  }

  /** The shortest varint for n. */
  predicate IsVarint(s: seq<Byte>, n: nat) {
    Groups(s) && Number(s, 128) == n && (|s| > 1 ==> s[|s| - 1] != 0)
  }

  /** k bytes, least significant first. */
  predicate IsFixed(s: seq<Byte>, n: nat, k: nat) { |s| == k && Number(s, 256) == n }

  /** A length and that many bytes. */
  ghost predicate IsDelimited(s: seq<Byte>, b: seq<Byte>) { exists a :: IsVarint(a, |b|) && s == a + b }

  /** The payload that a wire type calls for. */
  ghost predicate IsPayload(wire: nat, s: seq<Byte>) {
    || (wire == 0 && Groups(s))
    || (wire == 1 && |s| == 8)
    || (wire == 2 && exists k :: 0 <= k <= |s| && LengthAhead(s, k))
    || (wire == 5 && |s| == 4)
  }

  /** The first k bytes are the number of the others. */
  predicate LengthAhead(s: seq<Byte>, k: nat) { k <= |s| && Groups(s[..k]) && Number(s[..k], 128) == |s| - k }

  datatype Record = Record(tag: nat, wire: nat, payload: seq<Byte>)

  ghost predicate IsKey(s: seq<Byte>, r: Record) { IsVarint(s, 8 * r.tag + r.wire) }

  /** The records one after another. */
  ghost predicate Lays(s: seq<Byte>, rs: seq<Record>)
    decreases |rs|
  {
    if rs == [] then s == []
    else exists key, rest :: IsKey(key, rs[0]) && s == key + (rs[0].payload + rest) && Lays(rest, rs[1..])
  }

  lemma {:induction false} LaysCons(key: seq<Byte>, r: Record, rest: seq<Byte>, rs: seq<Record>)
    requires IsKey(key, r) && Lays(rest, rs)
    ensures Lays(key + (r.payload + rest), [r] + rs)
  {
    var all := [r] + rs;
    assert all[0] == r && all[1..] == rs;
  }

  lemma {:induction false} LaysOne(key: seq<Byte>, r: Record)
    requires IsKey(key, r)
    ensures Lays(key + r.payload, [r])
  {
    LaysCons(key, r, [], []);
    assert r.payload + [] == r.payload && [r] + [] == [r];
  }

  lemma {:induction false} LaysHead(s: seq<Byte>, rs: seq<Record>) returns (key: seq<Byte>, rest: seq<Byte>)
    requires rs != [] && Lays(s, rs)
    ensures IsKey(key, rs[0]) && s == key + (rs[0].payload + rest) && Lays(rest, rs[1..])
  {
    key, rest :| IsKey(key, rs[0]) && s == key + (rs[0].payload + rest) && Lays(rest, rs[1..]);
  }

  lemma {:induction false} Moved(key: seq<Byte>, p: seq<Byte>, rest: seq<Byte>, t: seq<Byte>)
    ensures key + (p + (rest + t)) == key + (p + rest) + t
  {
  }

  lemma {:induction false} LaysAppend(s: seq<Byte>, rs: seq<Record>, t: seq<Byte>, us: seq<Record>)
    requires Lays(s, rs) && Lays(t, us)
    ensures Lays(s + t, rs + us)
    decreases |rs|
  {
    if rs == [] {
      assert s + t == t && rs + us == us;
    } else {
      var key, rest := LaysHead(s, rs);
      var r, others := rs[0], rs[1..];
      LaysAppend(rest, others, t, us);
      LaysCons(key, r, rest + t, others + us);
      Moved(key, r.payload, rest, t);
      Regroup([r], others, us);
      assert [r] + others == rs;
    }
  }

  // ----- the format determines the bytes -----

  lemma {:induction false} NumberDigits(s: seq<Byte>, t: seq<Byte>)
    requires s != [] && t != [] && Number(s, 128) == Number(t, 128)
    ensures s[0] % 128 == t[0] % 128 && Number(s[1..], 128) == Number(t[1..], 128)
  {
  }

  lemma {:induction false} GroupsPositive(s: seq<Byte>)
    requires Groups(s) && s[|s| - 1] != 0
    ensures Number(s, 128) > 0
    decreases |s|
  {
    if |s| > 1 { GroupsPositive(s[1..]); }
  }

  lemma {:induction false} GroupsTail(s: seq<Byte>)
    requires Groups(s) && |s| > 1
    ensures s[0] >= 128 && Groups(s[1..]) && s[1..][|s| - 2] == s[|s| - 1]
  {
  }

  /** A number has one shortest varint. */
  lemma {:induction false} VarintUnique(s: seq<Byte>, t: seq<Byte>, n: nat)
    requires IsVarint(s, n) && IsVarint(t, n)
    ensures s == t
    decreases |s|
  {
    NumberDigits(s, t);
    if |s| > 1 {
      GroupsTail(s);
      GroupsPositive(s[1..]);
    }
    if |t| > 1 {
      GroupsTail(t);
      GroupsPositive(t[1..]);
    }
    if |s| > 1 {
      VarintUnique(s[1..], t[1..], Number(s[1..], 128));
      assert s == [s[0]] + s[1..] && t == [t[0]] + t[1..];
    }
  }

  lemma {:induction false} FixedUnique(s: seq<Byte>, t: seq<Byte>, n: nat, k: nat)
    requires IsFixed(s, n, k) && IsFixed(t, n, k)
    ensures s == t
    decreases k
  {
    if k > 0 {
      FixedUnique(s[1..], t[1..], Number(s[1..], 256), k - 1);
      assert s == [s[0]] + s[1..] && t == [t[0]] + t[1..];
    }
  }
}
