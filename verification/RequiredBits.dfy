/** The bitmap fields_seen of pb_decode_noinit: two 32-bit words, one bit for each of the first 64
    required fields. Bit operations are written as the arithmetic they perform. */
module RequiredBits {
  import opened DecodeSpec

  /** (w >> i) & 1. */
  predicate Has(w: nat, i: nat) {
    if i == 0 then w % 2 == 1 else Has(w / 2, i - 1)
  }

  /** w | (1 << i). */
  function WithBit(w: nat, i: nat): (r: nat) {
    if i == 0 then w - w % 2 + 1 else 2 * WithBit(w / 2, i - 1) + w % 2
  }

  /** The n lowest bits: ~0 >> (32 - n). */
  function Ones(n: nat): (r: nat) { if n == 0 then 0 else 2 * Ones(n - 1) + 1 }

  lemma {:induction false} HasWithBit(w: nat, i: nat, j: nat)
    ensures Has(WithBit(w, i), j) <==> i == j || Has(w, j)
    decreases i
  {
    if i > 0 && j > 0 {
      HasWithBit(w / 2, i - 1, j - 1);
    }
  }

  lemma {:induction false} NoBits(w: nat)
    requires forall i: nat :: !Has(w, i)
    ensures w == 0
    decreases w
  {
    if w > 0 {
      assert !Has(w, 0);
      forall i: nat ensures !Has(w / 2, i) { assert Has(w, i + 1) == Has(w / 2, i); }
      NoBits(w / 2);
    }
  }

  lemma {:induction false} HasOnes(n: nat, i: nat)
    ensures Has(Ones(n), i) <==> i < n
    decreases n, i
  {
    if n == 0 {
      if i > 0 { HasOnes(0, i - 1); }
    } else if i > 0 {
      HasOnes(n - 1, i - 1);
    }
  }

  /** A word without bits from n on is the mask of n bits exactly when it has all the others. */
  lemma {:induction false} IsMask(w: nat, n: nat)
    requires forall i: nat :: Has(w, i) ==> i < n
    ensures w == Ones(n) <==> forall i :: 0 <= i < n ==> Has(w, i)
  {
    if w == Ones(n) {
      forall i | 0 <= i < n ensures Has(w, i) { HasOnes(n, i); }
    } else {
      var j := MissingBit(w, n);
    }
  }

  lemma {:induction false} MissingBit(w: nat, n: nat) returns (j: nat)
    requires w != Ones(n) && forall i: nat :: Has(w, i) ==> i < n
    ensures j < n && !Has(w, j)
    decreases n
  {
    if n == 0 {
      forall i: nat ensures !Has(w, i) { }
      NoBits(w);
      assert false;
    } else if w % 2 == 0 {
      j := 0;
    } else {
      forall i: nat | Has(w / 2, i) ensures i < n - 1 { assert Has(w, i + 1); }
      j := MissingBit(w / 2, n - 1);
      assert Has(w, j + 1) == Has(w / 2, j);
      j := j + 1;
    }
  }

  // ----- two words -----

  ghost predicate AllBelow(s: set<nat>, n: nat) { forall r :: 0 <= r < n ==> r in s }

  lemma {:induction false} Fewer(s: set<nat>, m: nat, n: nat)
    requires m <= n
    ensures AllBelow(s, n) ==> AllBelow(s, m)
  {
  }

  class Bitmap {
    const words: array<nat>

    ghost predicate Valid()
      reads this, words
    {
      && words.Length == 2
      && (forall i: nat :: Has(words[0], i) ==> i < 32)
      && (forall i: nat :: Has(words[1], i) ==> i < 32)
    }

    ghost function Seen(): (s: set<nat>)
      reads this, words
      requires Valid()
    {
      set r | 0 <= r < MAX_REQUIRED_FIELDS && Has(words[r / 32], r % 32)
    }

    constructor ()
      ensures Valid() && fresh(words) && Seen() == {}
    {
      words := new nat[2](_ => 0);
      new;
      forall i ensures !Has(0, i) { HasOnes(0, i); }
    }

    /** fields_seen[r >> 5] |= 1 << (r & 31). */
    method Mark(r: nat)
      requires Valid() && r < MAX_REQUIRED_FIELDS
      modifies words
      ensures Valid() && Seen() == old(Seen()) + {r}
    {
      ghost var w := words[r / 32];
      forall j ensures Has(WithBit(w, r % 32), j) <==> r % 32 == j || Has(w, j) { HasWithBit(w, r % 32, j); }
      words[r / 32] := WithBit(words[r / 32], r % 32);
      assert r / 32 == 0 || r / 32 == 1;
    }

    /** The field of bit j of word i. */
    lemma {:induction false} SeenAt(i: nat, j: nat)
      requires Valid() && i < 2 && j < 32
      ensures 32 * i + j in Seen() <==> Has(words[i], j)
    {
      var r := 32 * i + j;
      assert r / 32 == i && r % 32 == j;
    }

    /** The check behind the loop: whole words first, then the remaining bits. No later field has
        been marked. */
    method AllSeen(count: nat) returns (ok: bool)
      requires Valid() && forall r :: r in Seen() ==> r < count
      ensures ok <==> forall r :: 0 <= r < count && r < MAX_REQUIRED_FIELDS ==> r in Seen()
    {
      var n := if count > MAX_REQUIRED_FIELDS then MAX_REQUIRED_FIELDS else count;
      ghost var seen := Seen();
      assert n == 64 || forall r :: r in seen ==> r < n;
      for i := 0 to n / 32
        invariant AllBelow(seen, 32 * i)
      {
        FullWord(i);
        if words[i] != Ones(32) {
          assert !AllBelow(seen, n) by { Fewer(seen, 32 * i + 32, n); }
          return false;
        }
      }
      if n % 32 != 0 {
        LastWord(n);
        if words[n / 32] != Ones(n % 32) {
          return false;
        }
      }
      ok := true;
    }

    lemma {:induction false} WordMask(i: nat, m: nat)
      requires Valid() && i < 2 && m <= 32 && forall j: nat :: Has(words[i], j) ==> j < m
      ensures words[i] == Ones(m) <==> forall r :: 32 * i <= r < 32 * i + m ==> r in Seen()
    {
      var seen, base := Seen(), 32 * i;
      IsMask(words[i], m);
      if words[i] == Ones(m) {
        forall r | base <= r < base + m ensures r in seen { SeenAt(i, r - base); }
      } else {
        var j :| 0 <= j < m && !Has(words[i], j);
        SeenAt(i, j);
      }
    }

    lemma {:induction false} FullWord(i: nat)
      requires Valid() && i < 2 && AllBelow(Seen(), 32 * i)
      ensures words[i] == Ones(32) <==> AllBelow(Seen(), 32 * i + 32)
    {
      WordMask(i, 32);
    }

    lemma {:induction false} LastWord(n: nat)
      requires Valid() && n < MAX_REQUIRED_FIELDS && forall r :: r in Seen() ==> r < n
      requires AllBelow(Seen(), n - n % 32)
      ensures words[n / 32] == Ones(n % 32) <==> AllBelow(Seen(), n)
    {
      var i, m := n / 32, n % 32;
      forall j: nat | Has(words[i], j) ensures j < m { SeenAt(i, j); }
      WordMask(i, m);
    }
  }
}
