/** The decoder's fields_seen bitset: two 32-bit words, and the comparison that ends pb_decode_noinit. */
module RequiredFields {
  import opened Words
  import opened DecoderSpec

  /** Bits 0 to n-1 of the word whose bit `b` says whether required field `32 * w + b` was seen. */
  function Word(seen: set<nat>, w: nat, n: nat): (r: nat)
    ensures r < Pow2(n)
  {
    if n == 0 then 0
    else Word(seen, w, n - 1) + (if 32 * w + n - 1 in seen then Pow2(n - 1) else 0)
  }

  ghost predicate Represents(fieldsSeen: array<nat>, seen: set<nat>)
    reads fieldsSeen
  {
    fieldsSeen.Length == 2 && fieldsSeen[0] == Word(seen, 0, 32) && fieldsSeen[1] == Word(seen, 1, 32)
  }

  lemma {:induction false} WordMeansAll(seen: set<nat>, w: nat, n: nat)
    ensures Word(seen, w, n) == Pow2(n) - 1 <==> forall k :: 32 * w <= k < 32 * w + n ==> k in seen
  {
    if n > 0 {
      WordMeansAll(seen, w, n - 1);
    }
  }

  /** No bit at or above `r` is set, so the whole word is its lowest `r` bits. */
  lemma {:induction false} WordTruncates(seen: set<nat>, w: nat, r: nat, n: nat)
    requires r <= n && forall k :: k in seen ==> !(32 * w + r <= k < 32 * w + n)
    ensures Word(seen, w, n) == Word(seen, w, r)
  {
    if r < n {
      WordTruncates(seen, w, r, n - 1);
    }
  }

  lemma {:induction false} WordFrame(seen: set<nat>, k: nat, w: nat, n: nat)
    requires !(32 * w <= k < 32 * w + n)
    ensures Word(seen + {k}, w, n) == Word(seen, w, n)
  {
    if n > 0 {
      WordFrame(seen, k, w, n - 1);
    }
  }

  /** `word |= 1 << b` records field `32 * w + b`. */
  lemma {:induction false} SetBit(seen: set<nat>, w: nat, b: nat, n: nat)
    requires b < n
    ensures BitOr(Word(seen, w, n), Pow2(b)) == Word(seen + {32 * w + b}, w, n)
    decreases n
  {
    hide BitOr, Pow2;
    var k, low := 32 * w + b, Word(seen, w, n - 1);
    if b == n - 1 {
      WordFrame(seen, k, w, n - 1);
      if k in seen { BitOrAgain(low, b); } else { BitOrIsAdd(low, 1, b); }
    } else {
      SetBit(seen, w, b, n - 1);
      if 32 * w + n - 1 in seen {
        Pow2Less(b, n - 1);
        BitOrLow(low, Pow2(b), n - 1);
      }
    }
  }

  lemma {:induction false} Pow2Less(a: nat, b: nat)
    requires a < b
    ensures Pow2(a) < Pow2(b)
  {
    Pow2Monotone(a + 1, b);
  }

  /** Setting a bit that is set changes nothing. */
  lemma {:induction false} BitOrAgain(low: nat, k: nat)
    requires low < Pow2(k)
    ensures BitOr(low + Pow2(k), Pow2(k)) == low + Pow2(k)
    decreases k
  {
    if k > 0 {
      BitOrAgain(low / 2, k - 1);
      assert (low + Pow2(k)) / 2 == low / 2 + Pow2(k - 1);
    }
  }

  /** A high bit passes through an OR with lower bits. */
  lemma {:induction false} BitOrLow(a: nat, c: nat, k: nat)
    requires a < Pow2(k) && c < Pow2(k)
    ensures BitOr(a + Pow2(k), c) == BitOr(a, c) + Pow2(k)
    decreases k
  {
    if k > 0 {
      BitOrLow(a / 2, c / 2, k - 1);
      assert (a + Pow2(k)) / 2 == a / 2 + Pow2(k - 1);
      assert (a + Pow2(k)) % 2 == a % 2;
    }
  }

  /** fields_seen[index >> 5] |= 1 << (index & 31). */
  method MarkSeen(fieldsSeen: array<nat>, index: nat, ghost seen: set<nat>)
    requires index < PB_MAX_REQUIRED_FIELDS && Represents(fieldsSeen, seen)
    modifies fieldsSeen
    ensures Represents(fieldsSeen, seen + {index})
  {
    hide Word, BitOr, Pow2;
    var w, b := index / 32, index % 32;
    SetBit(seen, w, b, 32);
    assert 32 * w + b == index;
    WordFrame(seen, index, 1 - w, 32);
    fieldsSeen[w] := BitOr(fieldsSeen[w], Pow2(b));
  }

  /** The check at the end of pb_decode_noinit: whole words against all ones, then the rest of the last
      word. It passes exactly when every tracked required field was seen. */
  method CheckRequired(fieldsSeen: array<nat>, count: nat, ghost seen: set<nat>) returns (ok: bool)
    requires count <= PB_MAX_REQUIRED_FIELDS && Represents(fieldsSeen, seen)
    requires forall k :: k in seen ==> k < count
    ensures ok <==> forall k :: 0 <= k < count ==> k in seen
  {
    hide Word, Pow2;
    var allbits: nat := 0xFFFF_FFFF;
    assert Pow2(32) == WORD32 by { Pow2Values(); }
    var i := 0;
    while i < count / 32
      invariant 0 <= i <= count / 32
      invariant forall k :: 0 <= k < 32 * i ==> k in seen
    {
      WordMeansAll(seen, i, 32);
      if fieldsSeen[i] != allbits {
        return false;
      }
      i := i + 1;
    }
    var r := count % 32;
    if r != 0 {
      WordTruncates(seen, i, r, 32);
      WordMeansAll(seen, i, r);
      LowMask(r);
      if fieldsSeen[i] != allbits / Pow2(32 - r) {
        return false;
      }
    }
    ok := true;
  }

  /** allbits >> (32 - r) is the mask of the lowest `r` bits. */
  lemma LowMask(r: nat)
    requires 0 < r < 32
    ensures 0xFFFF_FFFF / Pow2(32 - r) == Pow2(r) - 1
  {
    var p, q := Pow2(r), Pow2(32 - r);
    assert p * q == WORD32 by { Pow2Add(r, 32 - r); Pow2Values(); }
    assert 0xFFFF_FFFF == (p - 1) * q + (q - 1) by { MulDistribute(-1, p, q, 1); }
    DivUnique(0xFFFF_FFFF, p - 1, q - 1, q);
  }

  lemma DivUnique(n: nat, q: nat, r: nat, m: nat)
    requires n == q * m + r && r < m
    ensures n / m == q
  {
    DivModUnique(n, q, r, m);
    assert (n / m - q) * m == 0;
  }
}
