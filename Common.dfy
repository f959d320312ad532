/**
 * Definitions shared by every module of the model: bytes, the 64-bit word
 * range of `size_t`/`unsigned long`, optional results, the bitwise AND the
 * hash tables use to select a bucket, and the allocator's may-fail step.
 */
module Common {

  /** One byte of a C string or of a key buffer. */
  newtype Byte = b: int | 0 <= b < 256

  /** 2^64: `size_t` and `unsigned long` arithmetic wraps modulo this value. */
  const WordModulus: nat := 0x1_0000_0000_0000_0000

  /** A value of a 64-bit unsigned C type (hashes, sizes). */
  type Word = w: int | 0 <= w < WordModulus

  datatype Option<T> = None | Some(value: T)

  /** A C string's bytes stop at the first NUL: the key bytes never contain one. */
  ghost predicate NoNul(s: seq<Byte>)
  {
    forall i | 0 <= i < |s| :: s[i] != 0
  }

  /** Bitwise AND of two naturals, one bit at a time from the lowest. */
  function BitAnd(a: nat, b: nat): nat
  {
    if a == 0 || b == 0 then 0
    else 2 * BitAnd(a / 2, b / 2) + (if a % 2 == 1 && b % 2 == 1 then 1 else 0)
  }

  /** Masking can only clear bits: `a & b` never exceeds `b`. */
  lemma {:induction false} BitAndBelow(a: nat, b: nat)
    ensures BitAnd(a, b) <= b
  {
    if a != 0 && b != 0 {
      BitAndBelow(a / 2, b / 2);
    }
  }

  function Pow2(k: nat): (r: nat)
    ensures r >= 1
  {
    if k == 0 then 1 else 2 * Pow2(k - 1)
  }

  /** 2^(a+b) == 2^a · 2^b */
  lemma {:induction false} Pow2Add(a: nat, b: nat)
    ensures Pow2(a + b) == Pow2(a) * Pow2(b)
    decreases a
  {
    if a > 0 {
      Pow2Add(a - 1, b);
    }
  }

  /** A mask of k one-bits leaves every value below 2^k unchanged. */
  lemma {:induction false} BitAndOnes(k: nat, x: nat)
    requires x < Pow2(k)
    ensures BitAnd(Pow2(k) - 1, x) == x
  {
    if k > 0 && x != 0 {
      assert (Pow2(k) - 1) / 2 == Pow2(k - 1) - 1;
      assert (Pow2(k) - 1) % 2 == 1;
      BitAndOnes(k - 1, x / 2);
    }
  }

  /** `a & b == b & a` */
  lemma {:induction false} BitAndComm(a: nat, b: nat)
    ensures BitAnd(a, b) == BitAnd(b, a)
  {
    if a != 0 && b != 0 {
      BitAndComm(a / 2, b / 2);
    }
  }

  /** `x & x == x` */
  lemma {:induction false} BitAndSelf(x: nat)
    ensures BitAnd(x, x) == x
  {
    if x != 0 {
      BitAndSelf(x / 2);
    }
  }

  /** Euclidean division is unique: a quotient and remainder in range are the ones `/` and `%` give. */
  lemma DivModUnique(x: int, d: nat, q: int, r: int)
    requires d > 0 && x == d * q + r && 0 <= r < d
    ensures x % d == r && x / d == q
  {
    var q0, r0 := x / d, x % d;
    assert d * (q0 - q) == r - r0;
    if q0 > q {
      MulAtLeast(d, q0 - q);
      assert false;
    } else if q0 < q {
      MulAtLeast(d, q - q0);
      assert false;
    }
  }

  /** A positive multiple of d is at least d. */
  lemma {:induction false} MulAtLeast(d: nat, k: nat)
    requires k >= 1
    ensures d * k >= d
  {
    if k > 1 {
      MulAtLeast(d, k - 1);
      assert d * k == d * (k - 1) + d;
    }
  }

  /**
   * One call to the allocator (src/allocator.c:21-23 forwards to the
   * caller's `allocate`, by default `malloc`): it may return NULL.  The model
   * leaves the outcome open.
   */
  method TryAllocate() returns (ok: bool)
  {
    ok := *;
  }
}
