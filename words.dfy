/** 64-bit machine words and the bitwise operations the sets use on them.
 *
 * A word is a natural number below 2^64. The bitwise operations are defined
 * bit by bit on the binary expansion (the low bit is `w % 2`, the rest is
 * `w / 2`), which is how Go's `&`, `|`, `&^` and bits.OnesCount64 act on a
 * uintptr or uint.
 */
module Words {

  /** bits.UintSize on a 64-bit platform. */
  const WordSize: nat := 64
  const WordModulus: nat := 0x1_0000_0000_0000_0000

  type Word = w: nat | w < WordModulus

  function Pow2(n: nat): (p: nat)
    ensures p >= 1
  {
    if n == 0 then 1 else 2 * Pow2(n - 1)
  }

  /** Bitwise AND (Go's `a & b`). */
  function And(a: nat, b: nat): (c: nat)
    ensures c <= a && c <= b
  {
    if a == 0 || b == 0 then 0
    else 2 * And(a / 2, b / 2) + (if a % 2 == 1 && b % 2 == 1 then 1 else 0)
  }

  /** Bitwise OR (Go's `a | b`). */
  function Or(a: nat, b: nat): (c: nat)
    ensures a <= c && b <= c
  {
    if a == 0 then b
    else if b == 0 then a
    else 2 * Or(a / 2, b / 2) + (if a % 2 == 1 || b % 2 == 1 then 1 else 0)
  }

  /** Bit clear (Go's `a &^ b`): the bits of a that are not in b. */
  function AndNot(a: nat, b: nat): (c: nat)
    ensures c <= a
  {
    if a == 0 then 0
    else 2 * AndNot(a / 2, b / 2) + (if a % 2 == 1 && b % 2 == 0 then 1 else 0)
  }

  /** bits.OnesCount64: the number of set bits. */
  function OnesCount(a: nat): (n: nat)
    ensures n <= a
    ensures n == 0 <==> a == 0
  {
    if a == 0 then 0 else a % 2 + OnesCount(a / 2)
  }

  /** Bit i of w (bit 0 is the lowest). */
  predicate Bit(w: nat, i: nat)
  {
    if i == 0 then w % 2 == 1 else Bit(w / 2, i - 1)
  }

  /** Go's `1 << i` on a word. */
  function BitMask(i: nat): (m: Word)
    requires i < WordSize
    ensures Bit(m, i)
  {
    Pow2Below(i, WordSize);
    WordModulusIsPow2();
    Pow2Bit(i, i);
    Pow2(i)
  }

  /** Go's `a | 1 << i` on a word: the word with bit i set. */
  function WithBit(a: Word, i: nat): (c: Word)
    requires i < WordSize
    ensures forall j :: Bit(c, j) <==> Bit(a, j) || j == i
  {
    OrWord(a, BitMask(i));
    forall j ensures Bit(Or(a, BitMask(i)), j) <==> Bit(a, j) || j == i {
      OrBit(a, BitMask(i), j);
      Pow2Bit(i, j);
    }
    Or(a, BitMask(i))
  }

  lemma {:induction false} ZeroHasNoBit(i: nat)
    ensures !Bit(0, i)
  {
    if i > 0 {
      ZeroHasNoBit(i - 1);
    }
  }

  /** 1 << i has bit i and no other. */
  lemma {:induction false} Pow2Bit(i: nat, j: nat)
    ensures Bit(Pow2(i), j) <==> i == j
  {
    if i == 0 {
      if j > 0 {
        ZeroHasNoBit(j - 1);
      }
    } else if j > 0 {
      Pow2Bit(i - 1, j - 1);
    }
  }

  lemma {:induction false} Pow2Below(i: nat, n: nat)
    requires i < n
    ensures Pow2(i) < Pow2(n)
  {
    if i < n - 1 {
      Pow2Below(i, n - 1);
    }
  }

  /** A bit of a | b is a bit of a or a bit of b. */
  lemma {:induction false} OrBit(a: nat, b: nat, i: nat)
    ensures Bit(Or(a, b), i) <==> Bit(a, i) || Bit(b, i)
  {
    if a == 0 {
      ZeroHasNoBit(i);
    } else if b == 0 {
      ZeroHasNoBit(i);
    } else if i > 0 {
      OrBit(a / 2, b / 2, i - 1);
    }
  }

  /** a & (1 << i) is nonzero exactly when bit i of a is set. */
  lemma {:induction false} AndPow2(a: nat, i: nat)
    ensures And(a, Pow2(i)) != 0 <==> Bit(a, i)
  {
    if a == 0 {
      ZeroHasNoBit(i);
    } else if i > 0 {
      AndPow2(a / 2, i - 1);
    }
  }

  /** Setting a bit that is already set changes nothing. */
  lemma {:induction false} OrPow2Present(a: nat, i: nat)
    requires Bit(a, i)
    ensures Or(a, Pow2(i)) == a
  {
    if i > 0 {
      OrPow2Present(a / 2, i - 1);
    }
  }

  /** OR stays within n bits when both operands do, so a word OR a word is a word. */
  lemma {:induction false} OrBelow(a: nat, b: nat, n: nat)
    requires a < Pow2(n) && b < Pow2(n)
    ensures Or(a, b) < Pow2(n)
  {
    if a != 0 && b != 0 {
      OrBelow(a / 2, b / 2, n - 1);
    }
  }

  lemma {:induction false} Pow2Add(a: nat, b: nat)
    ensures Pow2(a + b) == Pow2(a) * Pow2(b)
  {
    if a > 0 {
      Pow2Add(a - 1, b);
    }
  }

  lemma WordModulusIsPow2()
    ensures Pow2(64) == WordModulus
  {
    assert Pow2(8) == 256;
    Pow2Add(8, 8);
    Pow2Add(16, 16);
    Pow2Add(32, 32);
  }

  lemma OrWord(a: Word, b: Word)
    ensures Or(a, b) < WordModulus
  {
    WordModulusIsPow2();
    OrBelow(a, b, 64);
  }

  /** Every bit of y that is in f is still there after OR-ing in r. */
  lemma {:induction false} AndOrWiden(f: nat, r: nat, y: nat)
    requires And(f, y) == y
    ensures And(Or(f, r), y) == y
  {
    if y != 0 && f != 0 && r != 0 {
      AndOrWiden(f / 2, r / 2, y / 2);
    }
  }

  /** The low bit and the rest of 2 * x + c. */
  lemma HalfAndLowBit(x: nat, c: nat)
    requires c < 2
    ensures (2 * x + c) / 2 == x && (2 * x + c) % 2 == c
  {
  }

  /** a & (a | b) == a. */
  lemma {:induction false} AndOrAbsorbLeft(a: nat, b: nat)
    ensures And(Or(a, b), a) == a
  {
    if a != 0 && b != 0 {
      AndOrAbsorbLeft(a / 2, b / 2);
      HalfAndLowBit(Or(a / 2, b / 2), if a % 2 == 1 || b % 2 == 1 then 1 else 0);
    } else if b == 0 {
      AndSelf(a);
    }
  }

  /** b & (a | b) == b. */
  lemma {:induction false} AndOrAbsorbRight(a: nat, b: nat)
    ensures And(Or(a, b), b) == b
  {
    if a != 0 && b != 0 {
      AndOrAbsorbRight(a / 2, b / 2);
      HalfAndLowBit(Or(a / 2, b / 2), if a % 2 == 1 || b % 2 == 1 then 1 else 0);
    } else if a == 0 {
      AndSelf(b);
    }
  }

  lemma {:induction false} AndSelf(a: nat)
    ensures And(a, a) == a
  {
    if a != 0 {
      AndSelf(a / 2);
    }
  }

  /** When f already has every bit of r, f | r is f. */
  lemma {:induction false} CoveredOrSame(f: nat, r: nat)
    requires And(f, r) == r
    ensures Or(f, r) == f
  {
    if f != 0 && r != 0 {
      HalfAndLowBit(And(f / 2, r / 2), if f % 2 == 1 && r % 2 == 1 then 1 else 0);
      CoveredOrSame(f / 2, r / 2);
    }
  }

  /** If OR-ing r into f changes nothing, r has no bit outside f. */
  lemma {:induction false} OrUnchangedClearsAndNot(f: nat, r: nat)
    requires Or(f, r) == f
    ensures AndNot(r, f) == 0
  {
    if r != 0 && f != 0 {
      OrUnchangedClearsAndNot(f / 2, r / 2);
    }
  }

  lemma {:induction false} MulAtLeast(x: int, n: int)
    requires x >= 1 && n > 0
    ensures x * n >= n
  {
    if x > 1 {
      MulAtLeast(x - 1, n);
      assert x * n == (x - 1) * n + n;
    }
  }

  /** The remainder is the only r in [0, n) that differs from z by a multiple of n. */
  lemma ModUnique(z: int, k: int, r: int, n: int)
    requires n > 0 && 0 <= r < n && z == k * n + r
    ensures z % n == r
  {
    var d := z / n;
    var m := z % n;
    assert z == d * n + m && 0 <= m < n;
    assert (d - k) * n == r - m;
    if d > k {
      MulAtLeast(d - k, n);
    } else if d < k {
      MulAtLeast(k - d, n);
    }
  }
}
