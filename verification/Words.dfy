/** Machine words as natural numbers.

    A word of `w` bits is a natural number below `Pow2(w)`; the bitwise operators of the
    program are defined here on binary digits, so that the arithmetic and the bit-level
    reading of one value live in the same theory. */
module Words {
  const U32_LIMIT: nat := 0x1_0000_0000
  const U64_LIMIT: nat := 0x1_0000_0000_0000_0000

  type byte = x: nat | x < 0x100
  type u16 = x: nat | x < 0x1_0000
  type u32 = x: nat | x < 0x1_0000_0000
  type u64 = x: nat | x < 0x1_0000_0000_0000_0000

  function Pow2(k: nat): (p: nat)
    ensures p > 0
  {
    if k == 0 then 1 else 2 * Pow2(k - 1)
  }

  function And(a: nat, b: nat): nat {
    if a == 0 || b == 0 then 0 else 2 * And(a / 2, b / 2) + (if a % 2 == 1 && b % 2 == 1 then 1 else 0)
  }

  function Or(a: nat, b: nat): nat
    decreases a + b
  {
    if a == 0 then b else if b == 0 then a
    else 2 * Or(a / 2, b / 2) + (if a % 2 == 1 || b % 2 == 1 then 1 else 0)
  }

  function Xor(a: nat, b: nat): nat
    decreases a + b
  {
    if a == 0 then b else if b == 0 then a
    else 2 * Xor(a / 2, b / 2) + (if a % 2 != b % 2 then 1 else 0)
  }

  /** The digit of weight `Pow2(k)`. */
  predicate Bit(x: nat, k: nat) {
    if k == 0 then x % 2 == 1 else Bit(x / 2, k - 1)
  }

  /** Addition and subtraction as a 64-bit register performs them. */
  function Add64(a: u64, b: u64): u64 { (a + b) % U64_LIMIT }

  function Sub64(a: u64, b: u64): u64 { (a - b) % U64_LIMIT }

  // ----- digits

  lemma {:induction false} BitOfZero(k: nat)
    ensures !Bit(0, k)
  {
    if k > 0 { BitOfZero(k - 1); }
  }

  lemma {:induction false} BitAnd(a: nat, b: nat, k: nat)
    ensures Bit(And(a, b), k) <==> Bit(a, k) && Bit(b, k)
  {
    BitOfZero(k);
    if a != 0 && b != 0 && k > 0 {
      assert And(a, b) / 2 == And(a / 2, b / 2);
      BitAnd(a / 2, b / 2, k - 1);
    }
  }

  lemma {:induction false} BitOr(a: nat, b: nat, k: nat)
    ensures Bit(Or(a, b), k) <==> Bit(a, k) || Bit(b, k)
  {
    BitOfZero(k);
    if a != 0 && b != 0 && k > 0 {
      assert Or(a, b) / 2 == Or(a / 2, b / 2);
      BitOr(a / 2, b / 2, k - 1);
    }
  }

  lemma {:induction false} BitXor(a: nat, b: nat, k: nat)
    ensures Bit(Xor(a, b), k) <==> Bit(a, k) != Bit(b, k)
  {
    BitOfZero(k);
    if a != 0 && b != 0 && k > 0 {
      assert Xor(a, b) / 2 == Xor(a / 2, b / 2);
      BitXor(a / 2, b / 2, k - 1);
    }
  }

  /** A digit is read off by division. */
  lemma {:induction false} BitByDivision(x: nat, k: nat, p: nat)
    requires p > 0 && p == Pow2(k)
    ensures Bit(x, k) <==> x / p % 2 == 1
    decreases k
  {
    if k > 0 {
      var h := Pow2(k - 1);
      BitByDivision(x / 2, k - 1, h);
      Halves(x, h);
    }
  }

  /** Division by twice `p` halves first. */
  lemma Halves(x: nat, p: nat)
    requires p > 0
    ensures x / (2 * p) == x / 2 / p
    ensures x % (2 * p) == 2 * (x / 2 % p) + x % 2
  {
    var h := x / 2;
    var q, r := h / p, h % p;
    assert h == p * q + r;
    assert x == (2 * p) * q + (2 * r + x % 2);
    QuotientUnique(x, 2 * p, q, 2 * r + x % 2);
  }

  /** Quotient and remainder are unique. */
  lemma QuotientUnique(x: nat, d: nat, q: nat, r: nat)
    requires d > 0 && r < d && x == d * q + r
    ensures x / d == q && x % d == r
  {
    var q', r' := x / d, x % d;
    assert x == d * q' + r';
    assert d * (q - q') == r' - r;
    SmallMultiple(d, q - q');
  }

  lemma SmallMultiple(d: nat, k: int)
    requires 0 - d < d * k < d
    ensures k == 0
  {
    if k >= 1 {
      AtLeastOnce(d, k);
    } else if k <= -1 {
      AtLeastOnce(d, 0 - k);
    }
  }

  lemma AtLeastOnce(d: nat, k: nat)
    requires k >= 1
    ensures d * k >= d && d * (0 - k) == 0 - d * k
  {
    assert d * k == d + d * (k - 1);
  }

  /** Two numbers with the same digits are equal. */
  lemma {:induction false} SameBits(a: nat, b: nat)
    requires forall k: nat :: Bit(a, k) == Bit(b, k)
    ensures a == b
    decreases a + b
  {
    assert Bit(a, 0) == Bit(b, 0);
    if a != 0 || b != 0 {
      forall k: nat
        ensures Bit(a / 2, k) == Bit(b / 2, k)
      {
        assert Bit(a, k + 1) == Bit(b, k + 1);
      }
      SameBits(a / 2, b / 2);
    }
  }

  lemma {:induction false} BitBound(x: nat, n: nat, k: nat)
    requires x < Pow2(n) && n <= k
    ensures !Bit(x, k)
  {
    if n == 0 {
      BitOfZero(k);
    } else {
      BitBound(x / 2, n - 1, k - 1);
    }
  }

  // ----- bounds

  lemma {:induction false} OrBound(a: nat, b: nat, n: nat)
    requires a < Pow2(n) && b < Pow2(n)
    ensures Or(a, b) < Pow2(n)
  {
    if a != 0 && b != 0 { OrBound(a / 2, b / 2, n - 1); }
  }

  lemma {:induction false} XorBound(a: nat, b: nat, n: nat)
    requires a < Pow2(n) && b < Pow2(n)
    ensures Xor(a, b) < Pow2(n)
  {
    if a != 0 && b != 0 { XorBound(a / 2, b / 2, n - 1); }
  }

  lemma {:induction false} AndBound(a: nat, b: nat)
    ensures And(a, b) <= a && And(a, b) <= b
  {
    if a != 0 && b != 0 { AndBound(a / 2, b / 2); }
  }

  lemma {:induction false} Pow2Sum(a: nat, b: nat)
    ensures Pow2(a + b) == Pow2(a) * Pow2(b)
  {
    if a > 0 {
      Pow2Sum(a - 1, b);
      assert 2 * (Pow2(a - 1) * Pow2(b)) == (2 * Pow2(a - 1)) * Pow2(b);
    }
  }

  lemma WordPowers()
    ensures Pow2(8) == 0x100 && Pow2(16) == 0x1_0000 && Pow2(32) == U32_LIMIT && Pow2(64) == U64_LIMIT
    ensures Pow2(7) == 0x80 && Pow2(15) == 0x8000 && Pow2(31) == 0x8000_0000 && Pow2(63) == 0x8000_0000_0000_0000
  {
    assert Pow2(7) == 0x80;
    Pow2Sum(8, 8);
    Pow2Sum(16, 16);
    Pow2Sum(32, 32);
    Pow2Sum(8, 7);
    Pow2Sum(16, 15);
    Pow2Sum(32, 31);
  }

  lemma SmallPowers()
    ensures Pow2(0) == 1 && Pow2(1) == 2 && Pow2(2) == 4 && Pow2(3) == 8 && Pow2(4) == 16 && Pow2(5) == 32
    ensures Pow2(6) == 64 && Pow2(7) == 128 && Pow2(8) == 256 && Pow2(9) == 512 && Pow2(10) == 1024 && Pow2(11) == 2048
    ensures Pow2(12) == 4096 && Pow2(14) == 0x4000
  {
  }

  /** Where the fields of instruction words begin. */
  lemma FieldPowers()
    ensures Pow2(5) == 0x20 && Pow2(14) == 0x4000 && Pow2(16) == 0x1_0000 && Pow2(19) == 0x8_0000
    ensures Pow2(21) == 0x20_0000 && Pow2(23) == 0x80_0000 && Pow2(24) == 0x100_0000 && Pow2(26) == 0x400_0000
  {
    assert Pow2(5) == 0x20;
    WordPowers();
    Pow2Sum(5, 16);
    Pow2Sum(7, 7);
    Pow2Sum(5, 14);
    Pow2Sum(7, 16);
    Pow2Sum(8, 16);
    Pow2Sum(5, 21);
  }

  /** Where the fields of packed pointers begin. */
  lemma ShiftPowers()
    ensures Pow2(1) == 2 && Pow2(8) == 0x100 && Pow2(12) == 0x1000 && Pow2(24) == 0x100_0000 &&
      Pow2(36) == 0x10_0000_0000
    ensures Pow2(51) == 0x8_0000_0000_0000 && Pow2(61) == 0x2000_0000_0000_0000 && Pow2(63) == 0x8000_0000_0000_0000
  {
    WordPowers();
    SmallPowers();
    Pow2Sum(16, 8);
    Pow2Sum(32, 4);
    Pow2Sum(36, 15);
    Pow2Sum(51, 10);
  }

  lemma Or64(a: u64, b: u64)
    ensures Or(a, b) < U64_LIMIT
  {
    WordPowers();
    OrBound(a, b, 64);
  }

  // ----- fields

  /** The low `n` digits; see `LowIsRemainder`. */
  function Low(x: nat, n: nat): nat {
    if n == 0 then 0 else 2 * Low(x / 2, n - 1) + x % 2
  }

  /** Without the low `k` digits; see `ShrIsQuotient`. */
  function Shr(x: nat, k: nat): nat {
    if k == 0 then x else Shr(x / 2, k - 1)
  }

  /** Moved up by `k` digits. */
  function Shl(x: nat, k: nat): nat {
    if k == 0 then x else 2 * Shl(x, k - 1)
  }

  lemma {:induction false} LowIsRemainder(x: nat, n: nat, p: nat)
    requires p > 0 && p == Pow2(n)
    ensures Low(x, n) == x % p
    decreases n
  {
    if n > 0 {
      var h := Pow2(n - 1);
      LowIsRemainder(x / 2, n - 1, h);
      Halves(x, h);
    }
  }

  lemma {:induction false} ShrIsQuotient(x: nat, k: nat, p: nat)
    requires p > 0 && p == Pow2(k)
    ensures Shr(x, k) == x / p
    decreases k
  {
    if k > 0 {
      var h := Pow2(k - 1);
      ShrIsQuotient(x / 2, k - 1, h);
      Halves(x, h);
    }
  }

  lemma {:induction false} LowFits(x: nat, n: nat)
    requires x < Pow2(n)
    ensures Low(x, n) == x
  {
    if n > 0 { LowFits(x / 2, n - 1); }
  }

  lemma {:induction false} LowBound(x: nat, n: nat)
    ensures Low(x, n) < Pow2(n)
  {
    if n > 0 { LowBound(x / 2, n - 1); }
  }

  lemma {:induction false} BitOfShr(x: nat, j: nat, k: nat)
    ensures Bit(Shr(x, j), k) <==> Bit(x, j + k)
  {
    if j > 0 { BitOfShr(x / 2, j - 1, k); }
  }

  /** Masking with a run of ones keeps the low digits. */
  lemma {:induction false} AndLow(x: nat, n: nat)
    ensures And(x, Pow2(n) - 1) == Low(x, n)
  {
    if n > 0 {
      var h := Pow2(n - 1);
      assert (2 * h - 1) / 2 == h - 1 && (2 * h - 1) % 2 == 1;
      AndLow(x / 2, n - 1);
    }
  }

  lemma MaskIsRemainder(x: nat, n: nat, p: nat)
    requires p > 0 && p == Pow2(n)
    ensures And(x, p - 1) == x % p
  {
    AndLow(x, n);
    LowIsRemainder(x, n, p);
  }

  /** Masking with `n` ones that start at digit `k` selects that field. */
  lemma {:induction false} AndField(x: nat, k: nat, n: nat)
    ensures And(x, Shl(Pow2(n) - 1, k)) == Shl(Low(Shr(x, k), n), k)
  {
    if k == 0 {
      AndLow(x, n);
    } else {
      AndField(x / 2, k - 1, n);
    }
  }

  /** Combining a number with one that fits below its trailing zeros is addition. */
  lemma {:induction false} OrDisjoint(a: nat, b: nat, k: nat)
    requires Low(a, k) == 0 && b < Pow2(k)
    ensures Or(a, b) == a + b
  {
    if a != 0 && b != 0 { OrDisjoint(a / 2, b / 2, k - 1); }
  }

  /** A mask and its complement split a word. */
  lemma {:induction false} AndComplement(x: nat, m: nat, n: nat)
    requires x < Pow2(n) && m < Pow2(n)
    ensures And(x, m) + And(x, Pow2(n) - 1 - m) == x
  {
    if n > 0 {
      var c := Pow2(n) - 1 - m;
      assert c / 2 == Pow2(n - 1) - 1 - m / 2;
      assert c % 2 == 1 - m % 2;
      AndComplement(x / 2, m / 2, n - 1);
    }
  }

  lemma {:induction false} ShlIsProduct(x: nat, k: nat, p: nat)
    requires p == Pow2(k)
    ensures Shl(x, k) == x * p
  {
    if k > 0 {
      ShlIsProduct(x, k - 1, Pow2(k - 1));
      assert x * (2 * Pow2(k - 1)) == 2 * (x * Pow2(k - 1));
    }
  }

  /** Combining with a number that starts at digit `k` leaves the digits below alone. */
  lemma {:induction false} OrShifted(x: nat, m: nat, k: nat)
    ensures Or(x, Shl(m, k)) == Shl(Or(Shr(x, k), m), k) + Low(x, k)
  {
    if k > 0 {
      OrShifted(x / 2, m, k - 1);
    }
  }

  lemma {:induction false} ShlSum(a: nat, b: nat, k: nat)
    ensures Shl(a + b, k) == Shl(a, k) + Shl(b, k)
  {
    if k > 0 { ShlSum(a, b, k - 1); }
  }

  lemma {:induction false} SplitAt(x: nat, k: nat)
    ensures Shl(Shr(x, k), k) + Low(x, k) == x
  {
    if k > 0 { SplitAt(x / 2, k - 1); }
  }

  /** A field whose digits are zero takes a value by addition. */
  lemma OrIntoField(x: nat, m: nat, k: nat, n: nat)
    requires Low(Shr(x, k), n) == 0 && m < Pow2(n)
    ensures Or(x, Shl(m, k)) == x + Shl(m, k)
  {
    hide Or, Shl, Shr, Low;
    OrShifted(x, m, k);
    OrDisjoint(Shr(x, k), m, n);
    ShlSum(Shr(x, k), m, k);
    SplitAt(x, k);
  }

  /** A number below digit `k` is combined with one that starts there by addition. */
  lemma OrAbove(x: nat, m: nat, k: nat, p: nat)
    requires p == Pow2(k) && x < p
    ensures Or(x, Shl(m, k)) == x + m * p
  {
    hide Shl, Shr, Low;
    OrShifted(x, m, k);
    ShrOfSmall(x, k);
    LowFits(x, k);
    ShlIsProduct(m, k, p);
  }

  lemma {:induction false} ShrOfSmall(x: nat, k: nat)
    requires x < Pow2(k)
    ensures Shr(x, k) == 0
  {
    if k > 0 { ShrOfSmall(x / 2, k - 1); }
  }

  // ----- runs of ones

  /** The number of ones of a number of the form 1...1. */
  function Ones(m: nat): nat {
    if m == 0 then 0 else 1 + Ones(m / 2)
  }

  /** A number that shares no digit with its successor is a run of ones. */
  lemma {:induction false} AllOnes(m: nat)
    requires And(m, m + 1) == 0
    ensures m == Pow2(Ones(m)) - 1
  {
    if m > 0 {
      if m % 2 == 1 {
        assert (m + 1) / 2 == m / 2 + 1;
        AllOnes(m / 2);
      } else {
        assert (m + 1) / 2 == m / 2;
        AndSelf(m / 2);
      }
    }
  }

  lemma {:induction false} AndSelf(a: nat)
    ensures And(a, a) == a
  {
    if a > 0 { AndSelf(a / 2); }
  }

  lemma {:induction false} OnesAndNext(n: nat)
    ensures And(Pow2(n) - 1, Pow2(n)) == 0 && Ones(Pow2(n) - 1) == n
  {
    if n > 0 {
      assert (Pow2(n) - 1) / 2 == Pow2(n - 1) - 1;
      OnesAndNext(n - 1);
    }
  }

  // ----- remainders

  lemma ReduceSum(m: nat, a: nat, b: nat)
    requires m > 0
    ensures (a + b) % m == (a % m + b % m) % m
  {
    var qa, qb := a / m, b / m;
    var t := a % m + b % m;
    assert a + b == m * (qa + qb) + t;
    ReduceMultiple(m, qa + qb, t);
  }

  lemma ReduceDifference(m: nat, a: nat, b: nat)
    requires m > 0
    ensures (a - b) % m == (a % m - b % m) % m
  {
    var qa, qb := a / m, b / m;
    var t := a % m - b % m;
    assert a - b == m * (qa - qb) + t;
    ReduceMultiple(m, qa - qb, t);
  }

  lemma ReduceMultiple(m: nat, q: int, t: int)
    requires m > 0
    ensures (m * q + t) % m == t % m
  {
    var x := m * q + t;
    var d := x / m - (q + t / m);
    assert x == m * (x / m) + x % m;
    assert t == m * (t / m) + t % m;
    assert m * d == t % m - x % m by {
      assert m * d == m * (x / m) - m * q - m * (t / m);
    }
    SmallMultiple(m, d);
  }
}
