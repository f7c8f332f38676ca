/**
 Unsigned 64-bit words as numbers, with the C operators on them and what each does to single bits.
 */
module WordBits {

  function Pow2(n: nat): (p: nat)
    ensures p > 0
  {
    if n == 0 then 1 else 2 * Pow2(n - 1)
  }

  /** unsigned long */
  type Word = x: nat | x < Pow2(64) witness 0

  /** Bit i of x, counted from the least significant one. */
  predicate Bit(x: nat, i: nat) {
    if i == 0 then x % 2 == 1 else Bit(x / 2, i - 1)
  }

  /** x & y */
  function And(x: nat, y: nat): (r: nat)
    ensures r <= x && r <= y
  {
    if x == 0 || y == 0 then 0 else (if x % 2 == 1 && y % 2 == 1 then 1 else 0) + 2 * And(x / 2, y / 2)
  }

  /** x | y */
  function Or(x: nat, y: nat): nat
    decreases x + y
  {
    if x == 0 then y else if y == 0 then x
    else (if x % 2 == 1 || y % 2 == 1 then 1 else 0) + 2 * Or(x / 2, y / 2)
  }

  /** ~0UL */
  const ONES: Word := Pow2(64) - 1

  /** ~x */
  function Complement(x: Word): Word {
    Pow2(64) - 1 - x
  }

  /** x << k, as k shifts by one position that drop the top bit */
  function ShiftLeft(x: Word, k: nat): Word
    decreases k
  {
    if k == 0 then x else ShiftLeft((2 * x) % Pow2(64), k - 1)
  }

  /** x >> k */
  function ShiftRight(x: Word, k: nat): Word
    decreases k
  {
    if k == 0 then x else ShiftRight(x / 2, k - 1)
  }

  lemma {:induction false} Pow2Add(m: nat, n: nat)
    ensures Pow2(m + n) == Pow2(m) * Pow2(n)
  {
    if m > 0 { Pow2Add(m - 1, n); }
  }

  lemma {:induction false} Pow2Monotone(m: nat, n: nat)
    requires m < n
    ensures Pow2(m) < Pow2(n)
    decreases n
  {
    if m < n - 1 { Pow2Monotone(m, n - 1); }
  }

  lemma {:induction false} BitZero(i: nat)
    ensures !Bit(0, i)
  {
    if i > 0 { BitZero(i - 1); }
  }

  lemma {:induction false} BitAnd(x: nat, y: nat, i: nat)
    ensures Bit(And(x, y), i) == (Bit(x, i) && Bit(y, i))
    decreases i
  {
    if x == 0 || y == 0 {
      BitZero(i);
    } else if i > 0 {
      BitAnd(x / 2, y / 2, i - 1);
    }
  }

  lemma {:induction false} BitOr(x: nat, y: nat, i: nat)
    ensures Bit(Or(x, y), i) == (Bit(x, i) || Bit(y, i))
    decreases i
  {
    if x == 0 || y == 0 {
      BitZero(i);
    } else if i > 0 {
      BitOr(x / 2, y / 2, i - 1);
    }
  }

  lemma {:induction false} OrBound(x: nat, y: nat, n: nat)
    requires x < Pow2(n) && y < Pow2(n)
    ensures Or(x, y) < Pow2(n)
    decreases n
  {
    if x > 0 && y > 0 { OrBound(x / 2, y / 2, n - 1); }
  }

  lemma {:induction false} BitComplement(x: nat, n: nat, i: nat)
    requires x < Pow2(n) && i < n
    ensures Bit(Pow2(n) - 1 - x, i) == !Bit(x, i)
    decreases n
  {
    if i > 0 {
      BitComplement(x / 2, n - 1, i - 1);
      assert (Pow2(n) - 1 - x) / 2 == Pow2(n - 1) - 1 - x / 2;
    }
  }

  /** A number below Pow2(n) has no bits from n on. */
  lemma {:induction false} BitHigh(x: nat, n: nat, i: nat)
    requires x < Pow2(n) && n <= i
    ensures !Bit(x, i)
    decreases n
  {
    if n == 0 { BitZero(i); } else { BitHigh(x / 2, n - 1, i - 1); }
  }

  lemma {:induction false} BitExtensional(x: nat, y: nat, n: nat)
    requires x < Pow2(n) && y < Pow2(n) && forall i | 0 <= i < n :: Bit(x, i) == Bit(y, i)
    ensures x == y
    decreases n
  {
    if n > 0 {
      assert Bit(x, 0) == Bit(y, 0);
      forall i | 0 <= i < n - 1 ensures Bit(x / 2, i) == Bit(y / 2, i) {
        assert Bit(x, i + 1) == Bit(y, i + 1);
      }
      BitExtensional(x / 2, y / 2, n - 1);
    }
  }

  lemma HalfMod(y: nat, p: nat)
    requires p > 0
    ensures (y % (2 * p)) / 2 == (y / 2) % p && (y % (2 * p)) % 2 == y % 2
  {
    var q, r := y / (2 * p), y % (2 * p);
    assert y == 2 * (p * q) + r;
    assert y / 2 == p * q + r / 2;
    ModUnique(y / 2, p, q, r / 2);
  }

  lemma AtLeastOnce(p: int, d: int)
    requires p > 0 && d >= 1
    ensures p * d >= p
  {
  }

  lemma ModUnique(x: int, p: int, q: int, r: int)
    requires p > 0 && 0 <= r < p && x == p * q + r
    ensures x % p == r
  {
    var q', r' := x / p, x % p;
    assert x == p * q' + r';
    assert p * (q - q') == p * q - p * q' && p * (q' - q) == p * q' - p * q;
    if q > q' {
      AtLeastOnce(p, q - q');
    } else if q < q' {
      AtLeastOnce(p, q' - q);
    }
  }

  lemma {:induction false} BitMod(y: nat, n: nat, i: nat)
    requires i < n
    ensures Bit(y % Pow2(n), i) == Bit(y, i)
    decreases n
  {
    HalfMod(y, Pow2(n - 1));
    if i > 0 { BitMod(y / 2, n - 1, i - 1); }
  }

  lemma {:induction false} BitShiftLeft(x: Word, k: nat, i: nat)
    requires i < 64
    ensures Bit(ShiftLeft(x, k), i) == (i >= k && Bit(x, i - k))
    decreases k
  {
    if k > 0 {
      var y := (2 * x) % Pow2(64);
      BitShiftLeft(y, k - 1, i);
      if i >= k - 1 { BitMod(2 * x, 64, i - (k - 1)); }
    }
  }

  lemma {:induction false} BitShiftRight(x: Word, k: nat, i: nat)
    ensures Bit(ShiftRight(x, k), i) == Bit(x, i + k)
    decreases k
  {
    if k > 0 { BitShiftRight(x / 2, k - 1, i); }
  }

  lemma BitOnes(i: nat)
    ensures Bit(ONES, i) == (i < 64)
  {
    if i < 64 {
      BitComplement(0, 64, i);
      BitZero(i);
    } else {
      BitHigh(ONES, 64, i);
    }
  }

  /** Pow2(n) - 1 has exactly the bits below n. */
  lemma BitLowMask(n: nat, i: nat)
    ensures Bit(Pow2(n) - 1, i) == (i < n)
  {
    if i < n {
      BitComplement(0, n, i);
      BitZero(i);
    } else {
      BitHigh(Pow2(n) - 1, n, i);
    }
  }

  /** bsf: the number of the lowest set bit */
  function Ffs(w: nat): (r: nat)
    requires w != 0
    ensures Bit(w, r) && forall i | 0 <= i < r :: !Bit(w, i)
  {
    if w % 2 == 1 then 0
    else
      var r := 1 + Ffs(w / 2);
      assert forall i | 0 <= i < r :: !Bit(w, i) by {
        forall i | 0 <= i < r ensures !Bit(w, i) { if i > 0 { assert !Bit(w / 2, i - 1); } }
      }
      r
  }

  lemma FfsBelow(w: Word)
    requires w != 0
    ensures Ffs(w) < 64
  {
    if Ffs(w) >= 64 { BitHigh(w, 64, Ffs(w)); }
  }

  /** A word that is not zero has a bit set. */
  lemma SomeBit(w: Word) returns (i: nat)
    requires w != 0
    ensures i < 64 && Bit(w, i)
  {
    FfsBelow(w);
    i := Ffs(w);
  }

  lemma {:induction false} AndOnes(x: nat, n: nat)
    requires x < Pow2(n)
    ensures And(x, Pow2(n) - 1) == x
    decreases n
  {
    if n > 0 && x > 0 {
      assert (Pow2(n) - 1) / 2 == Pow2(n - 1) - 1;
      AndOnes(x / 2, n - 1);
    }
  }

  lemma AndEven(x: nat, m: nat)
    ensures And(x, 2 * m) == 2 * And(x / 2, m)
  {
  }

  lemma {:induction false} AndHigh(x: nat, k: nat, n: nat)
    requires k <= n && x < Pow2(n) && Pow2(k) <= Pow2(n)
    ensures And(x, Pow2(n) - Pow2(k)) == x - x % Pow2(k)
    decreases n
  {
    if k == 0 {
      AndOnes(x, n);
    } else {
      var a, b := Pow2(n - 1), Pow2(k - 1);
      var half := And(x / 2, a - b);
      assert half == x / 2 - (x / 2) % b by { AndHigh(x / 2, k - 1, n - 1); }
      assert And(x, 2 * (a - b)) == 2 * half by { AndEven(x, a - b); }
      assert Pow2(n) - Pow2(k) == 2 * (a - b);
      assert x - x % (2 * b) == 2 * half by { EvenFloor(x, b); }
    }
  }

  lemma EvenFloor(x: nat, b: nat)
    requires b > 0
    ensures x - x % (2 * b) == 2 * (x / 2 - (x / 2) % b)
  {
    HalfMod(x, b);
  }

  /** x & ~(2^k - 1) rounds down to a multiple of 2^k. */
  lemma RoundDown(x: Word, k: nat)
    requires k <= 64
    ensures Pow2(k) <= Pow2(64) && And(x, Complement(Pow2(k) - 1)) == x - x % Pow2(k)
  {
    if k < 64 { Pow2Monotone(k, 64); }
    AndHigh(x, k, 64);
    assert Complement(Pow2(k) - 1) == Pow2(64) - Pow2(k);
  }

  // ----- multiples -----

  lemma MultiplesApart(y: nat, z: nat, p: nat)
    requires p > 0 && y % p == 0 && z % p == 0 && y < z
    ensures y + p <= z
  {
    var d := z / p - y / p;
    assert z - y == p * d;
    PositiveFactor(p, d);
    AtLeastOnce(p, d);
  }

  lemma PositiveFactor(p: int, d: int)
    requires p > 0 && p * d > 0
    ensures d >= 1
  {
  }

  lemma FloorIsMultiple(x: nat, p: nat)
    requires p > 0
    ensures x % p < p && (x - x % p) % p == 0
  {
    assert x - x % p == p * (x / p) + 0;
    ModUnique(x - x % p, p, x / p, 0);
  }
}
