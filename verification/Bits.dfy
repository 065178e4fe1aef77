/** Bitwise operations on naturals, defined bit by bit, with the facts the ring
    masks, bitmaps, alignment roundings and address prefixes rest on. */
module Bits {

  /** 1 << n */
  function Pow2(n: nat): (r: nat)
    ensures r > 0
  {
    if n == 0 then 1 else 2 * Pow2(n - 1)
  }

  /** Bit i of x. */
  predicate Bit(x: nat, i: nat) {
    if i == 0 then x % 2 == 1 else Bit(x / 2, i - 1)
  }

  /** x & y */
  function And(x: nat, y: nat): nat {
    if x == 0 then 0
    else (if x % 2 == 1 && y % 2 == 1 then 1 else 0) + 2 * And(x / 2, y / 2)
  }

  /** x | y */
  function Or(x: nat, y: nat): nat
    decreases x + y
  {
    if x == 0 && y == 0 then 0
    else (if x % 2 == 1 || y % 2 == 1 then 1 else 0) + 2 * Or(x / 2, y / 2)
  }

  /** !x in a word of w bits. */
  function Not(w: nat, x: nat): nat
    requires x < Pow2(w)
  {
    Pow2(w) - 1 - x
  }

  lemma {:induction false} BitZero(i: nat)
    ensures !Bit(0, i)
  {
    if i > 0 { BitZero(i - 1); }
  }

  lemma {:induction false} BitAnd(x: nat, y: nat, i: nat)
    ensures Bit(And(x, y), i) <==> Bit(x, i) && Bit(y, i)
    decreases x
  {
    if x == 0 {
      BitZero(i);
    } else if i > 0 {
      BitAnd(x / 2, y / 2, i - 1);
    }
  }

  lemma {:induction false} BitOr(x: nat, y: nat, i: nat)
    ensures Bit(Or(x, y), i) <==> Bit(x, i) || Bit(y, i)
    decreases i
  {
    if x == 0 && y == 0 {
      BitZero(i);
    } else if i > 0 {
      BitOr(x / 2, y / 2, i - 1);
    }
  }

  lemma {:induction false} BitPow2(k: nat, i: nat)
    ensures Bit(Pow2(k), i) <==> i == k
  {
    if k == 0 {
      if i > 0 { BitZero(i - 1); }
    } else if i > 0 {
      BitPow2(k - 1, i - 1);
    }
  }

  lemma {:induction false} BitNot(w: nat, x: nat, i: nat)
    requires x < Pow2(w) && i < w
    ensures Bit(Not(w, x), i) <==> !Bit(x, i)
  {
    if i > 0 {
      BitNot(w - 1, x / 2, i - 1);
      assert Not(w, x) / 2 == Not(w - 1, x / 2);
    }
  }

  /** Bits at or above the width of a word are clear. */
  lemma {:induction false} BitHigh(w: nat, x: nat, i: nat)
    requires x < Pow2(w) && w <= i
    ensures !Bit(x, i)
  {
    if w == 0 {
      BitZero(i);
    } else {
      BitHigh(w - 1, x / 2, i - 1);
    }
  }

  lemma {:induction false} AndBound(x: nat, y: nat)
    ensures And(x, y) <= x
  {
    if x != 0 { AndBound(x / 2, y / 2); }
  }

  lemma {:induction false} AndBoundRight(x: nat, y: nat)
    ensures And(x, y) <= y
  {
    if x != 0 { AndBoundRight(x / 2, y / 2); }
  }

  lemma {:induction false} OrBound(w: nat, x: nat, y: nat)
    requires x < Pow2(w) && y < Pow2(w)
    ensures Or(x, y) < Pow2(w)
    decreases w
  {
    if w > 0 && !(x == 0 && y == 0) { OrBound(w - 1, x / 2, y / 2); }
  }

  lemma {:induction false} Pow2Monotone(a: nat, b: nat)
    requires a <= b
    ensures Pow2(a) <= Pow2(b)
  {
    if a < b { Pow2Monotone(a, b - 1); }
  }

  lemma {:induction false} Pow2Add(a: nat, b: nat)
    ensures Pow2(a + b) == Pow2(a) * Pow2(b)
  {
    if a > 0 { Pow2Add(a - 1, b); }
  }

  lemma Pow2Values()
    ensures Pow2(8) == 0x100 && Pow2(16) == 0x1_0000
    ensures Pow2(32) == 0x1_0000_0000 && Pow2(64) == 0x1_0000_0000_0000_0000
  {
    assert Pow2(4) == 16;
    Pow2Add(4, 4);
    Pow2Add(8, 8);
    Pow2Add(16, 16);
    Pow2Add(32, 32);
  }

  /** x & (2^k - 1) keeps the remainder modulo 2^k. */
  lemma {:induction false} AndLowMask(x: nat, k: nat)
    ensures And(x, Pow2(k) - 1) == x % Pow2(k)
    decreases k
  {
    if k == 0 {
      AndZero(x);
    } else if x != 0 {
      AndLowMask(x / 2, k - 1);
      assert (Pow2(k) - 1) / 2 == Pow2(k - 1) - 1;
      HalfMod(x, Pow2(k - 1));
    }
  }

  lemma {:induction false} AndZero(x: nat)
    ensures And(x, 0) == 0
  {
    if x != 0 { AndZero(x / 2); }
  }

  lemma HalfMod(x: nat, m: nat)
    requires m > 0
    ensures x % (2 * m) == x % 2 + 2 * ((x / 2) % m)
  {
    var q, r := (x / 2) / m, (x / 2) % m;
    assert x / 2 == q * m + r;
    assert x == (2 * m) * q + (x % 2 + 2 * r);
    DivModUnique(x, 2 * m, q, x % 2 + 2 * r);
  }

  lemma DivModUnique(x: nat, m: nat, q: nat, r: nat)
    requires 0 <= r < m && x == m * q + r
    ensures x / m == q && x % m == r
  {
    var d := x / m;
    assert m * (d - q) == r - x % m;
    MultipleBig(m, d - q);
  }

  lemma MultipleBig(m: nat, k: int)
    ensures k >= 1 ==> m * k >= m
    ensures k <= -1 ==> m * k + m <= 0
  {
  }

  /** Masking with the high bits of a word clears the low k bits. */
  lemma {:induction false} AndHighMask(w: nat, x: nat, k: nat)
    requires k <= w && x < Pow2(w)
    ensures Pow2(k) <= Pow2(w)
    ensures And(x, Pow2(w) - Pow2(k)) == x - x % Pow2(k)
    decreases w
  {
    hide And;
    Pow2Monotone(k, w);
    if k == 0 {
      assert Pow2(0) == 1;
      hide Pow2;
      AndAllOnes(w, x);
      assert x % 1 == 0;
    } else {
      var low, high := Pow2(k - 1), Pow2(w - 1);
      assert Pow2(w) == 2 * high && Pow2(k) == 2 * low;
      hide Pow2;
      AndHighMask(w - 1, x / 2, k - 1);
      AndHighStep(x, low, high);
    }
  }

  lemma AndHighStep(x: nat, low: nat, high: nat)
    requires 0 < low <= high
    requires And(x / 2, high - low) == x / 2 - (x / 2) % low
    ensures And(x, 2 * (high - low)) == x - x % (2 * low)
  {
    var half := And(x / 2, high - low);
    AndEven(x, high - low);
    assert And(x, 2 * (high - low)) == 2 * half;
    assert 2 * half == x - x % (2 * low) by {
      ClearHalf(x, low);
    }
  }

  lemma ClearHalf(x: nat, m: nat)
    requires m > 0
    ensures 2 * (x / 2 - (x / 2) % m) == x - x % (2 * m)
  {
    HalfMod(x, m);
  }

  lemma AndEven(x: nat, y: nat)
    ensures And(x, 2 * y) == 2 * And(x / 2, y)
  {
    assert (2 * y) / 2 == y;
  }

  lemma {:induction false} AndAllOnes(w: nat, x: nat)
    requires x < Pow2(w)
    ensures And(x, Pow2(w) - 1) == x
    decreases w
  {
    if x != 0 {
      var p := Pow2(w - 1);
      assert Pow2(w) == 2 * p;
      hide And, Pow2;
      AndAllOnes(w - 1, x / 2);
      AndOnesStep(x, p);
    }
  }

  lemma AndOnesStep(x: nat, p: nat)
    requires p > 0 && x > 0 && And(x / 2, p - 1) == x / 2
    ensures And(x, 2 * p - 1) == x
  {
    assert (2 * p - 1) / 2 == p - 1 && (2 * p - 1) % 2 == 1;
  }

  /** Reducing modulo a multiple of m first does not change the remainder modulo m. */
  lemma ModOfMod(x: nat, m: nat, c: nat)
    requires m > 0 && c > 0
    ensures m * c > 0
    ensures (x % (m * c)) % m == x % m
  {
    var n := m * c;
    var q, r := x / n, x % n;
    var q2, r2 := r / m, r % m;
    Regroup(m, c, q, q2);
    assert x == m * (c * q + q2) + r2 by {
      assert x == n * q + r;
      assert r == m * q2 + r2;
    }
    DivModUnique(x, m, c * q + q2, r2);
  }

  lemma Regroup(m: nat, c: nat, q: nat, k: nat)
    ensures m * (c * q + k) == (m * c) * q + m * k
  {
    assert m * (c * q + k) == m * (c * q) + m * k;
    assert m * (c * q) == (m * c) * q;
  }

  /** (v + (a - 1)) & !(a - 1) on words of w bits, for a = 2^k. */
  function AlignTo(w: nat, v: nat, k: nat): nat
    requires k <= w && v + (Pow2(k) - 1) < Pow2(w)
  {
    Pow2Monotone(k, w);
    And(v + (Pow2(k) - 1), Not(w, Pow2(k) - 1))
  }

  /** Aligning gives the least multiple of 2^k that is not below v. */
  lemma AlignToLeast(w: nat, v: nat, k: nat)
    requires k <= w && v + (Pow2(k) - 1) < Pow2(w)
    ensures var r := AlignTo(w, v, k); r % Pow2(k) == 0 && v <= r < v + Pow2(k)
  {
    hide And, Pow2;
    var a, x := Pow2(k), v + (Pow2(k) - 1);
    AndHighMask(w, x, k);
    assert Not(w, a - 1) == Pow2(w) - a;
    assert AlignTo(w, v, k) == x - x % a;
    RoundUp(v, a);
  }

  lemma RoundUp(v: nat, a: nat)
    requires a > 0
    ensures var r := v + (a - 1) - (v + (a - 1)) % a; r % a == 0 && v <= r < v + a
  {
    var x := v + (a - 1);
    assert x == a * (x / a) + x % a;
    DivModUnique(x - x % a, a, x / a, 0);
  }

  // ---------------------------------------------------------------- single bits of a word

  /** x | (1 << i) */
  function SetBit(x: nat, i: nat): nat {
    Or(x, Pow2(i))
  }

  /** x & !(1 << i) in a word of w bits */
  function ClearBit(w: nat, x: nat, i: nat): nat
    requires i < w
  {
    Pow2Strict(i, w);
    And(x, Not(w, Pow2(i)))
  }

  lemma {:induction false} Pow2Strict(a: nat, b: nat)
    requires a < b
    ensures Pow2(a) < Pow2(b)
  {
    if a + 1 < b { Pow2Strict(a, b - 1); }
  }

  lemma BitSet(w: nat, x: nat, i: nat, j: nat)
    requires x < Pow2(w) && i < w
    ensures SetBit(x, i) < Pow2(w)
    ensures Bit(SetBit(x, i), j) <==> j == i || Bit(x, j)
  {
    Pow2Strict(i, w);
    OrBound(w, x, Pow2(i));
    BitOr(x, Pow2(i), j);
    BitPow2(i, j);
  }

  lemma BitClear(w: nat, x: nat, i: nat, j: nat)
    requires x < Pow2(w) && i < w && j < w
    ensures ClearBit(w, x, i) < Pow2(w)
    ensures Bit(ClearBit(w, x, i), j) <==> j != i && Bit(x, j)
  {
    Pow2Strict(i, w);
    AndBound(x, Not(w, Pow2(i)));
    BitAnd(x, Not(w, Pow2(i)), j);
    BitNot(w, Pow2(i), j);
    BitPow2(i, j);
  }

  function TrailingZeros(x: nat): nat
    requires x > 0
  {
    if x % 2 == 1 then 0 else 1 + TrailingZeros(x / 2)
  }

  /** The number of trailing zeros is the index of the lowest set bit. */
  lemma {:induction false} LowestBit(w: nat, x: nat)
    requires 0 < x < Pow2(w)
    ensures TrailingZeros(x) < w && Bit(x, TrailingZeros(x))
    ensures forall j: nat :: j < TrailingZeros(x) ==> !Bit(x, j)
  {
    if x % 2 == 0 {
      LowestBit(w - 1, x / 2);
      forall j: nat | j < TrailingZeros(x)
        ensures !Bit(x, j)
      {
        if j > 0 { assert !Bit(x / 2, j - 1); }
      }
    }
  }
}
