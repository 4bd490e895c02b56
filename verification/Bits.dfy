/** Powers of two and the bitwise OR of natural numbers. */
module Bits {

  function Pow2(n: nat): (r: nat)
    ensures r > 0
  {
    if n == 0 then 1 else 2 * Pow2(n - 1)
  }

  lemma {:induction false} Pow2Add(a: nat, b: nat)
    ensures Pow2(a + b) == Pow2(a) * Pow2(b)
  {
    if a > 0 {
      Pow2Add(a - 1, b);
      assert Pow2(a + b) == 2 * (Pow2(a - 1) * Pow2(b));
    }
  }

  lemma {:induction false} Pow2Monotone(a: nat, b: nat)
    requires a <= b
    ensures Pow2(a) <= Pow2(b)
  {
    if a < b {
      Pow2Monotone(a, b - 1);
    }
  }

  /** `x | y`. */
  function BitOr(x: nat, y: nat): (r: nat) {
    if x == 0 && y == 0 then 0
    else 2 * BitOr(x / 2, y / 2) + if x % 2 == 1 || y % 2 == 1 then 1 else 0
  }

  lemma {:induction false} BitOrZero(x: nat)
    ensures BitOr(0, x) == x
  {
    if x > 0 {
      BitOrZero(x / 2);
    }
  }

  /** OR-ing into bit positions above those in use is an addition. */
  lemma {:induction false} BitOrDisjoint(x: nat, y: nat, k: nat)
    requires x < Pow2(k)
    ensures BitOr(x, y * Pow2(k)) == x + y * Pow2(k)
  {
    if k == 0 {
      BitOrZero(y);
    } else {
      var z := y * Pow2(k - 1);
      assert y * Pow2(k) == 2 * z;
      BitOrDisjoint(x / 2, y, k - 1);
      assert 2 * z / 2 == z && 2 * z % 2 == 0;
    }
  }

  lemma MulAtLeast(x: int, d: int)
    requires d > 0
    ensures x >= 1 ==> x * d >= d
    ensures x <= -1 ==> x * d <= -d
  {
  }

  /** `x < w` leaves room for one more `p`. */
  lemma MulBelow(x: nat, w: nat, p: nat)
    requires x < w
    ensures x * p + p <= w * p
  {
    assert x * p + p == (x + 1) * p;
    ScaleUp(x + 1, w, p);
  }

  lemma ScaleUp(a: nat, b: nat, c: nat)
    requires a <= b
    ensures a * c <= b * c
  {
  }

  lemma Associate(x: int, y: int, z: int)
    ensures x * y * z == x * (y * z)
  {
  }

  lemma Distribute(a: int, b: int, c: int)
    ensures (a + b) * c == a * c + b * c
  {
  }

  lemma NatDivMod(a: nat, d: nat)
    requires d > 0
    ensures 0 <= a / d && 0 <= a % d < d
  {
  }

  /** OR-ing a `w`-bit number in above the first `o` bits. */
  lemma BitOrAbove(low: nat, x: nat, o: nat, w: nat)
    requires low < Pow2(o) && x < Pow2(w)
    ensures BitOr(low, x * Pow2(o)) == low + x * Pow2(o) < Pow2(o + w)
  {
    BitOrDisjoint(low, x, o);
    Pow2Add(w, o);
    MulBelow(x, Pow2(w), Pow2(o));
  }

  /** `r` and `q` are remainder and quotient of `a` by `d`. */
  lemma DivModUnique(a: int, d: int, q: int, r: int)
    requires d > 0 && a == q * d + r && 0 <= r < d
    ensures a / d == q && a % d == r
  {
    var q', r' := a / d, a % d;
    assert a == q' * d + r' && 0 <= r' < d;
    assert (q - q') * d == r' - r;
    MulAtLeast(q - q', d);
  }

  lemma DivOfSum(a: int, y: int, d: int)
    requires d > 0
    ensures (a + y * d) / d == a / d + y
    ensures (a + y * d) % d == a % d
  {
    var q, r := a / d, a % d;
    assert a == q * d + r;
    assert (q + y) * d == q * d + y * d;
    DivModUnique(a + y * d, d, q + y, r);
  }
}
