/** Powers of two, shifts, aligned blocks and the order of a request, as `BuddyZone.h` computes them. */
module Powers {
  function Pow2(n: nat): (p: nat)
    ensures p >= 1
  {
    if n == 0 then 1 else 2 * Pow2(n - 1)
  }

  lemma {:induction false} Pow2Monotone(m: nat, n: nat)
    requires m <= n
    ensures Pow2(m) <= Pow2(n)
    ensures m < n ==> 2 * Pow2(m) <= Pow2(n)
    decreases n
  {
    if m < n {
      Pow2Monotone(m, n - 1);
    }
  }

  /** x << n, that is x * 2^n. */
  function ShiftLeft(x: nat, n: nat): (y: nat)
    ensures y == x * Pow2(n)
  {
    if n == 0 then x else
      assert x * (2 * Pow2(n - 1)) == 2 * (x * Pow2(n - 1));
      2 * ShiftLeft(x, n - 1)
  }

  /** x >> n. */
  function ShiftRight(x: nat, n: nat): nat {
    if n == 0 then x else ShiftRight(x / 2, n - 1)
  }

  /** The low n bits of x are zero: x is a multiple of 2^n. */
  predicate Aligned(x: nat, n: nat) {
    n == 0 || (x % 2 == 0 && Aligned(x / 2, n - 1))
  }

  lemma {:induction false} AlignedShifts(x: nat, n: nat)
    requires Aligned(x, n)
    ensures ShiftLeft(ShiftRight(x, n), n) == x
  {
    if n > 0 {
      AlignedShifts(x / 2, n - 1);
    }
  }

  lemma {:induction false} ShiftRightNext(x: nat, n: nat)
    ensures ShiftRight(x, n + 1) == ShiftRight(x, n) / 2
  {
    if n > 0 {
      ShiftRightNext(x / 2, n - 1);
    }
  }

  lemma {:induction false} AlignedDown(x: nat, m: nat, n: nat)
    requires m <= n && Aligned(x, n)
    ensures Aligned(x, m)
  {
    if m > 0 {
      AlignedDown(x / 2, m - 1, n - 1);
    }
  }

  lemma {:induction false} AlignedAdd(x: nat, n: nat)
    requires Aligned(x, n)
    ensures Aligned(x + Pow2(n), n)
  {
    if n > 0 {
      AlignedAdd(x / 2, n - 1);
    }
  }

  lemma {:induction false} ShiftRightBound(x: nat, m: nat, n: nat)
    requires m <= n && x < Pow2(n)
    ensures ShiftRight(x, m) < Pow2(n - m)
    decreases m
  {
    if m > 0 {
      ShiftRightBound(x / 2, m - 1, n - 1);
    }
  }

  /** The two blocks of 2^n pages inside the j-th block of 2^(n+1) pages have pair number j. */
  lemma {:induction false} PairOfHalves(j: nat, n: nat)
    ensures ShiftRight(ShiftLeft(j, n + 1), n + 1) == j
    ensures ShiftRight(ShiftLeft(j, n + 1) + Pow2(n), n + 1) == j
    ensures Aligned(ShiftLeft(j, n + 1), n) && Aligned(ShiftLeft(j, n + 1) + Pow2(n), n)
  {
    if n > 0 {
      PairOfHalves(j, n - 1);
      assert (ShiftLeft(j, n + 1) + Pow2(n)) / 2 == ShiftLeft(j, n) + Pow2(n - 1);
    }
  }

  /** A block of 2^n pages is the first or the second half of its pair. */
  lemma {:induction false} HalfOfPair(b: nat, n: nat)
    requires Aligned(b, n)
    ensures var f := ShiftLeft(ShiftRight(b, n + 1), n + 1);
            (b == f || b == f + Pow2(n)) && Aligned(f, n + 1)
  {
    if n > 0 {
      HalfOfPair(b / 2, n - 1);
    }
  }

  /** Two aligned blocks that share a page are nested. */
  lemma {:induction false} Nested(b: nat, o: nat, c: nat, o': nat, x: nat)
    requires o <= o' && Aligned(b, o) && Aligned(c, o')
    requires b <= x < b + Pow2(o) && c <= x < c + Pow2(o')
    ensures c <= b && b + Pow2(o) <= c + Pow2(o')
    decreases o
  {
    if o > 0 {
      Nested(b / 2, o - 1, c / 2, o' - 1, x / 2);
    }
  }

  /** Index of the highest set bit of n, the value of 31 - clz(n). */
  function HighBit(n: nat): (h: nat)
    requires n > 0
    ensures Pow2(h) <= n < Pow2(h + 1)
  {
    if n == 1 then 0 else 1 + HighBit(n / 2)
  }

  /** `order_for`: the highest bit, plus one unless n is that power of two. */
  function OrderFor(n: nat): (o: nat)
    requires n > 0
    ensures n <= Pow2(o)
    ensures o > 0 ==> Pow2(o - 1) < n
  {
    var h := HighBit(n);
    if n - Pow2(h) != 0 then h + 1 else h
  }

  lemma {:induction false} OrderForPow2(k: nat)
    ensures OrderFor(Pow2(k)) == k
  {
    hide OrderFor;
    var o := OrderFor(Pow2(k));
    if o < k {
      Pow2Monotone(o, k);
    } else if k < o {
      Pow2Monotone(k, o - 1);
    }
  }

  /** A request for three pages is served by a block of four. */
  lemma ThreePagesTakeFour()
    ensures OrderFor(3) == 2 && Pow2(OrderFor(3)) == 4
  {
    OrderForPow2(2);
    assert Pow2(1) == 2 && Pow2(2) == 4;
  }
}
