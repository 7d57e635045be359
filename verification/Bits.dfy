/** Bitwise and on unsigned integers of any width, and what a 2^k - 1 mask does. */
module Bits {

  function BitAnd(a: nat, b: nat): (r: nat)
    ensures r <= a && r <= b
  {
    if a == 0 || b == 0 then 0
    else (if a % 2 == 1 && b % 2 == 1 then 1 else 0) + 2 * BitAnd(a / 2, b / 2)
  }

  function Pow2(k: nat): (n: nat)
    ensures n >= 1
  {
    if k == 0 then 1 else 2 * Pow2(k - 1)
  }

  lemma OddMask(a: nat, c: nat)
    ensures BitAnd(a, 2 * c + 1) == a % 2 + 2 * BitAnd(a / 2, c)
  {
  }

  lemma HalveMod(a: nat, n: nat)
    requires n > 0
    ensures a % (2 * n) == a % 2 + 2 * (a / 2 % n)
  {
    var q, r := a / 2 / n, a / 2 % n;
    assert a / 2 == q * n + r;
    ModUnique(a, 2 * n, q, a % 2 + 2 * r);
  }

  lemma ModUnique(a: nat, n: nat, q: nat, r: nat)
    requires a == q * n + r && r < n
    ensures a % n == r
  {
    var d := a / n;
    if d < q {
      Scale(d + 1, q, n);
      assert false;
    } else if q < d {
      Scale(q + 1, d, n);
      assert false;
    }
  }

  lemma Scale(x: int, y: int, n: nat)
    requires x <= y
    ensures x * n <= y * n
  {
  }

  /** key & tbl_max is key mod the number of buckets, when that number is a power of two. */
  lemma {:induction false} MaskIsMod(a: nat, k: nat)
    ensures BitAnd(a, Pow2(k) - 1) == a % Pow2(k)
  {
    if k > 0 {
      MaskIsMod(a / 2, k - 1);
      OddMask(a, Pow2(k - 1) - 1);
      HalveMod(a, Pow2(k - 1));
    }
  }

  lemma DivMod(a: nat, m: nat)
    requires m > 0
    ensures a == a / m * m + a % m && a % m < m
  {
  }

  /** a % (2 * n), split at n: the multiples are written out, so that no division is left. */
  lemma DoubleMod(a: nat, n: nat, m: nat, q: nat, r: nat)
    requires n > 0 && m == 2 * n && a == q * m + r && r < m
    ensures r - a % n in {0, n}
  {
    var w := q * n;
    assert q * m == 2 * w;
    if r < n {
      assert (2 * q) * n == 2 * w;
      ModUnique(a, n, 2 * q, r);
    } else {
      assert (2 * q + 1) * n == 2 * w + n;
      ModUnique(a, n, 2 * q + 1, r - n);
    }
  }

  /** Doubling the mask adds the next bit of the key: a bucket splits into itself and its twin. */
  lemma WiderMask(a: nat, k: nat)
    ensures BitAnd(a, 2 * Pow2(k) - 1) - BitAnd(a, Pow2(k) - 1) in {0, Pow2(k)}
  {
    MaskIsMod(a, k);
    MaskIsMod(a, k + 1);
    var m := Pow2(k + 1);
    assert m == 2 * Pow2(k);
    DivMod(a, m);
    DoubleMod(a, Pow2(k), m, a / m, a % m);
  }

  /** An even key never lands in the last bucket. */
  lemma EvenKeyMissesLast(a: nat, k: nat)
    requires a % 2 == 0 && k >= 1
    ensures BitAnd(a, Pow2(k) - 1) != Pow2(k) - 1
  {
  }
}
