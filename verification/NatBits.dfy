/** Bitwise operations on unsigned numbers, digit by digit, and what they come to
    for masks of low bits. */
module NatBits {

  function Pow2(k: nat): (p: nat)
    ensures p > 0
  {
    if k == 0 then 1 else 2 * Pow2(k - 1)
  }

  /** a & b */
  function And(a: nat, b: nat): nat {
    if a == 0 then 0 else (if a % 2 == 1 && b % 2 == 1 then 1 else 0) + 2 * And(a / 2, b / 2)
  }

  /** a & ~b */
  function AndNot(a: nat, b: nat): nat {
    if a == 0 then 0 else (if a % 2 == 1 && b % 2 == 0 then 1 else 0) + 2 * AndNot(a / 2, b / 2)
  }

  /** a | b */
  function Or(a: nat, b: nat): nat
    decreases a + b
  {
    if a == 0 && b == 0 then 0 else (if a % 2 == 1 || b % 2 == 1 then 1 else 0) + 2 * Or(a / 2, b / 2)
  }

  lemma {:induction false} AndNotIsRest(a: nat, b: nat)
    ensures And(a, b) + AndNot(a, b) == a
  {
    if a > 0 {
      AndNotIsRest(a / 2, b / 2);
    }
  }

  lemma {:induction false} AndPlusOr(a: nat, b: nat)
    ensures And(a, b) + Or(a, b) == a + b
    decreases a + b
  {
    if a > 0 || b > 0 {
      AndPlusOr(a / 2, b / 2);
    }
  }

  lemma {:induction false} AndZero(a: nat)
    ensures And(a, 0) == 0
  {
    if a > 0 {
      AndZero(a / 2);
    }
  }

  /** n & (2^k - 1) is n % 2^k. */
  lemma {:induction false} AndMask(n: nat, k: nat)
    ensures And(n, Pow2(k) - 1) == n % Pow2(k)
    decreases k
  {
    if k == 0 {
      AndZero(n);
    } else {
      AndMask(n / 2, k - 1);
      HalfMod(n, Pow2(k - 1));
      AndOddMask(n, Pow2(k - 1));
    }
  }

  lemma AndOddMask(n: nat, m: nat)
    requires m > 0
    ensures And(n, 2 * m - 1) == n % 2 + 2 * And(n / 2, m - 1)
  {
    assert (2 * m - 1) % 2 == 1 && (2 * m - 1) / 2 == m - 1;
  }

  lemma HalfMod(n: nat, m: nat)
    requires m > 0
    ensures n % (2 * m) == 2 * (n / 2 % m) + n % 2
  {
    var h := n / 2;
    var q, r := h / m, h % m;
    assert h == q * m + r;
    assert q * (2 * m) == 2 * (q * m);
    ModIs(n, 2 * m, q, 2 * r + n % 2);
  }

  /** Numbers with no bit in common. */
  lemma {:induction false} AndApart(a: nat, b: nat, k: nat)
    requires a % Pow2(k) == 0 && b < Pow2(k)
    ensures And(a, b) == 0
    decreases k
  {
    if k == 0 {
      AndZero(a);
    } else {
      var m := Pow2(k - 1);
      var q := a / (2 * m);
      assert a == q * (2 * m) == 2 * (q * m);
      ModIs(a / 2, m, q, 0);
      AndApart(a / 2, b / 2, k - 1);
    }
  }

  /** The top bit of a number of k + 1 bits. */
  lemma {:induction false} AndTop(n: nat, k: nat)
    requires n < 2 * Pow2(k)
    ensures And(n, Pow2(k)) == if n >= Pow2(k) then Pow2(k) else 0
    decreases k
  {
    if k == 0 {
      assert And(n, 1) == n % 2 + 2 * And(n / 2, 0);
    } else if n > 0 {
      AndTop(n / 2, k - 1);
    }
  }

  // ----- remainders

  lemma ModIs(n: nat, w: nat, q: nat, r: nat)
    requires r < w && n == q * w + r
    ensures n % w == r
  {
    var k := n / w;
    assert n == k * w + n % w;
    if k > q {
      TimesAtLeast(k, q, w);
    } else if k < q {
      TimesAtLeast(q, k, w);
    }
  }

  lemma {:induction false} TimesAtLeast(a: nat, b: nat, w: nat)
    requires a > b
    ensures a * w >= b * w + w
  {
    if a > b + 1 {
      TimesAtLeast(a - 1, b, w);
    }
  }

  lemma ModAdds(n: nat, w: int, d: nat)
    requires w > 0
    ensures n % w + d < w ==> (n + d) % w == n % w + d
    ensures n % w + d == w ==> (n + d) % w == 0
  {
    var q := n / w;
    assert n == q * w + n % w;
    if n % w + d < w {
      ModIs(n + d, w, q, n % w + d);
    } else if n % w + d == w {
      assert (q + 1) * w == q * w + w;
      ModIs(n + d, w, q + 1, 0);
    }
  }
}
