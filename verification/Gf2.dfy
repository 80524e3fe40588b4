/** Polynomials over GF(2) as bit strings, most significant coefficient first,
    and the shift register that divides them. */
module Gf2 {

  type Bits = seq<bool>

  function Zeros(n: nat): (z: Bits)
    ensures |z| == n
    ensures forall i :: 0 <= i < n ==> !z[i]
  {
    seq(n, i => false)
  }

  function Ones(n: nat): (z: Bits)
    ensures |z| == n
    ensures forall i :: 0 <= i < n ==> z[i]
  {
    seq(n, i => true)
  }

  function Xor(a: Bits, b: Bits): (c: Bits)
    requires |a| == |b|
    ensures |c| == |a|
    ensures forall i :: 0 <= i < |c| ==> c[i] == (a[i] != b[i])
  {
    seq(|a|, i requires 0 <= i < |a| => a[i] != b[i])
  }

  /** A generator polynomial: leading and constant coefficients are both 1. */
  predicate Generator(g: Bits) {
    |g| >= 2 && g[0] && g[|g| - 1]
  }

  function Scale(c: bool, g: Bits): (s: Bits)
    ensures |s| == |g|
  {
    if c then g else Zeros(|g|)
  }

  /** The product of two polynomials, by schoolbook multiplication. */
  function Mul(q: Bits, g: Bits): (p: Bits)
    requires |g| >= 1
    ensures |p| == |q| + |g| - 1
  {
    if q == [] then Zeros(|g| - 1)
    else Xor(Scale(q[0], g) + Zeros(|q| - 1), [false] + Mul(q[1..], g))
  }

  /** `d = q * g + r` with the degree of `r` below that of `g`. */
  ghost predicate DividesTo(d: Bits, g: Bits, q: Bits, r: Bits)
    requires |g| >= 1
  {
    |r| == |g| - 1 && |d| == |q| + |r| && d == Xor(Mul(q, g), Zeros(|q|) + r)
  }

  /** Quotient and remainder are determined by the dividend. */
  lemma {:induction false} RemainderIsUnique(d: Bits, g: Bits, q1: Bits, r1: Bits, q2: Bits, r2: Bits)
    requires Generator(g)
    requires DividesTo(d, g, q1, r1) && DividesTo(d, g, q2, r2)
    ensures q1 == q2 && r1 == r2
    decreases |q1|
  {
    if |q1| == 0 {
      assert forall i :: 0 <= i < |d| ==> d[i] == r1[i] && d[i] == r2[i];
    } else {
      assert d[0] == q1[0] && d[0] == q2[0];
      var rest := Xor(d, Scale(q1[0], g) + Zeros(|q1| - 1))[1..];
      DivideOnce(d, g, q1, r1);
      DivideOnce(d, g, q2, r2);
      RemainderIsUnique(rest, g, q1[1..], r1, q2[1..], r2);
      assert q1 == [q1[0]] + q1[1..] && q2 == [q2[0]] + q2[1..];
    }
  }

  /** One line of long division: subtracting the shifted generator leaves a shorter division. */
  lemma DivideOnce(d: Bits, g: Bits, q: Bits, r: Bits)
    requires Generator(g) && |q| > 0 && DividesTo(d, g, q, r)
    ensures DividesTo(Xor(d, Scale(q[0], g) + Zeros(|q| - 1))[1..], g, q[1..], r)
  {
    var n := |q| - 1;
    var line := Scale(q[0], g) + Zeros(n);
    LineOff(d, line, Mul(q[1..], g), Zeros(n + 1) + r);
    ZerosTail(n, r);
  }

  lemma ZerosTail(n: nat, r: Bits)
    ensures (Zeros(n + 1) + r)[1..] == Zeros(n) + r
  {
  }

  /** Taking away a line takes its digits out of a sum, and the leading digit goes. */
  lemma LineOff(d: Bits, line: Bits, m: Bits, tail: Bits)
    requires |d| == |line| == |m| + 1 == |tail|
    requires d == Xor(Xor(line, [false] + m), tail)
    ensures Xor(d, line)[1..] == Xor(m, tail[1..])
  {
    var rest := Xor(d, line)[1..];
    forall i | 0 <= i < |rest| ensures rest[i] == Xor(m, tail[1..])[i] {
      assert rest[i] == (d[i + 1] != line[i + 1]);
      assert ([false] + m)[i + 1] == m[i];
    }
  }

  lemma XorAssoc(a: Bits, b: Bits, c: Bits)
    requires |a| == |b| == |c|
    ensures Xor(Xor(a, b), c) == Xor(a, Xor(b, c))
    ensures Xor(Xor(a, b), c) == Xor(Xor(a, c), b)
  {
  }

  /** The same line read upwards: one more quotient digit. */
  lemma PrependDigit(whole: Bits, top: bool, d: Bits, g: Bits, q: Bits, r: Bits)
    requires Generator(g) && DividesTo(d, g, q, r)
    requires whole == Xor(Scale(top, g) + Zeros(|q|), [false] + d)
    ensures DividesTo(whole, g, [top] + q, r)
  {
    var line, m, tail := Scale(top, g) + Zeros(|q|), [false] + Mul(q, g), Zeros(|q| + 1) + r;
    assert ([top] + q)[1..] == q;
    assert Mul([top] + q, g) == Xor(line, m);
    assert [false] + d == Xor(m, tail) by {
      assert tail == [false] + (Zeros(|q|) + r);
    }
    XorAssoc(line, m, tail);
  }

  // ----- the dividing shift register

  /** One clock of the register: shift one message bit in, subtract the generator if a 1 falls out. */
  function Clock(reg: Bits, bit: bool, g: Bits): (next: Bits)
    requires Generator(g) && |reg| == |g| - 1
    ensures |next| == |reg|
  {
    Xor(reg[1..] + [false], Scale(reg[0] != bit, g)[1..])
  }

  function Feed(reg: Bits, bits: Bits, g: Bits): (next: Bits)
    requires Generator(g) && |reg| == |g| - 1
    ensures |next| == |reg|
    decreases |bits|
  {
    if bits == [] then reg else Feed(Clock(reg, bits[0], g), bits[1..], g)
  }

  /** The polynomial being divided: the message times x^w, with the starting
      register added onto its leading w coefficients. */
  function Dividend(reg: Bits, bits: Bits): (d: Bits)
    ensures |d| == |bits| + |reg|
  {
    Xor(bits + Zeros(|reg|), reg + Zeros(|bits|))
  }

  /** The register ends up holding the remainder of polynomial long division. */
  lemma {:induction false} FeedDivides(reg: Bits, bits: Bits, g: Bits) returns (q: Bits)
    requires Generator(g) && |reg| == |g| - 1
    ensures DividesTo(Dividend(reg, bits), g, q, Feed(reg, bits, g))
    decreases |bits|
  {
    if bits == [] {
      q := [];
      assert Dividend(reg, bits) == reg;
      assert Xor(Mul(q, g), Zeros(0) + reg) == reg;
    } else {
      var top, next := reg[0] != bits[0], Clock(reg, bits[0], g);
      DividendStep(reg, bits, g);
      var q' := FeedDivides(next, bits[1..], g);
      q := [top] + q';
      PrependDigit(Dividend(reg, bits), top, Dividend(next, bits[1..]), g, q', Feed(next, bits[1..], g));
    }
  }

  /** Whichever way the dividend is divided, the remainder is the register. */
  lemma FeedIsTheRemainder(reg: Bits, bits: Bits, g: Bits, q: Bits, r: Bits)
    requires Generator(g) && |reg| == |g| - 1
    requires DividesTo(Dividend(reg, bits), g, q, r)
    ensures r == Feed(reg, bits, g)
  {
    var q0 := FeedDivides(reg, bits, g);
    RemainderIsUnique(Dividend(reg, bits), g, q, r, q0, Feed(reg, bits, g));
  }

  /** The coefficients, one by one; what lies outside a string counts as 0. */
  lemma DividendAt(reg: Bits, bits: Bits, i: nat)
    requires i < |reg| + |bits|
    ensures Dividend(reg, bits)[i] == ((i < |bits| && bits[i]) != (i < |reg| && reg[i]))
  {
  }

  lemma ClockAt(reg: Bits, bit: bool, g: Bits, i: nat)
    requires Generator(g) && |reg| == |g| - 1 && i < |reg|
    ensures Clock(reg, bit, g)[i] == ((i + 1 < |reg| && reg[i + 1]) != (reg[0] != bit && g[i + 1]))
  {
  }

  lemma LineAt(top: bool, g: Bits, n: nat, i: nat)
    requires i < |g| + n
    ensures (Scale(top, g) + Zeros(n))[i] == (top && i < |g| && g[i])
  {
  }

  lemma DividendStep(reg: Bits, bits: Bits, g: Bits)
    requires Generator(g) && |reg| == |g| - 1 && |bits| > 0
    ensures Dividend(reg, bits) ==
            Xor(Scale(reg[0] != bits[0], g) + Zeros(|bits| - 1),
                [false] + Dividend(Clock(reg, bits[0], g), bits[1..]))
  {
    hide Dividend, Clock, Scale, Zeros, Xor;
    var top, next, n := reg[0] != bits[0], Clock(reg, bits[0], g), |bits|;
    var d, d' := Dividend(reg, bits), Dividend(next, bits[1..]);
    var line := Scale(top, g) + Zeros(n - 1);
    forall i | 0 <= i < |d|
      ensures d[i] == (line[i] != ([false] + d')[i])
    {
      DividendAt(reg, bits, i);
      LineAt(top, g, n - 1, i);
      if i > 0 {
        DividendAt(next, bits[1..], i - 1);
        if i - 1 < |reg| {
          ClockAt(reg, bits[0], g, i - 1);
        }
      }
    }
  }

  // ----- what the remainder tells apart

  lemma {:induction false} FeedConcat(reg: Bits, a: Bits, b: Bits, g: Bits)
    requires Generator(g) && |reg| == |g| - 1
    ensures Feed(reg, a + b, g) == Feed(Feed(reg, a, g), b, g)
    decreases |a|
  {
    if a == [] {
      assert a + b == b;
    } else {
      assert (a + b)[1..] == a[1..] + b;
      FeedConcat(Clock(reg, a[0], g), a[1..], b, g);
    }
  }

  lemma ClockLinear(r: Bits, s: Bits, a: bool, b: bool, g: Bits)
    requires Generator(g) && |r| == |s| == |g| - 1
    ensures Clock(Xor(r, s), a != b, g) == Xor(Clock(r, a, g), Clock(s, b, g))
  {
    assert Xor(r, s)[0] == (r[0] != s[0]);
    forall i | 0 <= i < |r|
      ensures Clock(Xor(r, s), a != b, g)[i] == Xor(Clock(r, a, g), Clock(s, b, g))[i]
    {
      assert Xor(r, s)[1..] == Xor(r[1..], s[1..]);
    }
  }

  /** The register is linear in starting value and message together. */
  lemma {:induction false} FeedLinear(r: Bits, s: Bits, a: Bits, b: Bits, g: Bits)
    requires Generator(g) && |r| == |s| == |g| - 1 && |a| == |b|
    ensures Feed(Xor(r, s), Xor(a, b), g) == Xor(Feed(r, a, g), Feed(s, b, g))
    decreases |a|
  {
    if a != [] {
      ClockLinear(r, s, a[0], b[0], g);
      assert Xor(a, b)[1..] == Xor(a[1..], b[1..]);
      FeedLinear(Clock(r, a[0], g), Clock(s, b[0], g), a[1..], b[1..], g);
    }
  }

  lemma ClockEarly(reg: Bits, e: Bits, g: Bits)
    requires Generator(g) && |reg| == |g| - 1 && 0 < |e| <= |reg|
    ensures Clock(Xor(reg, e + Zeros(|reg| - |e|)), false, g) ==
            Xor(Clock(reg, e[0], g), e[1..] + Zeros(|reg| - |e| + 1))
  {
    var w := |reg|;
    var sum, late := Xor(reg, e + Zeros(w - |e|)), e[1..] + Zeros(w - |e| + 1);
    assert sum[0] == (reg[0] != e[0]);
    var take := Scale(sum[0], g)[1..];
    assert Clock(reg, e[0], g) == Xor(reg[1..] + [false], take);
    assert sum[1..] + [false] == Xor(reg[1..] + [false], late) by {
      forall i | 0 <= i < w ensures (sum[1..] + [false])[i] == Xor(reg[1..] + [false], late)[i] {
        if i + 1 < w { assert late[i] == (e + Zeros(w - |e|))[i + 1]; }
      }
    }
    XorAssoc(reg[1..] + [false], late, take);
  }

  /** Message bits may equally be added onto the head of the register beforehand. */
  lemma {:induction false} FeedEarly(reg: Bits, e: Bits, g: Bits)
    requires Generator(g) && |reg| == |g| - 1 && |e| <= |reg|
    ensures Feed(Xor(reg, e + Zeros(|reg| - |e|)), Zeros(|e|), g) == Feed(reg, e, g)
    decreases |e|
  {
    hide *;
    if e == [] {
      FeedNone(reg, e, g);
    } else {
      var sum, next, rest, pad := Xor(reg, e + Zeros(|reg| - |e|)), Clock(reg, e[0], g), e[1..], |reg| - |e| + 1;
      ClockEarly(reg, e, g);
      FeedZero(sum, |e| - 1, g);
      FeedOne(reg, e, g);
      assert |next| - |rest| == pad;
      FeedEarly(next, rest, g);
    }
  }

  lemma FeedNone(reg: Bits, e: Bits, g: Bits)
    requires Generator(g) && |reg| == |g| - 1 && e == []
    ensures Feed(Xor(reg, e + Zeros(|reg| - |e|)), Zeros(|e|), g) == reg == Feed(reg, e, g)
  {
    assert Xor(reg, e + Zeros(|reg|)) == reg;
  }

  lemma FeedOne(reg: Bits, bits: Bits, g: Bits)
    requires Generator(g) && |reg| == |g| - 1 && bits != []
    ensures Feed(reg, bits, g) == Feed(Clock(reg, bits[0], g), bits[1..], g)
  {
  }

  lemma FeedZero(reg: Bits, n: nat, g: Bits)
    requires Generator(g) && |reg| == |g| - 1
    ensures Feed(reg, Zeros(n + 1), g) == Feed(Clock(reg, false, g), Zeros(n), g)
  {
    var z := Zeros(n + 1);
    assert !z[0] && z[1..] == Zeros(n);
  }

  /** Only `e` followed by zeros is driven to zero by `e`, when `e` is no longer than the register. */
  lemma {:induction false} ZeroBackwards(reg: Bits, e: Bits, g: Bits)
    requires Generator(g) && |reg| == |g| - 1 && |e| <= |reg|
    requires Feed(reg, e, g) == Zeros(|reg|)
    ensures reg == e + Zeros(|reg| - |e|)
    decreases |e|
  {
    if e != [] {
      var next := Clock(reg, e[0], g);
      ZeroBackwards(next, e[1..], g);
      assert !next[|reg| - 1];
      assert next[|reg| - 1] == Scale(reg[0] != e[0], g)[|reg|];
      assert reg[0] == e[0];
      forall i | 0 <= i < |reg|
        ensures reg[i] == (e + Zeros(|reg| - |e|))[i]
      {
        if i > 0 {
          assert next[i - 1] == reg[i];
          assert next[i - 1] == (e[1..] + Zeros(|reg| - |e| + 1))[i - 1];
        }
      }
    }
  }

  /** A nonzero register stays nonzero over any run of zero bits. */
  lemma {:induction false} ZerosBackwards(reg: Bits, n: nat, g: Bits)
    requires Generator(g) && |reg| == |g| - 1
    requires Feed(reg, Zeros(n), g) == Zeros(|reg|)
    ensures reg == Zeros(|reg|)
    decreases n
  {
    if n > 0 {
      assert Zeros(n)[1..] == Zeros(n - 1);
      var next := Clock(reg, false, g);
      ZerosBackwards(next, n - 1, g);
      assert Feed(next, [], g) == next;
      assert Feed(reg, [false], g) == Feed(next, [], g);
      ZeroBackwards(reg, [false], g);
      assert reg == [false] + Zeros(|reg| - 1) == Zeros(|reg|);
    }
  }

  lemma {:induction false} FeedZeros(n: nat, g: Bits)
    requires Generator(g)
    ensures Feed(Zeros(|g| - 1), Zeros(n), g) == Zeros(|g| - 1)
    decreases n
  {
    if n > 0 {
      assert Zeros(n)[1..] == Zeros(n - 1);
      assert Clock(Zeros(|g| - 1), false, g) == Zeros(|g| - 1);
      FeedZeros(n - 1, g);
    }
  }

  /** `a` and `b` agree outside the `len` positions starting at `at`. */
  ghost predicate DifferOnlyWithin<T>(a: seq<T>, b: seq<T>, at: nat, len: nat) {
    |a| == |b| && at + len <= |a| && a[..at] == b[..at] && a[at + len..] == b[at + len..]
  }

  /** A short burst on its own never leaves a zero register. */
  lemma BurstLeavesRemainder(pre: nat, mid: Bits, post: nat, g: Bits)
    requires Generator(g) && |mid| <= |g| - 1
    requires Feed(Zeros(|g| - 1), Zeros(pre) + (mid + Zeros(post)), g) == Zeros(|g| - 1)
    ensures mid == Zeros(|mid|)
  {
    var zero := Zeros(|g| - 1);
    FeedConcat(zero, Zeros(pre), mid + Zeros(post), g);
    FeedZeros(pre, g);
    FeedConcat(zero, mid, Zeros(post), g);
    ZerosBackwards(Feed(zero, mid, g), post, g);
    ZeroBackwards(zero, mid, g);
    assert mid == zero[..|mid|];
  }

  /** The difference of two messages that agree outside a window is zero outside it. */
  lemma WindowDifference(a: Bits, b: Bits, at: nat, len: nat)
    requires DifferOnlyWithin(a, b, at, len)
    ensures Xor(a, b) == Zeros(at) + (Xor(a, b)[at..at + len] + Zeros(|a| - at - len))
  {
    var e := Xor(a, b);
    forall i | 0 <= i < |a| && !(at <= i < at + len) ensures !e[i] {
      if i < at {
        assert a[i] == a[..at][i] && b[i] == b[..at][i];
      } else {
        assert a[i] == a[at + len..][i - at - len] && b[i] == b[at + len..][i - at - len];
      }
    }
  }

  /** Burst errors no longer than the register always change it. */
  lemma BurstChangesRegister(reg: Bits, a: Bits, b: Bits, at: nat, len: nat, g: Bits)
    requires Generator(g) && |reg| == |g| - 1
    requires DifferOnlyWithin(a, b, at, len) && len <= |reg|
    requires Feed(reg, a, g) == Feed(reg, b, g)
    ensures a == b
  {
    var e, zero := Xor(a, b), Zeros(|reg|);
    FeedLinear(reg, reg, a, b, g);
    assert Xor(reg, reg) == zero;
    assert Feed(zero, e, g) == zero;
    WindowDifference(a, b, at, len);
    BurstLeavesRemainder(at, e[at..at + len], |a| - at - len, g);
    assert e == Zeros(at) + (Zeros(len) + Zeros(|a| - at - len)) == Zeros(|a|);
    assert forall i :: 0 <= i < |a| ==> !e[i];
  }

  lemma MultipleDividesEvenly(d: Bits, q: Bits, g: Bits)
    requires Generator(g)
    ensures DividesTo(d, g, q, Zeros(|g| - 1)) <==> |d| == |q| + |g| - 1 && d == Mul(q, g)
  {
    var none := Zeros(|q|) + Zeros(|g| - 1);
    assert forall i :: 0 <= i < |none| ==> !none[i];
    assert Xor(Mul(q, g), none) == Mul(q, g);
  }

  lemma MultipleHasNoRemainder(e: Bits, q: Bits, g: Bits)
    requires Generator(g) && |q| == |e| && Dividend(Zeros(|g| - 1), e) == Mul(q, g)
    ensures Feed(Zeros(|g| - 1), e, g) == Zeros(|g| - 1)
  {
    MultipleDividesEvenly(Dividend(Zeros(|g| - 1), e), q, g);
    FeedIsTheRemainder(Zeros(|g| - 1), e, g, q, Zeros(|g| - 1));
  }

  lemma DividendOfZero(e: Bits, w: nat)
    ensures Dividend(Zeros(w), e) == e + Zeros(w)
  {
  }

  lemma NoRemainderIsMultiple(e: Bits, g: Bits) returns (q: Bits)
    requires Generator(g) && Feed(Zeros(|g| - 1), e, g) == Zeros(|g| - 1)
    ensures |q| == |e| && Mul(q, g) == e + Zeros(|g| - 1)
  {
    q := FeedDivides(Zeros(|g| - 1), e, g);
    DividendOfZero(e, |g| - 1);
    MultipleDividesEvenly(e + Zeros(|g| - 1), q, g);
  }

  /** Two messages collide exactly when their difference, shifted past the
      register, is a multiple of the generator. */
  lemma CollideIffMultiple(reg: Bits, a: Bits, b: Bits, g: Bits)
    requires Generator(g) && |reg| == |g| - 1 && |a| == |b|
    ensures Feed(reg, a, g) == Feed(reg, b, g) <==>
            exists q :: |q| == |a| && Mul(q, g) == Xor(a, b) + Zeros(|reg|)
  {
    var x, y := Feed(reg, a, g), Feed(reg, b, g);
    FeedLinear(reg, reg, a, b, g);
    assert Xor(reg, reg) == Zeros(|reg|);
    if x == y {
      assert Xor(x, y) == Zeros(|reg|);
      var q := NoRemainderIsMultiple(Xor(a, b), g);
    }
    if q :| |q| == |a| && Mul(q, g) == Xor(a, b) + Zeros(|reg|) {
      DividendOfZero(Xor(a, b), |reg|);
      MultipleHasNoRemainder(Xor(a, b), q, g);
      assert forall i :: 0 <= i < |reg| ==> !Xor(x, y)[i];
      assert x == y;
    }
  }
}
