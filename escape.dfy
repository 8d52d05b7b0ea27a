/**
 * The escape-time evaluator `escape_time` (src/main.rs:7-16): iterate
 * z <- z*z + c from z = 0 and report the first iteration index below
 * `limit` at which |z|^2 > 4, checking before each update.
 *
 * What the loop promises depends only on its structure (check before
 * update, early return, no result at the limit), so that part is stated
 * for an arbitrary sequence of check outcomes `escaped(0), escaped(1), ...`
 * and then instantiated with the outcomes of the complex iteration.
 */
module Escape {
  import opened Wrappers
  import opened ComplexPlane

  /** None of the checks at iterations 0 .. n-1 succeeded. */
  predicate NoneBefore(escaped: nat -> bool, n: nat) {
    forall j :: 0 <= j < n ==> !escaped(j)
  }

  /** Some check below `limit` succeeds. */
  predicate SomeBefore(escaped: nat -> bool, limit: nat) {
    exists n :: 0 <= n < limit && escaped(n)
  }

  /** When some check below the limit succeeds, a first one does. */
  lemma {:induction false} FirstExists(escaped: nat -> bool, limit: nat)
    requires SomeBefore(escaped, limit)
    ensures exists n: nat :: n < limit && escaped(n) && NoneBefore(escaped, n)
  {
    if SomeBefore(escaped, limit - 1) {
      FirstExists(escaped, limit - 1);
    } else {
      assert escaped(limit - 1) && NoneBefore(escaped, limit - 1);
    }
  }

  /** The first iteration below `limit` whose check succeeds, if any. */
  ghost function FirstEscape(escaped: nat -> bool, limit: nat): (r: Option<nat>)
    ensures r.Some? ==> r.value < limit && escaped(r.value) && NoneBefore(escaped, r.value)
    ensures r.None? ==> NoneBefore(escaped, limit)
  {
    if SomeBefore(escaped, limit) then
      FirstExists(escaped, limit);
      var n: nat :| n < limit && escaped(n) && NoneBefore(escaped, n);
      Some(n)
    else None
  }

  /** The first succeeding check below the limit is the result. */
  lemma FirstEscapeIs(escaped: nat -> bool, limit: nat, n: nat)
    requires n < limit && escaped(n) && NoneBefore(escaped, n)
    ensures FirstEscape(escaped, limit) == Some(n)
  {
    var r := FirstEscape(escaped, limit);
    assert r.Some?;
    assert !(r.value < n) && !(n < r.value);
  }

  /** When no check below the limit succeeds, the result is None. */
  lemma FirstEscapeNone(escaped: nat -> bool, limit: nat)
    requires NoneBefore(escaped, limit)
    ensures FirstEscape(escaped, limit) == None
  {
  }

  /** When the check never succeeds at iteration 0, a result is never 0. */
  lemma FirstEscapePositive(escaped: nat -> bool, limit: nat)
    requires !escaped(0)
    ensures FirstEscape(escaped, limit).Some? ==> FirstEscape(escaped, limit).value >= 1
  {
  }

  /** Raising the limit keeps an escape already found; lowering it keeps None. */
  lemma FirstEscapeMonotone(escaped: nat -> bool, limit: nat, limit': nat)
    requires limit <= limit'
    ensures FirstEscape(escaped, limit).Some? ==> FirstEscape(escaped, limit') == FirstEscape(escaped, limit)
    ensures FirstEscape(escaped, limit').None? ==> FirstEscape(escaped, limit) == None
  {
    var r := FirstEscape(escaped, limit);
    if r.Some? {
      FirstEscapeIs(escaped, limit', r.value);
    }
  }

  /** The orbit of 0 under z <- z*z + c: the value of `z` after n updates. */
  function Orbit(c: Complex, n: nat): Complex {
    if n == 0 then Zero else Add(Mul(Orbit(c, n - 1), Orbit(c, n - 1)), c)
  }

  /** The bailout test made at the top of iteration n: |z_n|^2 > 4. */
  predicate Escaped(c: Complex, n: nat) {
    NormSqr(Orbit(c, n)) > 4.0
  }

  /** The outcomes of the bailout test for the orbit of c. */
  function Bailout(c: Complex): nat -> bool {
    (n: nat) => Escaped(c, n)
  }

  /** Applying Bailout(c) performs the bailout test. */
  lemma BailoutIsEscaped(c: Complex, n: nat)
    ensures Bailout(c)(n) == Escaped(c, n)
  {
  }

  /** What `escape_time(c, limit)` returns. */
  ghost function EscapeSpec(c: Complex, limit: nat): Option<nat> {
    FirstEscape(Bailout(c), limit)
  }

  /**
   * `escape_time`: the `for i in 0..limit` loop with its early return.
   * A returned count is never 0 and always below `limit`.
   */
  method EscapeTime(c: Complex, limit: nat) returns (r: Option<nat>)
    ensures r == EscapeSpec(c, limit)
    ensures r.Some? ==> 1 <= r.value < limit
  {
    var z := Zero;
    for i := 0 to limit
      invariant z == Orbit(c, i)
      invariant NoneBefore(Bailout(c), i)
    {
      if NormSqr(z) > 4.0 {
        BailoutIsEscaped(c, i);
        FirstEscapeIs(Bailout(c), limit, i);
        EscapeCountBounds(c, limit);
        return Some(i);
      }
      z := Add(Mul(z, z), c);
    }
    FirstEscapeNone(Bailout(c), limit);
    return None;
  }

  /** The first check is made on z = 0, whose squared modulus is 0. */
  lemma NoEscapeAtZero(c: Complex)
    ensures !Escaped(c, 0)
  {
    assert NormSqr(Zero) == 0.0;
  }

  /** An escaped count is never 0 and always below the limit. */
  lemma EscapeCountBounds(c: Complex, limit: nat)
    ensures EscapeSpec(c, limit).Some? ==> 1 <= EscapeSpec(c, limit).value < limit
  {
    NoEscapeAtZero(c);
    BailoutIsEscaped(c, 0);
    FirstEscapePositive(Bailout(c), limit);
  }

  /** With a limit of 0 or 1 the loop can never report an escape. */
  lemma SmallLimitNeverEscapes(c: Complex, limit: nat)
    requires limit <= 1
    ensures EscapeSpec(c, limit) == None
  {
    EscapeCountBounds(c, limit);
  }

  /** z stays 0 when c is 0. */
  lemma {:induction false} OrbitOfOrigin(n: nat)
    ensures Orbit(Zero, n) == Zero
  {
    if n == 0 {
      assert Orbit(Zero, 0) == Zero;
    } else {
      OrbitOfOrigin(n - 1);
      OrbitStep(Zero, n - 1);
      assert Orbit(Zero, n) == Add(Mul(Zero, Zero), Zero);
      SquareZero();
    }
  }

  /** One update of the loop takes z_n to z_{n+1}. */
  lemma OrbitStep(c: Complex, n: nat)
    ensures Orbit(c, n + 1) == Add(Mul(Orbit(c, n), Orbit(c, n)), c)
  {
  }

  /** The bailout test never succeeds on the orbit of the origin. */
  lemma OriginNotEscaped(n: nat)
    ensures !Escaped(Zero, n)
  {
    OrbitOfOrigin(n);
    assert NormSqr(Zero) == 0.0;
  }

  /** The origin never escapes, whatever the limit. */
  lemma OriginNeverEscapes(limit: nat)
    ensures EscapeSpec(Zero, limit) == None
  {
    forall j | 0 <= j < limit
      ensures !Bailout(Zero)(j)
    {
      OriginNotEscaped(j);
      BailoutIsEscaped(Zero, j);
    }
    FirstEscapeNone(Bailout(Zero), limit);
  }

  /** The first update turns z = 0 into c. */
  lemma OrbitOne(c: Complex)
    ensures Orbit(c, 1) == c
  {
    assert Mul(Zero, Zero) == Zero;
  }

  /** Outside the radius-2 disc the check at iteration 1 succeeds, since z_1 = c. */
  lemma OutsideDiscEscapedAtOne(c: Complex)
    requires NormSqr(c) > 4.0
    ensures Escaped(c, 1)
  {
    OrbitOne(c);
  }

  /** A point outside the radius-2 disc escapes at iteration 1. */
  lemma OutsideDiscEscapesAtOne(c: Complex, limit: nat)
    requires NormSqr(c) > 4.0 && limit >= 2
    ensures EscapeSpec(c, limit) == Some(1)
  {
    OutsideDiscEscapedAtOne(c);
    NoEscapeAtZero(c);
    BailoutIsEscaped(c, 0);
    BailoutIsEscaped(c, 1);
    FirstEscapeIs(Bailout(c), limit, 1);
  }

  /** The first two points of the orbit of x on the real axis: z_1 = x and z_2 = x*x + x. */
  lemma RealOrbit(x: real)
    ensures Orbit(Complex(x, 0.0), 1) == Complex(x, 0.0)
    ensures Orbit(Complex(x, 0.0), 2) == Complex(x * x + x, 0.0)
  {
    var c := Complex(x, 0.0);
    OrbitOne(c);
    OrbitStep(c, 1);
    RealAxis(x);
  }

  /** The orbit of c = 2 starts 2, 6. */
  lemma OrbitOfTwo(c: Complex)
    requires c.re == 2.0 && c.im == 0.0
    ensures Orbit(c, 1) == c
    ensures Orbit(c, 2).re == 6.0 && Orbit(c, 2).im == 0.0
  {
    var x := c.re;
    assert c == Complex(x, 0.0);
    RealOrbit(x);
    assert x * x + x == 6.0;
  }

  /** |z|^2 of a point on the real axis with real part y is y * y. */
  lemma NormOnAxis(z: Complex, y: real)
    requires z.re == y && z.im == 0.0
    ensures NormSqr(z) == y * y
  {
  }

  /**
   * The orbit of c = 2 is 0, 2, 6, ...: c lies on the bailout circle, so
   * |z_1|^2 = 4 fails the strict test and |z_2|^2 = 36 passes it.
   */
  lemma TwoOnBoundary(c: Complex)
    requires c.re == 2.0 && c.im == 0.0
    ensures !Escaped(c, 1) && Escaped(c, 2)
  {
    OrbitOfTwo(c);
    NormOnAxis(Orbit(c, 1), 2.0);
    NormOnAxis(Orbit(c, 2), 6.0);
  }

  /**
   * `escape_time(2, limit)` is Some(2) for every limit of at least 3: the
   * point on the bailout circle passes the strict test one iteration late.
   */
  lemma TwoEscapesAtTwo(c: Complex, limit: nat)
    requires c.re == 2.0 && c.im == 0.0
    ensures limit >= 3 ==> EscapeSpec(c, limit) == Some(2)
  {
    TwoOnBoundary(c);
    EscapesAtTwo(c, limit);
  }

  /** A point whose check first succeeds at iteration 2 escapes at 2. */
  lemma EscapesAtTwo(c: Complex, limit: nat)
    requires !Escaped(c, 1) && Escaped(c, 2)
    ensures limit >= 3 ==> EscapeSpec(c, limit) == Some(2)
    ensures limit <= 2 ==> EscapeSpec(c, limit) == None
  {
    NoEscapeAtZero(c);
    forall j | 0 <= j < 2
      ensures !Bailout(c)(j)
    {
      BailoutIsEscaped(c, j);
    }
    BailoutIsEscaped(c, 2);
    if limit >= 3 {
      FirstEscapeIs(Bailout(c), limit, 2);
    } else {
      FirstEscapeNone(Bailout(c), limit);
    }
  }
}
