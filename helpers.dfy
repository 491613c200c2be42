/** Numeric and set utilities shared by every game: toroidal modulo, clamping
    and copy-on-write set insertion and deletion. */
module Helpers {

  /** A non-zero multiple of a positive number is at least that number
      away from zero. */
  lemma {:induction false} MulBounds(k: int, d: int)
    requires d > 0
    ensures k >= 1 ==> k * d >= d
    ensures k <= -1 ==> k * d <= -d
    decreases if k < 0 then -k else k
  {
    if k > 1 {
      MulBounds(k - 1, d);
      assert k * d == (k - 1) * d + d;
    } else if k < -1 {
      MulBounds(k + 1, d);
      assert k * d == (k + 1) * d - d;
    }
  }

  /** Euclidean division has one quotient and one remainder: a value written
      as `a * d + b` with `0 <= b < d` has remainder `b`. */
  lemma DivModUnique(n: int, d: int, a: int, b: int)
    requires d > 0 && 0 <= b < d && n == a * d + b
    ensures n % d == b && n / d == a
  {
    var q := n / d;
    var r := n % d;
    assert n == q * d + r;
    assert (a - q) * d == a * d - q * d;
    assert (a - q) * d == r - b;
    MulBounds(a - q, d);
    assert a - q == 0;
  }

  /** Sign facts about products of reals, stated once so that the proofs
      using them do not depend on the solver's nonlinear reasoning. */
  lemma MulNonNegative(a: real, b: real)
    requires a >= 0.0 && b >= 0.0
    ensures a * b >= 0.0
  {
  }

  lemma MulPositive(a: real, b: real)
    requires a > 0.0 && b > 0.0
    ensures a * b > 0.0
  {
  }

  /** JavaScript's `%` on integers: the remainder of a division truncated
      toward zero, so it takes the sign of the dividend. */
  function JsRem(n: int, d: int): (r: int)
    requires d > 0
    ensures n >= 0 ==> r == n % d
    ensures n < 0 ==> r == if n % d == 0 then 0 else n % d - d
  {
    if n >= 0 then n % d
    else
      var m := (-n) % d;
      assert -n == ((-n) / d) * d + m;
      if m == 0 then DivModUnique(n, d, -((-n) / d), 0); -m
      else DivModUnique(n, d, -((-n) / d) - 1, d - m); -m
  }

  /** `mod(n, d)`: `((n % d) + d) % d` with JavaScript's remainder, the
      wrap-around used for every toroidal board. Whatever the sign of `n`,
      it agrees with the Euclidean remainder and so lies in `[0, d)`. */
  function Mod(n: int, d: int): (r: int)
    requires d > 0
    ensures 0 <= r < d
    ensures r == n % d
  {
    var once := JsRem(n, d) + d;
    if n >= 0 then DivModUnique(once, d, 1, n % d); JsRem(once, d)
    else if n % d == 0 then DivModUnique(once, d, 1, 0); JsRem(once, d)
    else DivModUnique(once, d, 0, once); JsRem(once, d)
  }

  /** An integer already on the board is left where it is. */
  lemma ModIdentity(n: int, d: int)
    requires 0 <= n < d
    ensures Mod(n, d) == n
  {
    DivModUnique(n, d, 0, n);
  }

  /** Moving a whole period lands on the same cell. */
  lemma {:induction false} ModPeriodic(n: int, d: int, k: int)
    requires d > 0
    ensures Mod(n + k * d, d) == Mod(n, d)
  {
    var q := n / d;
    assert n == q * d + n % d;
    assert (q + k) * d == q * d + k * d;
    assert n + k * d == (q + k) * d + n % d;
    DivModUnique(n + k * d, d, q + k, n % d);
  }

  /** Wrapping twice is the same as wrapping once. */
  lemma ModIdempotent(n: int, d: int)
    requires d > 0
    ensures Mod(Mod(n, d), d) == Mod(n, d)
  {
    ModIdentity(Mod(n, d), d);
  }

  /** `clamp(n, min, max)`: `min` below the range, `max` above it, `n` inside. */
  function Clamp(n: real, lo: real, hi: real): (r: real)
    ensures n < lo ==> r == lo
    ensures lo <= n <= hi ==> r == n
    ensures lo <= n && hi < n ==> r == hi
  {
    if n < lo then lo else if n > hi then hi else n
  }

  /** With a non-empty range the clamped value always lies inside it. */
  lemma ClampInRange(n: real, lo: real, hi: real)
    requires lo <= hi
    ensures lo <= Clamp(n, lo, hi) <= hi
  {
  }

  /** Clamping is monotone in the clamped value. */
  lemma ClampMonotone(a: real, b: real, lo: real, hi: real)
    requires a <= b
    ensures Clamp(a, lo, hi) <= Clamp(b, lo, hi) || hi < lo
  {
  }

  /** `including(set, item)`: a new set with `item` added; the argument is a
      value and is never changed. */
  function Including<T>(s: set<T>, item: T): (r: set<T>)
    ensures item in r && s <= r
    ensures forall y :: y in r ==> y in s || y == item
  {
    s + {item}
  }

  /** `excluding(set, item)`: a new set with `item` removed. */
  function Excluding<T>(s: set<T>, item: T): (r: set<T>)
    ensures item !in r && r <= s
    ensures forall y :: y in s && y != item ==> y in r
  {
    s - {item}
  }

  /** Removing an item that was just added restores a set that lacked it. */
  lemma ExcludingUndoesIncluding<T>(s: set<T>, item: T)
    requires item !in s
    ensures Excluding(Including(s, item), item) == s
  {
  }

  /** Adding back an item that was just removed restores a set that held it. */
  lemma IncludingUndoesExcluding<T>(s: set<T>, item: T)
    requires item in s
    ensures Including(Excluding(s, item), item) == s
  {
  }
}
