/**
 * The "Daily Dua" pick of app.js:1711-1725: a date-derived seed goes through
 * one step of the Park-Miller linear congruential generator and is reduced
 * modulo the dataset length. The seed is a parameter (the source reads the
 * clock). Every intermediate value is below 2^47, so JavaScript's doubles
 * compute it exactly and unbounded integers are a faithful model.
 */
module Daily {
  import opened Wrappers

  const LcgModulus := 2147483647
  const LcgMultiplier := 48271

  function Abs(x: int): nat { if x < 0 then -x else x }

  /** JavaScript's `a / b` truncated toward zero, the quotient that goes with `%`. */
  function JsQuot(a: int, b: int): int
    requires b != 0
  {
    var q := Abs(a) / Abs(b);
    if (a < 0) == (b < 0) then q else -q
  }

  /** JavaScript's `a % b` on integers: the remainder takes the sign of the
      dividend (Dafny's `%` is Euclidean instead). */
  function JsRem(a: int, b: int): (r: int)
    requires b != 0
    ensures a >= 0 ==> 0 <= r < Abs(b)
    ensures a <= 0 ==> r <= 0 && -r < Abs(b)
  {
    var m := Abs(a) % Abs(b);
    if a < 0 then -m else m
  }

  /** `%` and truncating division fit together: `a == b * (a / b) + a % b`. */
  lemma JsDivision(a: int, b: int)
    requires b != 0
    ensures a == b * JsQuot(a, b) + JsRem(a, b)
  {
    var q, m := Abs(a) / Abs(b), Abs(a) % Abs(b);
    assert Abs(a) == Abs(b) * q + m;
    if b < 0 {
      assert b * -q == Abs(b) * q;
    }
  }

  /** `seededIndex(seed, mod)` */
  function SeededIndex(seed: int, mod: int): (r: int)
    requires mod != 0
    ensures seed >= 0 ==> 0 <= r < Abs(mod)
    ensures Abs(r) < Abs(mod)
  {
    var x := JsRem(seed, LcgModulus);
    var y := JsRem(x * LcgMultiplier, LcgModulus);
    JsRem(y, mod)
  }

  /** The index `getDailyDua` reads for a dataset of `n` entries: none for
      an empty dataset, and none when the index is negative (`DATA[idx]` is
      then `undefined`, so `|| null` gives `null`). */
  function DailyIndex(seed: int, n: nat): (r: Option<nat>)
    ensures r.Some? ==> r.value < n
    ensures n > 0 && seed >= 0 ==> r.Some?
    ensures n == 0 ==> r.None?
  {
    if n == 0 then None
    else
      var i := SeededIndex(seed, n);
      if i >= 0 then Some(i) else None
  }
}
