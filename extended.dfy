/**
 * Non-negative cost arithmetic of the DTW table: exact reals extended with
 * a positive infinity, standing for the `double` values the table holds
 * (only finite values and `Double.POSITIVE_INFINITY` ever occur there).
 */
module Extended {

  datatype Ext = Fin(v: real) | Inf

  /** `x + y` on doubles: infinity absorbs every finite value. */
  function Add(x: Ext, y: Ext): Ext
  {
    if x.Fin? && y.Fin? then Fin(x.v + y.v) else Inf
  }

  /** Order on extended values: every finite value lies below infinity. */
  predicate LessEq(x: Ext, y: Ext)
  {
    y.Inf? || (x.Fin? && x.v <= y.v)
  }

  /** `Math.min(x, y)`. */
  function Min(x: Ext, y: Ext): Ext
  {
    if x.Inf? then y else if y.Inf? then x else if x.v <= y.v then x else y
  }

  /** `x < t` for a finite threshold `t`: false at infinity. */
  predicate Below(x: Ext, t: real)
  {
    x.Fin? && x.v < t
  }

  /** A value that is infinite or a finite value at least zero. */
  predicate NonNegative(x: Ext)
  {
    x.Inf? || x.v >= 0.0
  }

  function Abs(x: real): real
  {
    if x < 0.0 then -x else x
  }

  lemma MinCommutes(x: Ext, y: Ext)
    ensures Min(x, y) == Min(y, x)
  {
  }

  lemma AddMonotone(c: real, x: Ext, y: Ext)
    requires LessEq(x, y)
    ensures LessEq(Add(Fin(c), x), Add(Fin(c), y))
  {
  }
}
