/** Integer operators of Go that differ from Dafny's. */
module GoArith {

  /** Go's `a % 4` on `int`: the remainder of division truncated toward zero,
      so it takes the sign of the dividend (Dafny's `%` is Euclidean). */
  function Rem4(a: int): (r: int)
    ensures a >= 0 ==> r == a % 4
    ensures a < 0 ==> r == (if a % 4 == 0 then 0 else a % 4 - 4)
  {
    if a >= 0 then a % 4 else -((-a) % 4)
  }
}
