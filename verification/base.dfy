/** Types shared by every part of the library: optional values (the NULL
    pointers of the C interface) and the return codes of include/tsalgo/types.h. */
module Base {

  /** A value or nothing; `None` stands for a NULL pointer. */
  datatype Option<+T> = None | Some(value: T)

  /** The library's return codes. */
  datatype Rc = Ok | Err | NoMem | Invalid | FOpen | FRead | FWrite | FSeek | Rename | FFlush
  {
    /** The integer the C interface returns for this code. */
    function Code(): (c: int)
      ensures (c == 0) <==> this == Ok
      ensures -9 <= c <= 0
    {
      match this
      case Ok => 0
      case Err => -1
      case NoMem => -2
      case Invalid => -3
      case FOpen => -4
      case FRead => -5
      case FWrite => -6
      case FSeek => -7
      case Rename => -8
      case FFlush => -9
    }
  }

  /** The integer codes identify the return codes uniquely. */
  lemma CodeInjective(a: Rc, b: Rc)
    ensures a.Code() == b.Code() ==> a == b
  {
  }

  /** 2 to the power `n` (the `pow(2, step)` of the file sort, over unbounded integers). */
  function Pow2(n: nat): (p: nat)
    ensures p >= 1
  {
    if n == 0 then 1 else 2 * Pow2(n - 1)
  }

  /** The smaller of two naturals. */
  function Min(a: nat, b: nat): nat {
    if a < b then a else b
  }
}
