/** Small things that several components share. */
module Common {

  /** One more than the largest 32-bit number. */
  const UINT: nat := 0x1_0000_0000

  /** A value or an exception. */
  datatype Result<T> = Ok(value: T) | Error

  ghost function Concat<T>(pieces: seq<seq<T>>): seq<T> {
    if pieces == [] then [] else Concat(pieces[..|pieces| - 1]) + pieces[|pieces| - 1]
  }
}
