/**
 Shared vocabulary: bytes, and the two failure-carrying wrappers used for
 Python's `None` arguments and raised exceptions.
 */
module Base {

  /** A Python `bytes` element. `bv8` gives XOR (`^`) directly. */
  type byte = bv8

  /** An optional value: Python's `None` or a present value. */
  datatype Option<+T> = None | Some(value: T) {

    /** The value, or `default` when absent. */
    function GetOr(default: T): T {
      match this
      case Some(v) => v
      case None => default
    }
  }

  /** A computed value, or the exception the source raises instead. */
  datatype Result<+R, +E> = Success(value: R) | Failure(error: E)

  /**
   The byte with numeric value `n`, counted up from zero (a direct `n as byte`
   conversion is costly for the solver).
   */
  function ToByte(n: nat): (b: byte)
    requires n < 256
    ensures b as nat == n
  {
    if n == 0 then 0 else ToByte(n - 1) + 1
  }

  /** Reading a byte as a number and back gives the byte. */
  lemma {:induction false} ToByteOfByte(x: byte)
    ensures ToByte(x as nat) == x
  {
    if x != 0 {
      ToByteOfByte(x - 1);
    }
  }

  /** `n` zero bytes, Python's `b'\x00' * n` (a negative count gives `b''`). */
  function Zeros(n: int): (z: seq<byte>)
    ensures |z| == if n < 0 then 0 else n
    ensures forall i :: 0 <= i < |z| ==> z[i] == 0
  {
    if n <= 0 then [] else seq(n, _ => 0)
  }
}
