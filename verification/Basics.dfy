/** Types shared by the whole model: machine integers, results and the protocol errors. */
module Basics {

  type byte = x: int | 0 <= x < 0x100

  type u16 = x: int | 0 <= x < 0x1_0000

  type u32 = x: int | 0 <= x < 0x1_0000_0000

  datatype Option<+T> = None | Some(value: T)

  datatype Result<+T, +E> = Ok(value: T) | Err(error: E) {
    predicate IsFailure() {
      Err?
    }

    function PropagateFailure<U>(): Result<U, E>
      requires Err?
    {
      Err(error)
    }

    function Extract(): T
      requires Ok?
    {
      value
    }
  }

  /** The errors of src/type2/mod.rs that reading and writing a tag can produce. */
  datatype Type2Error =
    | InvalidLength
    | InvalidMagic(found: byte)
    | UnsupportedVersion(major: byte, minor: byte)
    | Nack(nack: byte)
    | InvalidTlv
    | ReadOnly
    | OutOfRange
    | UnknownCommand(code: byte)

  /** `x << n` without overflow, that is, `x` pages of `1 << n` bytes. */
  function ShiftLeft(x: nat, n: nat): nat {
    if n == 0 then x else 2 * ShiftLeft(x, n - 1)
  }

  /** Shifting is multiplying by the page size. */
  lemma {:induction false} ShiftLeftMultiplies(x: nat, n: nat)
    ensures ShiftLeft(x, n) == x * ShiftLeft(1, n)
  {
    if n > 0 {
      ShiftLeftMultiplies(x, n - 1);
      TwiceProduct(x, ShiftLeft(1, n - 1));
    }
  }

  /** The page sizes that the exponents 1 to 15 stand for. */
  lemma PageSizes(n: nat)
    requires 1 <= n < 16
    ensures ShiftLeft(1, n) == [2, 4, 8, 16, 32, 64, 128, 256, 512, 1024, 2048, 4096, 8192, 16384, 32768][n - 1]
  {
    if n > 1 {
      PageSizes(n - 1);
    }
  }

  lemma TwiceProduct(x: nat, y: nat)
    ensures x * (2 * y) == 2 * (x * y)
  {
  }

  /** The big-endian value of two bytes. */
  function BigEndian(hi: int, lo: int): (v: int)
    ensures 0 <= hi < 256 && 0 <= lo < 256 ==> 0 <= v < 0x1_0000
  {
    hi * 256 + lo
  }

  function CeilDiv(a: nat, b: nat): (q: nat)
    requires b > 0
    ensures b * q >= a
    ensures a > 0 ==> b * (q - 1) < a
    ensures a == 0 ==> q == 0
  {
    (a + b - 1) / b
  }

  function Min(a: int, b: int): int {
    if a <= b then a else b
  }
}
