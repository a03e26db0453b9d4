/** Shared result types. */
module Common {
  datatype Option<+T> = None | Some(value: T) {
    predicate IsFailure() { None? }

    function PropagateFailure<U>(): Option<U>
      requires None?
    {
      None
    }

    function Extract(): T
      requires Some?
    {
      value
    }
  }

  type Byte = b: int | 0 <= b < 0x100
  type Bytes = seq<Byte>
  type Uint32 = n: int | 0 <= n < 0x1_0000_0000
  type Int32 = n: int | -0x8000_0000 <= n < 0x8000_0000

  const TWO32: nat := 0x1_0000_0000
  const TWO63: nat := 0x8000_0000_0000_0000
  const TWO64: nat := 0x1_0000_0000_0000_0000

  /** A Go conversion to int32: the low 32 bits, read as two's complement. */
  function ToInt32(n: int): Int32 {
    var low := n % TWO32;
    if low < 0x8000_0000 then low else low - TWO32
  }

  /** A Go conversion of a signed 64-bit value to uint64. */
  function ToUint64(n: int): (r: nat)
    ensures r < TWO64
  {
    n % TWO64
  }
}
