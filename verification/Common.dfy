/** Value types shared by every part of the model. */
module Common {

  datatype Option<+T> = None | Some(value: T)

  /** The outcome of an operation that throws in the source: a value, or the reason for the exception. */
  datatype Result<+T, +E> = Ok(value: T) | Err(error: E)

  /** `std::uint8_t` and `unsigned char`. */
  type byte = n: int | 0 <= n < 256

  /** One `char` of a `std::string`. */
  type octet = c: char | c as int < 256 witness 'a'

  type ByteString = seq<octet>

  const TWO_32 := 0x1_0000_0000

  const TWO_64 := 0x1_0000_0000_0000_0000

  lemma Assoc<T>(a: seq<T>, b: seq<T>, c: seq<T>)
    ensures (a + b) + c == a + (b + c)
  {
  }

  /** Storing a result in an `unsigned int`. */
  function WrapUnsigned(x: int): (r: int)
    ensures 0 <= r < TWO_32 && (x - r) % TWO_32 == 0
  {
    x % TWO_32
  }

  /** Storing a result in a two's complement `int`. */
  function WrapSigned(x: int): (r: int)
    ensures -0x8000_0000 <= r < 0x8000_0000 && (x - r) % TWO_32 == 0
  {
    (x + 0x8000_0000) % TWO_32 - 0x8000_0000
  }
}
