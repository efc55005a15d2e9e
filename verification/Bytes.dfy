/** Bytes and byte strings, shared by every other module. */
module Bytes {

  /** An octet: `unsigned char` in the C++ sources. */
  type Byte = b: int | 0 <= b < 256

  /** `std::string`, `char` buffers and the documents being parsed. */
  type ByteString = seq<Byte>

  const TWO_TO_THE_32: int := 0x1_0000_0000
  const TWO_TO_THE_64: int := 0x1_0000_0000_0000_0000

  /** `unsigned int` and `u32`; every operation that may wrap says so with `%`. */
  type UInt32 = n: int | 0 <= n < TWO_TO_THE_32

  /** `Value::LargestUInt` and `size_t`. */
  type UInt64 = n: int | 0 <= n < TWO_TO_THE_64

  /** `Value::LargestInt`. */
  type Int64 = n: int | -0x8000_0000_0000_0000 <= n < 0x8000_0000_0000_0000
}
