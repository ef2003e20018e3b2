/** Fixed-width integer and character types of the C++ and Rust code. */
module BoundedInts {

  const TWO_TO_THE_8: int := 0x100
  const TWO_TO_THE_31: int := 0x8000_0000
  const TWO_TO_THE_32: int := 0x1_0000_0000
  const TWO_TO_THE_63: int := 0x8000_0000_0000_0000
  const TWO_TO_THE_64: int := 0x1_0000_0000_0000_0000

  type uint8 = x: int | 0 <= x < TWO_TO_THE_8
  type uint32 = x: int | 0 <= x < TWO_TO_THE_32
  type int32 = x: int | -TWO_TO_THE_31 <= x < TWO_TO_THE_31
  type uint64 = x: int | 0 <= x < TWO_TO_THE_64

  /** A byte string as written to or read from a file, or handed across
      the foreign-call boundary. */
  type Bytes = seq<uint8>

  /** One `char` of a C++ `std::string`: a single byte. */
  type Char8 = c: char | c as int < TWO_TO_THE_8 witness 'a'
}
