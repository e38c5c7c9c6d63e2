/** Fixed-width C/C++ integer types, error codes and an Option type. */
module CTypes {

  /** `unsigned char`: one byte of a file or of an image buffer. */
  newtype byte = x: int | 0 <= x < 0x100

  /** `std::uint16_t` */
  newtype uint16 = x: int | 0 <= x < 0x1_0000

  /** `std::uint32_t` */
  newtype uint32 = x: int | 0 <= x < 0x1_0000_0000

  /** `std::uint64_t`, the type of file sizes. */
  newtype uint64 = x: int | 0 <= x < 0x1_0000_0000_0000_0000

  /** The largest value of a 32-bit `int`. */
  const INT_MAX: int := 0x7FFF_FFFF

  /** `beast::error_code`: clear, an `errno` value, `errc::io_error`, or an error
      reported by the filesystem library together with its message text. */
  datatype ErrorCode = NoError | Errno | IoError | SystemError(message: string)

  datatype Option<+T> = None | Some(value: T)

  function Min(a: int, b: int): (r: int)
    ensures r <= a && r <= b && (r == a || r == b)
  {
    if a < b then a else b
  }
}
