/** Value types shared by the book catalog model. */
module Base {

  /** One octet of uploaded file content. */
  newtype Byte = x: int | 0 <= x < 256

  /** A Java reference that may be null. */
  datatype Option<+T> = None | Some(value: T)

  /** Range of a Java `long`. */
  const MinLong: int := -0x8000_0000_0000_0000
  const MaxLong: int := 0x7FFF_FFFF_FFFF_FFFF
}
