/** Value types shared by the modules of the model. */
module Common {

  /** An optional value, for absent headers, failed parses and "no error". */
  datatype Option<T> = None | Some(value: T)

  /** One byte of a downloaded file. */
  newtype Byte = x: int | 0 <= x < 256
}
