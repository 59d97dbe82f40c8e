/** Value types shared by every part of the model. */
module Common {

  /** One byte, as read from an upload or stored in a file. */
  type byte = bv8

  type Bytes = seq<byte>

  /** A value that may be absent: a missing form field, a failed read. */
  datatype Option<+T> = None | Some(value: T)
}
