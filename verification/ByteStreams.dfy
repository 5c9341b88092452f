/** Byte buffers. */
module ByteStreams {

  type byte = b: int | 0 <= b < 256

  type Bytes = seq<byte>
}
