// Bytes as the client writes them and the server reads them.
module Bytes {
  type byte = x: int | 0 <= x < 256
}
