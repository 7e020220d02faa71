/** Raw bytes, as PHP strings hold them: the output of random_bytes and
    the password bytes that strlen and preg_match inspect. */
module Bytes {

  /** One byte. */
  type Byte = x: int | 0 <= x < 256
}
