/** The byte type shared by the hash rendering, the embedding codec and the records. */
module Bytes {

  type byte = bv8
}
