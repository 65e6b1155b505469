/** The two kinds of 32-byte name. Nothing but the parser of the URL form depends on the length. */
module Ids {
  import opened Bytes

  /** The id of a namespace: one user's trail. */
  datatype NamespaceId = NamespaceId(id: seq<byte>)

  /** The content address of a blob of ciphertext. */
  datatype ContentHash = ContentHash(digest: seq<byte>)
}
