/** Directory trees: what stands under worlds/, and the trees a restore swaps. */
module Worlds {
  import opened Bytes

  /** A directory entry. Special is a link, a pipe or a device: neither a file nor a directory. */
  datatype Node = File(data: seq<byte>) | Dir(children: map<string, Node>) | Special

  /** The entries of one directory by name. */
  type Tree = map<string, Node>
}
