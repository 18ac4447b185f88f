/** Element tags: the one-byte type codes that open each element (section "element"
    of the BSON 1.1 grammar). The 50214 snapshot names six of them, the later one two. */
module Tags {
  import opened Bytes

  const TagDouble: byte := 0x01
  const TagString: byte := 0x02
  const TagDocument: byte := 0x03
  const TagArray: byte := 0x04
  const TagBinary: byte := 0x05
  const TagBool: byte := 0x08

  /** The 50214 enumeration, in declaration order. */
  const Tags50214: seq<byte> := [TagDouble, TagString, TagDocument, TagArray, TagBinary, TagBool]

  /** The later enumeration: Document and Array only. */
  const TagsNew: seq<byte> := [TagDocument, TagArray]

  /** The tags are pairwise distinct and none is 0x00, the byte that ends an element list. */
  lemma TagsDistinctNonZero()
    ensures forall i, j :: 0 <= i < j < |Tags50214| ==> Tags50214[i] != Tags50214[j]
    ensures forall i :: 0 <= i < |Tags50214| ==> Tags50214[i] != 0
    ensures forall t :: t in TagsNew ==> t in Tags50214 && t != 0
    ensures TagsNew[0] != TagsNew[1]
  {
  }
}
