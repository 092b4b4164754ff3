/** NDN names and Data packets, reduced to what the repository looks at. */
module Ndn {
  import opened Options
  import opened Tlv

  datatype Component = Text(text: string) | SegmentNo(no: nat) | ImplicitDigest(digest: Bytes)

  type Name = seq<Component>

  /** `nextHash` is the hash-chain value handed to the signer; `signature` the resulting SignatureValue. */
  datatype Packet = Packet(name: Name, content: Bytes, finalBlockId: Option<nat>,
                           nextHash: Option<Bytes>, signature: Bytes)

  function SegmentName(prefix: Name, no: nat): Name
  {
    prefix + [SegmentNo(no)]
  }
}
