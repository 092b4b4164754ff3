/**
 * The put side of lib/difs.cpp: a file is cut into segments from its end backwards, each segment is signed
 * together with the signature of the one after it, and the segments are served by number.
 */
module FileProducer {
  import opened Options
  import opened Tlv
  import opened Ndn
  import opened Manifests

  /** Segment 0 is signed with the default identity, the others with a plain SHA-256 digest. */
  datatype SignKind = Identity | Digest

  /** Everything the signer sees. */
  datatype SignInput = SignInput(kind: SignKind, name: Name, content: Bytes, finalBlockId: nat, nextHash: Option<Bytes>)

  type Sign = SignInput -> Bytes

  type BlockSize = n: nat | n > 0 witness 1

  datatype Upload = Upload(prefix: Name, file: Bytes, blockSize: BlockSize, sign: Sign)

  // ---------- which bytes belong to which segment ----------

  lemma {:induction false} OffsetsAreOrdered(i: nat, j: nat, size: nat)
    requires i < j
    ensures i * size + size <= j * size
  {
    assert (i + 1) * size == i * size + size;
    if i + 1 < j {
      OffsetsAreOrdered(i, j - 1, size);
      assert (j - 1) * size + size == j * size;
    }
  }

  function ChunkSize(u: Upload): (n: nat)
    ensures n * u.blockSize + |u.file| % u.blockSize == |u.file|
  {
    |u.file| / u.blockSize
  }

  /** Where segment `i` starts; the segment after the last starts at the end of the file. */
  function Offset(u: Upload, i: nat): (o: nat)
    requires i <= ChunkSize(u) + 1
    ensures o <= |u.file|
  {
    if i == ChunkSize(u) + 1 then |u.file|
    else
      if i < ChunkSize(u) then
        OffsetsAreOrdered(i, ChunkSize(u), u.blockSize);
        i * u.blockSize
      else i * u.blockSize
  }

  lemma OffsetsRise(u: Upload, i: nat)
    requires i <= ChunkSize(u)
    ensures Offset(u, i) <= Offset(u, i + 1)
    ensures Offset(u, i + 1) - Offset(u, i) == if i == ChunkSize(u) then |u.file| % u.blockSize else u.blockSize
  {
    assert (i + 1) * u.blockSize == i * u.blockSize + u.blockSize;
  }

  function SegmentContent(u: Upload, i: nat): (c: Bytes)
    requires i <= ChunkSize(u)
    ensures |c| == if i == ChunkSize(u) then |u.file| % u.blockSize else u.blockSize
  {
    OffsetsRise(u, i);
    u.file[Offset(u, i)..Offset(u, i + 1)]
  }

  /** Counting from the end of the file, the block read in round `count` is segment ChunkSize - count. */
  function ReadPlace(u: Upload, count: nat): (place: nat)
    requires count <= ChunkSize(u)
    ensures place == Offset(u, ChunkSize(u) - count)
    ensures place == |u.file| - |u.file| % u.blockSize - u.blockSize * count
  {
    var i := ChunkSize(u) - count;
    assert (i + count) * u.blockSize == i * u.blockSize + count * u.blockSize;
    Offset(u, i)
  }

  // ---------- the chain of segments ----------

  function KindOf(i: nat): SignKind
  {
    if i == 0 then Identity else Digest
  }

  function Signed(u: Upload, i: nat, next: Option<Bytes>): Packet
    requires i <= ChunkSize(u)
  {
    var name, content := SegmentName(u.prefix, i), SegmentContent(u, i);
    Packet(name, content, Some(ChunkSize(u)), next,
           u.sign(SignInput(KindOf(i), name, content, ChunkSize(u), next)))
  }

  function NextHash(tail: seq<Packet>): Option<Bytes>
  {
    if tail == [] then None else Some(tail[0].signature)
  }

  /** The segments from `i` to the last, each one signed over its successor's signature. */
  function Chain(u: Upload, i: nat): (ps: seq<Packet>)
    requires i <= ChunkSize(u) + 1
    ensures |ps| == ChunkSize(u) + 1 - i
    decreases ChunkSize(u) + 1 - i
  {
    if i == ChunkSize(u) + 1 then [] else [Signed(u, i, NextHash(Chain(u, i + 1)))] + Chain(u, i + 1)
  }

  lemma ChainGrows(u: Upload, i: nat, after: seq<Packet>)
    requires i <= ChunkSize(u)
    ensures [Signed(u, i, NextHash(Chain(u, i + 1)))] + (Chain(u, i + 1) + after) == Chain(u, i) + after
  {
  }

  lemma {:induction false} ChainAt(u: Upload, i: nat, k: nat)
    requires i <= k <= ChunkSize(u)
    ensures Chain(u, i)[k - i] == Signed(u, k, NextHash(Chain(u, k + 1)))
    decreases k - i
  {
    if i < k {
      ChainAt(u, i + 1, k);
    }
  }

  /** When the last segment would be empty, its read fails first and nothing at all is produced. */
  function Produced(u: Upload): seq<Packet>
  {
    if |u.file| % u.blockSize == 0 then [] else Chain(u, 0)
  }

  function Contents(ps: seq<Packet>): Bytes
  {
    if ps == [] then [] else ps[0].content + Contents(ps[1..])
  }

  lemma {:induction false} ChainContents(u: Upload, i: nat)
    requires i <= ChunkSize(u) + 1
    ensures Contents(Chain(u, i)) == u.file[Offset(u, i)..]
    decreases ChunkSize(u) + 1 - i
  {
    if i <= ChunkSize(u) {
      ChainContents(u, i + 1);
      OffsetsRise(u, i);
      assert Chain(u, i)[1..] == Chain(u, i + 1);
      assert u.file[Offset(u, i)..] == u.file[Offset(u, i)..Offset(u, i + 1)] + u.file[Offset(u, i + 1)..];
    }
  }

  /** The segments put together are the file, except when its size is a multiple of the block size, and not 0. */
  lemma ProducedContentsIff(u: Upload)
    ensures Contents(Produced(u)) == u.file <==> |u.file| % u.blockSize != 0 || u.file == []
  {
    ChainContents(u, 0);
    assert u.file[Offset(u, 0)..] == u.file;
  }

  /** The manifest sent in reply to the bare file name; with an empty file its end block is -1. */
  function BlockCount(u: Upload): nat
  {
    |u.file| / u.blockSize + (if |u.file| % u.blockSize != 0 then 1 else 0)
  }

  function AnnouncedManifest(u: Upload, uri: string): Manifest
  {
    Manifest(uri, "", [], 0, BlockCount(u) - 1)
  }

  /** Segment count, FinalBlockId + 1 and the manifest's end + 1 agree exactly when something is produced. */
  lemma CountsAgreeIff(u: Upload, uri: string)
    ensures |Produced(u)| == AnnouncedManifest(u, uri).endBlockId + 1 <==> |u.file| % u.blockSize != 0 || u.file == []
    ensures AnnouncedManifest(u, uri).name == uri && AnnouncedManifest(u, uri).startBlockId == 0
    ensures Produced(u) != [] <==> |u.file| % u.blockSize != 0
    ensures forall i :: 0 <= i < |Produced(u)| ==> Produced(u)[i].finalBlockId == Some(|Produced(u)| - 1)
    ensures forall i :: 0 <= i < |Produced(u)| ==> Produced(u)[i].name == SegmentName(u.prefix, i)
  {
    if |u.file| % u.blockSize != 0 {
      forall i | 0 <= i < |Produced(u)|
        ensures Produced(u)[i].finalBlockId == Some(|Produced(u)| - 1)
        ensures Produced(u)[i].name == SegmentName(u.prefix, i)
      {
        ChainAt(u, 0, i);
      }
    } else if u.file != [] {
      assert ChunkSize(u) != 0;
    }
  }

  // ---------- the hash chain commits to the whole file ----------

  /** What a verifier checks: every signature, and that each segment carries its successor's, the last one none. */
  ghost predicate ValidChain(sign: Sign, ps: seq<Packet>, from: nat)
  {
    forall i :: 0 <= i < |ps| ==>
      && ps[i].finalBlockId.Some?
      && ps[i].signature == sign(SignInput(if from + i == 0 then Identity else Digest, ps[i].name, ps[i].content,
                                           ps[i].finalBlockId.value, ps[i].nextHash))
      && ps[i].nextHash == NextHash(ps[i + 1..])
  }

  lemma ValidTail(sign: Sign, ps: seq<Packet>, from: nat)
    requires ps != [] && ValidChain(sign, ps, from)
    ensures ValidChain(sign, ps[1..], from + 1)
  {
    var tail := ps[1..];
    forall i | 0 <= i < |tail|
      ensures tail[i].finalBlockId.Some? && tail[i].nextHash == NextHash(tail[i + 1..])
      ensures tail[i].signature == sign(SignInput(if from + 1 + i == 0 then Identity else Digest, tail[i].name,
                                                  tail[i].content, tail[i].finalBlockId.value, tail[i].nextHash))
    {
      assert tail[i] == ps[i + 1] && tail[i + 1..] == ps[i + 2..];
    }
  }

  lemma ProducedIsValid(u: Upload)
    ensures ValidChain(u.sign, Produced(u), 0)
  {
    var ps := Produced(u);
    forall i | 0 <= i < |ps|
      ensures ps[i] == Signed(u, i, NextHash(ps[i + 1..]))
    {
      ChainAt(u, 0, i);
      ChainSuffix(u, 0, i + 1);
    }
  }

  lemma {:induction false} ChainSuffix(u: Upload, i: nat, k: nat)
    requires i <= k <= ChunkSize(u) + 1
    ensures Chain(u, i)[k - i..] == Chain(u, k)
    decreases k - i
  {
    if i < k {
      ChainSuffix(u, i + 1, k);
      assert Chain(u, i)[1..] == Chain(u, i + 1);
    }
  }

  /** The signature determines name, content and chained value. */
  ghost predicate Binding(sign: Sign)
  {
    forall a, b :: sign(a) == sign(b) ==> a.name == b.name && a.content == b.content && a.nextHash == b.nextHash
  }

  /** The parts of a segment that the commitment is about. */
  ghost predicate SameSegments(ps: seq<Packet>, qs: seq<Packet>)
  {
    && |ps| == |qs|
    && forall i :: 0 <= i < |ps| ==>
         && ps[i].name == qs[i].name && ps[i].content == qs[i].content
         && ps[i].nextHash == qs[i].nextHash && ps[i].signature == qs[i].signature
  }

  /** The first signature determines the name, content and signature of every later segment, and how many there are. */
  lemma {:induction false} HashChainCommitment(sign: Sign, ps: seq<Packet>, qs: seq<Packet>, from: nat)
    requires Binding(sign) && ValidChain(sign, ps, from) && ValidChain(sign, qs, from)
    requires ps != [] && qs != [] && ps[0].signature == qs[0].signature
    ensures SameSegments(ps, qs) && Contents(ps) == Contents(qs)
    decreases |ps|
  {
    var p, q := ps[0], qs[0];
    assert p.name == q.name && p.content == q.content && p.nextHash == q.nextHash;
    assert p.nextHash == NextHash(ps[1..]) && q.nextHash == NextHash(qs[1..]);
    if |ps| > 1 {
      ValidTail(sign, ps, from);
      ValidTail(sign, qs, from);
      HashChainCommitment(sign, ps[1..], qs[1..], from + 1);
      forall i | 0 < i < |ps|
        ensures ps[i].name == qs[i].name && ps[i].content == qs[i].content
        ensures ps[i].nextHash == qs[i].nextHash && ps[i].signature == qs[i].signature
      {
        assert ps[i] == ps[1..][i - 1] && qs[i] == qs[1..][i - 1];
      }
    }
  }

  /** A verified download that starts with the uploader's first signature is the uploaded file. */
  lemma DownloadIsTheUpload(u: Upload, qs: seq<Packet>)
    requires Binding(u.sign) && ValidChain(u.sign, qs, 0) && Produced(u) != [] && qs != []
    requires qs[0].signature == Produced(u)[0].signature
    ensures Contents(qs) == u.file
  {
    ProducedIsValid(u);
    HashChainCommitment(u.sign, Produced(u), qs, 0);
    ProducedContentsIff(u);
  }

  // ---------- the producer ----------

  /** `NoFirstSegment` is the source's access to the first element of an empty vector. */
  datatype Reply = SendManifest(manifest: Manifest) | SendData(packet: Packet) | SendNack | NoReply | NoFirstSegment

  class Producer {
    const upload: Upload
    var data: seq<Packet>
    var currentSegmentNo: nat

    constructor (upload: Upload)
      ensures this.upload == upload && data == [] && currentSegmentNo == 0
    {
      this.upload := upload;
      data, currentSegmentNo := [], 0;
    }

    /** Seek and read: the bytes of the stream that exist at that place. */
    function Read(offset: nat, size: nat): Bytes
      requires offset + size <= |upload.file|
    {
      upload.file[offset..offset + size]
    }

    method ReadBackwards(count: nat, lastDataSize: nat) returns (buffer: Bytes)
      requires count <= ChunkSize(upload) && lastDataSize == |upload.file| % upload.blockSize
      ensures buffer == SegmentContent(upload, ChunkSize(upload) - count)
    {
      ghost var place := ReadPlace(upload, count);
      OffsetsRise(upload, ChunkSize(upload) - count);
      if count == 0 {
        buffer := Read(|upload.file| - lastDataSize, lastDataSize);
      } else {
        buffer := Read(|upload.file| - lastDataSize - upload.blockSize * count, upload.blockSize);
      }
    }

    method SignedPacket(no: nat, first: bool, content: Bytes, finalBlockId: nat, nextHash: Option<Bytes>)
      returns (packet: Packet)
      requires no <= ChunkSize(upload) && finalBlockId == ChunkSize(upload)
      requires content == SegmentContent(upload, no) && first == (no == 0)
      ensures packet == Signed(upload, no, nextHash)
    {
      var name := SegmentName(upload.prefix, no);
      var kind := if first then Identity else Digest;
      var signature := upload.sign(SignInput(kind, name, content, finalBlockId, nextHash));
      packet := Packet(name, content, Some(finalBlockId), nextHash, signature);
    }

    method PutFilePrepareNextData()
      modifies this`data, this`currentSegmentNo
      ensures data == Produced(upload) + old(data)
      ensures currentSegmentNo == old(currentSegmentNo) + |Produced(upload)|
    {
      var bytes, blockSize: nat := |upload.file|, upload.blockSize;
      var chunkSize := bytes / blockSize;
      var lastDataSize := bytes % blockSize;
      var nextHash: Option<Bytes> := None;
      var count := 0;
      while count <= chunkSize
        invariant 0 <= count <= chunkSize + 1 && chunkSize == ChunkSize(upload)
        invariant count > 0 ==> lastDataSize > 0
        invariant data == Chain(upload, chunkSize + 1 - count) + old(data)
        invariant currentSegmentNo == old(currentSegmentNo) + count
        invariant nextHash == NextHash(Chain(upload, chunkSize + 1 - count))
      {
        ghost var i := chunkSize - count;
        var buffer := ReadBackwards(count, lastDataSize);
        if |buffer| > 0 {
          var packet := SignedPacket(chunkSize - count, count == chunkSize, buffer, chunkSize, nextHash);
          nextHash := Some(packet.signature);
          data := [packet] + data;
          currentSegmentNo := currentSegmentNo + 1;
          ChainGrows(upload, i, old(data));
        } else {
          return;
        }
        count := count + 1;
      }
    }

    /**
     * The bare name gets the manifest; a segment number gets that segment; a number past the end gets segment 0
     * when the Interest matches it and a Nack otherwise, if there is a segment 0 to look at.
     */
    method OnPutFileInterest(bare: bool, segment: Option<nat>, uri: string, matchesFirst: bool) returns (reply: Reply)
      ensures bare ==> reply == SendManifest(AnnouncedManifest(upload, uri))
      ensures !bare && segment.None? ==> reply == NoReply
      ensures !bare && segment.Some? && segment.value < |data| ==> reply == SendData(data[segment.value])
      ensures !bare && segment.Some? && segment.value >= |data| ==>
                reply == if data == [] then NoFirstSegment else if matchesFirst then SendData(data[0]) else SendNack
    {
      if bare {
        var blockCount := |upload.file| / upload.blockSize + (if |upload.file| % upload.blockSize != 0 then 1 else 0);
        return SendManifest(Manifest(uri, "", [], 0, blockCount - 1));
      }
      if segment.None? {
        return NoReply;
      }
      if segment.value < |data| {
        return SendData(data[segment.value]);
      } else if data == [] {
        return NoFirstSegment;
      } else if matchesFirst {
        return SendData(data[0]);
      }
      return SendNack;
    }
  }
}
