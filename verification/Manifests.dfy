/** src/manifest/manifest.cpp: the manifest record, its SHA-1 key, and its two JSON forms at property-tree level. */
module Manifests {
  import opened Options
  import opened HexText

  datatype Repo = Repo(name: string, start: int, end: int)

  /** `hash` is "" until setHash is called. */
  datatype Manifest = Manifest(name: string, hash: string, repos: seq<Repo>, startBlockId: int, endBlockId: int)

  /** The five 32-bit words of a SHA-1 digest (section 6.1 of FIPS 180-4); the digest function itself is a parameter. */
  type Sha1Words = w: seq<nat> | |w| == 5 && forall i :: 0 <= i < 5 ==> w[i] < 0x1_0000_0000 witness [0, 0, 0, 0, 0]
  type Sha1 = string -> Sha1Words

  datatype StorageNode = StorageNode(storageName: string, segmentStart: int, segmentEnd: int)

  /** The tree toJson writes: `storages` exists only for a non-empty repo list, `segment` only for an empty one. */
  datatype Json = Json(name: string, hash: string, startBlockId: int, endBlockId: int,
                       storages: Option<seq<StorageNode>>, segment: Option<int>)

  datatype InfoJson = InfoJson(name: string, hash: string, segment: int)

  datatype JsonError = NoStorages

  // ---------- key ----------

  function WordsText(words: seq<nat>): (s: string)
  {
    if words == [] then "" else WordsText(words[..|words| - 1]) + ZeroFill(Hex(words[|words| - 1]), 8)
  }

  function KeyOfName(name: string, sha1: Sha1): string
  {
    WordsText(sha1(name))
  }

  /** Manifest::getHash(name). */
  method HashOfName(name: string, sha1: Sha1) returns (result: string)
    ensures result == KeyOfName(name, sha1)
    ensures |result| == 40 && (forall i :: 0 <= i < 40 ==> IsHexDigit(result[i]))
    ensures TopByte(result) == Some(sha1(name)[0] / 0x100_0000)
  {
    result := "";
    var hashBlock: seq<nat> := sha1(name);
    var i := 0;
    while i < 5
      invariant 0 <= i <= 5
      invariant result == WordsText(hashBlock[..i])
    {
      assert hashBlock[..i + 1][..i] == hashBlock[..i];
      result := result + ZeroFill(Hex(hashBlock[i]), 8);
      i := i + 1;
    }
    assert hashBlock[..5] == hashBlock;
    KeyShape(name, sha1);
  }

  lemma WordLimit()
    ensures Pow16(8) == 0x1_0000_0000
  {
    assert Pow16(4) == 16 * 16 * Pow16(2);
    assert Pow16(8) == 16 * 16 * Pow16(6);
  }

  lemma {:induction false} WordsTextShape(words: seq<nat>)
    requires forall i :: 0 <= i < |words| ==> words[i] < 0x1_0000_0000
    ensures |WordsText(words)| == 8 * |words|
    ensures forall i :: 0 <= i < 8 * |words| ==> IsHexDigit(WordsText(words)[i])
    ensures words != [] ==> WordsText(words)[..8] == FixedHex(words[0], 8)
  {
    if words != [] {
      var init, last := words[..|words| - 1], words[|words| - 1];
      WordsTextShape(init);
      WordLimit();
      ZeroFillIsFixed(last, 8);
      FixedHexDigits(last, 8);
      var tail := FixedHex(last, 8);
      assert WordsText(words) == WordsText(init) + tail;
      if init == [] {
        assert WordsText(words) == tail;
        assert tail[..8] == tail;
      } else {
        assert WordsText(words)[..8] == WordsText(init)[..8];
      }
    }
  }

  /** Each word of the digest is spelled by its eight digits, at its place. */
  lemma {:induction false} WordsTextAt(words: seq<nat>, i: nat)
    requires i < |words| && forall k :: 0 <= k < |words| ==> words[k] < 0x1_0000_0000
    ensures |WordsText(words)| == 8 * |words| && WordsText(words)[8 * i..8 * i + 8] == FixedHex(words[i], 8)
  {
    var init, last := words[..|words| - 1], words[|words| - 1];
    WordsTextShape(words);
    WordsTextShape(init);
    WordLimit();
    ZeroFillIsFixed(last, 8);
    AppendedWord(WordsText(words), WordsText(init), FixedHex(last, 8), |init|, i);
    if i < |init| {
      WordsTextAt(init, i);
    }
  }

  lemma {:induction false} AppendedWord(text: string, before: string, digits: string, n: nat, i: nat)
    requires text == before + digits && |before| == 8 * n && |digits| == 8 && i <= n
    ensures text[8 * i..8 * i + 8] == if i < n then before[8 * i..8 * i + 8] else digits
  {
  }

  /** Names with the same key are names with the same digest. */
  lemma {:induction false} SameKeyIff(a: string, b: string, sha1: Sha1)
    ensures KeyOfName(a, sha1) == KeyOfName(b, sha1) <==> sha1(a) == sha1(b)
  {
    if KeyOfName(a, sha1) == KeyOfName(b, sha1) {
      var x: seq<nat>, y: seq<nat> := sha1(a), sha1(b);
      WordLimit();
      forall i | 0 <= i < 5 ensures x[i] == y[i] {
        WordsTextAt(x, i);
        WordsTextAt(y, i);
        FixedHexInjective(x[i], y[i], 8);
      }
      assert x == y;
    }
  }

  /** Every key is forty lower-case hexadecimal digits that start with the digest's first byte. */
  lemma KeyShape(name: string, sha1: Sha1)
    ensures var key := KeyOfName(name, sha1);
            && |key| == 40 && (forall i :: 0 <= i < 40 ==> IsHexDigit(key[i]))
            && TopByte(key) == Some(sha1(name)[0] / 0x100_0000)
  {
    WordsTextShape(sha1(name));
    WordTopByte(sha1(name)[0], KeyOfName(name, sha1));
  }

  // ---------- manifest operations ----------

  function GetHash(m: Manifest, sha1: Sha1): string
  {
    if m.hash == "" then KeyOfName(m.name, sha1) else m.hash
  }

  function AppendRepo(m: Manifest, repoName: string, start: int, end: int): Manifest
  {
    m.(repos := m.repos + [Repo(repoName, start, end)])
  }

  function NodesOf(repos: seq<Repo>): seq<StorageNode>
  {
    seq(|repos|, i requires 0 <= i < |repos| => StorageNode(repos[i].name, repos[i].start, repos[i].end))
  }

  function ReposOf(nodes: seq<StorageNode>): seq<Repo>
  {
    seq(|nodes|, i requires 0 <= i < |nodes| =>
      Repo(nodes[i].storageName, nodes[i].segmentStart, nodes[i].segmentEnd))
  }

  function JsonOf(m: Manifest, sha1: Sha1): Json
  {
    Json(m.name, GetHash(m, sha1), m.startBlockId, m.endBlockId,
         if m.repos == [] then None else Some(NodesOf(m.repos)),
         if m.repos == [] then Some(m.endBlockId) else None)
  }

  /** The stored hash is read but not kept: the parsed manifest recomputes its key from its name. */
  function ManifestOf(json: Json): Result<Manifest, JsonError>
  {
    match json.storages
    case None => Err(NoStorages)
    case Some(nodes) => Ok(Manifest(json.name, "", ReposOf(nodes), json.startBlockId, json.endBlockId))
  }

  method ToJson(m: Manifest, sha1: Sha1) returns (root: Json)
    ensures root == JsonOf(m, sha1)
  {
    root := Json(m.name, GetHash(m, sha1), m.startBlockId, m.endBlockId, None, None);
    if m.repos != [] {
      var children: seq<StorageNode> := [];
      var i := 0;
      while i < |m.repos|
        invariant 0 <= i <= |m.repos|
        invariant children == NodesOf(m.repos)[..i]
      {
        children := children + [StorageNode(m.repos[i].name, m.repos[i].start, m.repos[i].end)];
        i := i + 1;
      }
      assert NodesOf(m.repos)[..|m.repos|] == NodesOf(m.repos);
      root := root.(storages := Some(children));
    } else {
      root := root.(segment := Some(m.endBlockId));
    }
  }

  method FromJson(root: Json) returns (r: Result<Manifest, JsonError>)
    ensures r == ManifestOf(root)
  {
    var manifest := Manifest(root.name, "", [], root.startBlockId, root.endBlockId);
    if root.storages.None? {
      return Err(NoStorages);
    }
    var nodes := root.storages.value;
    var i := 0;
    while i < |nodes|
      invariant 0 <= i <= |nodes|
      invariant manifest == Manifest(root.name, "", ReposOf(nodes)[..i], root.startBlockId, root.endBlockId)
    {
      manifest := AppendRepo(manifest, nodes[i].storageName, nodes[i].segmentStart, nodes[i].segmentEnd);
      i := i + 1;
    }
    assert ReposOf(nodes)[..|nodes|] == ReposOf(nodes);
    r := Ok(manifest);
  }

  /** What the tree shows: one storage per repo, with the repo's own name and range, or else the end block. */
  lemma {:induction false} JsonShows(m: Manifest, sha1: Sha1)
    ensures var json := JsonOf(m, sha1);
            && json.name == m.name && json.startBlockId == m.startBlockId && json.endBlockId == m.endBlockId
            && json.hash == (if m.hash == "" then KeyOfName(m.name, sha1) else m.hash)
            && (if m.repos == [] then json.storages == None && json.segment == Some(m.endBlockId)
                else
                  && json.segment == None && json.storages.Some? && |json.storages.value| == |m.repos|
                  && forall i :: 0 <= i < |m.repos| ==>
                       var node := json.storages.value[i];
                       && node.storageName == m.repos[i].name
                       && node.segmentStart == m.repos[i].start && node.segmentEnd == m.repos[i].end)
    ensures InfoJsonOf(m, sha1) == InfoJson(m.name, JsonOf(m, sha1).hash, m.endBlockId)
  {
  }

  /**
   * The JSON round trip keeps name, repos (in order) and block range, and drops an explicitly set hash.
   * It works exactly for manifests with at least one repo: for an empty list fromJson throws.
   */
  lemma JsonRoundTrip(m: Manifest, sha1: Sha1)
    ensures m.repos != [] <==> ManifestOf(JsonOf(m, sha1)).Ok?
    ensures m.repos != [] ==> ManifestOf(JsonOf(m, sha1)) == Ok(m.(hash := ""))
    ensures m.repos != [] && m.hash == "" ==>
              GetHash(ManifestOf(JsonOf(m, sha1)).value, sha1) == GetHash(m, sha1)
  {
    if m.repos != [] {
      assert ReposOf(NodesOf(m.repos)) == m.repos;
    }
  }

  function InfoJsonOf(m: Manifest, sha1: Sha1): InfoJson
  {
    InfoJson(m.name, GetHash(m, sha1), m.endBlockId)
  }

  /** Built by the constructor with start block 0, then setHash; a hash mismatch is only reported on stderr. */
  function ManifestOfInfo(info: InfoJson): Manifest
  {
    Manifest(info.name, info.hash, [], 0, info.segment)
  }

  /** The short form keeps key, name and end block; it keeps the whole manifest exactly when there was nothing else. */
  lemma InfoJsonRoundTrip(m: Manifest, sha1: Sha1)
    ensures var back := ManifestOfInfo(InfoJsonOf(m, sha1));
            && back.name == m.name && back.endBlockId == m.endBlockId
            && GetHash(back, sha1) == GetHash(m, sha1)
            && (back == m <==> m.repos == [] && m.startBlockId == 0 && m.hash != "")
  {
    KeyShape(m.name, sha1);
  }
}
