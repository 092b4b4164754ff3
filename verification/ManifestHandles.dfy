/** src/handles/manifest-handle.cpp: creating a manifest from its writer's write-info reply, and finding it. */
module ManifestHandles {
  import opened Options
  import opened Tlv
  import opened HexText
  import opened Manifests
  import opened Storage
  import opened Keyspace
  import opened Routing
  import InsertProcess
  import Migration

  type Kept = map<string, Json>

  /** Per process only the response's insert counter matters; it counts as 0 in a new one. */
  datatype Creator = Creator(processes: map<Uint64, Uint64>, manifests: Kept)

  function AfterCreate(c: Creator, pid: Uint64): Creator
  {
    if pid in c.processes then c else c.(processes := c.processes[pid := 0])
  }

  /** A reply that does not parse throws before anything is stored or counted. */
  function AfterInfoReply(c: Creator, pid: Uint64, content: Json, sha1: Sha1): Creator
  {
    if pid !in c.processes || c.processes[pid] != 0 then c
    else
      match ManifestOf(content)
      case Err(_) => c
      case Ok(m) => Creator(c.processes[pid := 1], WithManifest(c.manifests, m, sha1))
  }

  function AfterInfoReplies(c: Creator, pid: Uint64, contents: seq<Json>, sha1: Sha1): Creator
  {
    if contents == [] then c
    else AfterInfoReply(AfterInfoReplies(c, pid, contents[..|contents| - 1], sha1), pid, contents[|contents| - 1], sha1)
  }

  function FirstManifest(contents: seq<Json>): Option<Manifest>
  {
    if contents == [] then None
    else if FirstManifest(contents[..|contents| - 1]).Some? then FirstManifest(contents[..|contents| - 1])
    else
      match ManifestOf(contents[|contents| - 1])
      case Err(_) => None
      case Ok(m) => Some(m)
  }

  /** Repeated replies are harmless: exactly the first one that parses is stored. */
  lemma {:induction false} OnlyTheFirstReplyIsStored(c: Creator, pid: Uint64, contents: seq<Json>, sha1: Sha1)
    requires pid in c.processes && c.processes[pid] == 0
    ensures var d := AfterInfoReplies(c, pid, contents, sha1);
            match FirstManifest(contents)
            case None => d == c
            case Some(m) => d == Creator(c.processes[pid := 1], WithManifest(c.manifests, m, sha1))
  {
    if contents != [] {
      OnlyTheFirstReplyIsStored(c, pid, contents[..|contents| - 1], sha1);
    }
  }

  /** A create command readies its process for one reply, unless the process is there already, stored or not. */
  lemma {:induction false} CreatedOnce(c: Creator, pid: Uint64, contents: seq<Json>, sha1: Sha1)
    ensures var d := AfterInfoReplies(AfterCreate(c, pid), pid, contents, sha1);
            if pid in c.processes && c.processes[pid] != 0 then d == c
            else
              match FirstManifest(contents)
              case None => d.manifests == c.manifests && d.processes == c.processes[pid := 0]
              case Some(m) => d == Creator(c.processes[pid := 1], WithManifest(c.manifests, m, sha1))
  {
    if pid in c.processes && c.processes[pid] != 0 {
      StoredStays(c, pid, contents, sha1);
    } else {
      OnlyTheFirstReplyIsStored(AfterCreate(c, pid), pid, contents, sha1);
    }
  }

  lemma {:induction false} StoredStays(c: Creator, pid: Uint64, contents: seq<Json>, sha1: Sha1)
    requires pid in c.processes && c.processes[pid] != 0
    ensures AfterInfoReplies(c, pid, contents, sha1) == c
  {
    if contents != [] {
      StoredStays(c, pid, contents[..|contents| - 1], sha1);
    }
  }

  /**
   * From the writer to a later find: what the writer of a single insert answers to write-info, stored by the node
   * that the key routes to, is found there again, unchanged, under the key of the inserted name's last component.
   */
  lemma PublishedManifestIsFound(info: InfoJson, repo: string, c: Creator, pid: Uint64, table: Table, sha1: Sha1)
    requires pid in c.processes && c.processes[pid] == 0 && IsPartition(table)
    ensures var m := InsertProcess.ManifestToWrite(info, repo);
            var key := KeyOfName("/" + InsertProcess.AfterLastSlash(info.name), sha1);
            var d := AfterInfoReply(c, pid, JsonOf(m, sha1), sha1);
            && Migration.FindReplyOf(d.manifests, key, sha1) == Some(Some(JsonOf(m, sha1)))
            && ManifestOf(JsonOf(m, sha1)) == Ok(m)
            && m == Manifest("/" + InsertProcess.AfterLastSlash(info.name), "", [Repo(repo, 0, info.segment)],
                             0, info.segment)
            && TopByte(key).Some? && Route(table, key) == Ok(OwnerOf(table, TopByte(key).value).value)
  {
    var m := InsertProcess.ManifestToWrite(info, repo);
    JsonRoundTrip(m, sha1);
    KeyShape(m.name, sha1);
    RouteIsOwner(table, KeyOfName(m.name, sha1));
  }

  /**
   * The get and delete commands hash the whole name instead. At the same node they find this manifest if and only if
   * the whole name has the same key as its last component; otherwise they find what was there before.
   */
  lemma {:induction false} FoundUnderWholeNameIff(info: InfoJson, repo: string, c: Creator, pid: Uint64, sha1: Sha1)
    requires pid in c.processes && c.processes[pid] == 0
    ensures var m := InsertProcess.ManifestToWrite(info, repo);
            var whole := KeyOfName(info.name, sha1);
            var last := KeyOfName("/" + InsertProcess.AfterLastSlash(info.name), sha1);
            var d := AfterInfoReply(c, pid, JsonOf(m, sha1), sha1);
            var found := Migration.FindReplyOf(d.manifests, whole, sha1);
            && found == (if whole == last then Some(Some(JsonOf(m, sha1)))
                         else Migration.FindReplyOf(c.manifests, whole, sha1))
            && (whole !in c.manifests ==> (found == Some(Some(JsonOf(m, sha1))) <==> whole == last))
  {
    JsonRoundTrip(InsertProcess.ManifestToWrite(info, repo), sha1);
  }

  class ManifestHandle {
    const storage: RepoStorage
    var processes: map<Uint64, Uint64>

    constructor (storage: RepoStorage)
      ensures this.storage == storage && processes == map[]
    {
      this.storage := storage;
      processes := map[];
    }

    function View(): Creator
      reads this, storage
    {
      Creator(processes, storage.manifests)
    }

    /** The command names the key and the writer; the writer is asked for the manifest itself. */
    method HandleCreateCommand(hash: string, writer: string, pid: Uint64) returns (ask: (string, string, Uint64))
      modifies this`processes
      ensures View() == AfterCreate(old(View()), pid) && ask == (writer, hash, pid)
    {
      if pid !in processes {
        processes := processes[pid := 0];
      }
      ask := (writer, hash, pid);
    }

    method OnDataValidated(pid: Uint64, content: Json) returns (deletionScheduled: bool)
      modifies this`processes, storage
      ensures View() == AfterInfoReply(old(View()), pid, content, storage.backend.sha1)
      ensures storage.View() == old(storage.View()).(manifests := View().manifests)
      ensures deletionScheduled <==> pid in old(processes) && (old(processes)[pid] != 0 || ManifestOf(content).Ok?)
    {
      if pid !in processes {
        return false;
      }
      if processes[pid] == 0 {
        var manifest := FromJson(content);
        if manifest.Err? {
          return false;
        }
        var _ := storage.InsertManifest(manifest.value);
        processes := processes[pid := 1];
      }
      return true;
    }

    /** None stands for a stored text that does not parse, which throws; Some(None) for the empty reply. */
    method HandleFindCommand(hash: string) returns (reply: Option<Option<Json>>)
      ensures reply == Migration.FindReplyOf(storage.manifests, hash, storage.backend.sha1)
    {
      var manifest := storage.ReadManifest(hash);
      if manifest.Err? {
        return None;
      }
      if manifest.value.None? {
        return Some(None);
      }
      var json := ToJson(manifest.value.value, storage.backend.sha1);
      reply := Some(Some(json));
    }

    method OnTimeout(pid: Uint64)
      modifies this`processes
      ensures processes == old(processes) - {pid}
    {
      processes := processes - {pid};
    }
  }
}
