/**
 * src/handles/delete-handle.cpp: deleting a file. The node that keeps the manifest asks the listed repos, one after
 * the other, to delete their segment ranges, and drops the manifest after the last answer.
 */
module DeleteProcess {
  import opened Options
  import opened Tlv
  import opened Ndn
  import opened Manifests
  import opened Storage
  import opened Keyspace
  import opened Routing

  /** Parsing of a manifest's name text into an NDN name. */
  type NameOf = string -> Name

  type Kept = map<string, Json>
  type Packets = map<Name, Packet>

  /** setStartBlockId and setEndBlockId take the manifest's int as an unsigned 64-bit number. */
  function ToBlockId(n: int): (b: Uint64)
    ensures 0 <= n < 0x1_0000_0000_0000_0000 ==> b == n
    ensures -0x1_0000_0000_0000_0000 <= n < 0 ==> b == n + 0x1_0000_0000_0000_0000
  {
    n % 0x1_0000_0000_0000_0000
  }

  // ---------- one node deletes a range of segments ----------

  lemma SegmentNamesDiffer(name: Name)
    ensures forall i: nat, j: nat :: SegmentName(name, i) == SegmentName(name, j) ==> i == j
  {
    forall i: nat, j: nat | SegmentName(name, i) == SegmentName(name, j) ensures i == j {
      assert SegmentName(name, i)[|name|] == SegmentNo(i) && SegmentName(name, j)[|name|] == SegmentNo(j);
    }
  }

  /** The names of the segments from `lo` up to but not including `hi`. */
  function RangeNames(name: Name, lo: nat, hi: nat): (r: set<Name>)
    ensures forall no: nat :: SegmentName(name, no) in r <==> lo <= no < hi
    ensures forall n: Name :: n in r ==> n != [] && n[|n| - 1].SegmentNo?
    decreases hi
  {
    SegmentNamesDiffer(name);
    if hi <= lo then {} else RangeNames(name, lo, hi - 1) + {SegmentName(name, hi - 1)}
  }

  lemma {:induction false} RangeNamesSize(name: Name, lo: nat, hi: nat)
    requires lo <= hi
    ensures |RangeNames(name, lo, hi)| == hi - lo
    decreases hi
  {
    if lo < hi {
      RangeNamesSize(name, lo, hi - 1);
      assert SegmentName(name, hi - 1) !in RangeNames(name, lo, hi - 1);
    }
  }

  datatype Reply = Reply(code: nat, deleteNum: Option<nat>)

  /** positiveReply turns into a 403 when the command carried no process id. */
  function PositiveReply(processId: Option<Uint64>, code: nat, nDeletedData: nat): Reply
  {
    if processId.Some? then Reply(code, Some(nDeletedData)) else Reply(403, None)
  }

  /** A delete-data command: its reply counts attempts, because both results of deleteData are true. */
  function DeleteDataReply(start: Option<Uint64>, end: Option<Uint64>, processId: Option<Uint64>): Reply
  {
    if start.None? || end.None? || start.value > end.value then Reply(403, None)
    else PositiveReply(processId, 200, end.value - start.value + 1)
  }

  function AfterDeleteData(packets: Packets, name: Name, start: Option<Uint64>, end: Option<Uint64>): Packets
  {
    if start.None? || end.None? then packets
    else packets - RangeNames(name, start.value, end.value + 1)
  }

  lemma {:induction false} SubsetSize(a: set<Name>, b: set<Name>)
    requires a <= b
    ensures |a| <= |b| && (|a| == |b| <==> a == b)
    decreases |b|
  {
    if b - a == {} {
      assert a == b;
    } else {
      var rest := b - a;
      assert |b| == |a| + |rest|;
    }
  }

  lemma {:induction false} RangeIsNumbered(name: Name, lo: nat, hi: nat)
    ensures forall n: Name :: n in RangeNames(name, lo, hi) ==>
              exists no: nat :: lo <= no < hi && n == SegmentName(name, no)
    decreases hi
  {
    if lo < hi {
      RangeIsNumbered(name, lo, hi - 1);
    }
  }

  lemma RangePresentIff(keys: set<Name>, name: Name, lo: nat, hi: nat)
    ensures RangeNames(name, lo, hi) <= keys <==> forall no: nat :: lo <= no < hi ==> SegmentName(name, no) in keys
  {
    RangeIsNumbered(name, lo, hi);
    if RangeNames(name, lo, hi) <= keys {
      forall no: nat | lo <= no < hi ensures SegmentName(name, no) in keys {
        assert SegmentName(name, no) in RangeNames(name, lo, hi);
      }
    }
  }

  lemma RemovedCount(packets: Packets, names: set<Name>)
    ensures |packets| - |packets - names| == |packets.Keys * names|
    ensures |packets.Keys * names| == |names| <==> names <= packets.Keys
  {
    assert (packets - names).Keys == packets.Keys - names;
    assert |packets.Keys| == |packets.Keys - names| + |packets.Keys * names|;
    SubsetSize(packets.Keys * names, names);
  }

  /** The reported number is the number of removed packets if and only if every segment of the range was there. */
  lemma ReportedCountIff(packets: Packets, name: Name, start: Uint64, end: Uint64, processId: Uint64)
    requires start <= end
    ensures var after := AfterDeleteData(packets, name, Some(start), Some(end));
            DeleteDataReply(Some(start), Some(end), Some(processId)).deleteNum == Some(|packets| - |after|) <==>
            forall no: nat :: start <= no < end + 1 ==> SegmentName(name, no) in packets.Keys
  {
    RangeNamesSize(name, start, end + 1);
    RangePresentIff(packets.Keys, name, start, end + 1);
    RemovedCount(packets, RangeNames(name, start, end + 1));
  }

  // ---------- the node that keeps the manifest ----------

  datatype Process = Process(repos: seq<Repo>, name: string, hash: string)

  /** operator[] on m_processes creates this when the id is unknown. */
  const EMPTY: Process := Process([], "", "")

  datatype Owner = Owner(processes: map<Uint64, Process>, manifests: Kept)

  datatype Request = Request(repo: string, name: string, start: Uint64, end: Uint64)

  datatype Outcome = Outcome(owner: Owner, requests: seq<Request>, replies: seq<Reply>)

  function ProcessOf(o: Owner, pid: Uint64): Process
  {
    if pid in o.processes then o.processes[pid] else EMPTY
  }

  function WithEntry(o: Owner, pid: Uint64, p: Process): Owner
  {
    o.(processes := o.processes[pid := p])
  }

  function RequestFor(name: string, repo: Repo): Request
  {
    Request(repo.name, name, ToBlockId(repo.start), ToBlockId(repo.end))
  }

  /** deleteData: take the first outstanding repo and ask it. */
  function Advance(o: Owner, pid: Uint64): Outcome
    requires ProcessOf(o, pid).repos != []
  {
    var p := ProcessOf(o, pid);
    Outcome(WithEntry(o, pid, p.(repos := p.repos[1..])), [RequestFor(p.name, p.repos[0])], [])
  }

  /** toJson never writes an empty storages node, so front() always has something to take. */
  ghost predicate NoEmptyStorages(manifests: Kept)
  {
    forall key :: key in manifests ==> manifests[key].storages != Some([])
  }

  lemma InsertKeepsNoEmptyStorages(manifests: Kept, m: Manifest, sha1: Sha1)
    requires NoEmptyStorages(manifests)
    ensures NoEmptyStorages(WithManifest(manifests, m, sha1))
  {
  }

  /** An unknown or unreadable manifest leaves a process entry behind that nothing ever erases. */
  function AfterDeleteManifest(o: Owner, hash: string, pid: Uint64): Outcome
    requires NoEmptyStorages(o.manifests)
  {
    match ReadManifestOf(o.manifests, hash)
    case Err(_) => Outcome(WithEntry(o, pid, ProcessOf(o, pid)), [], [])
    case Ok(None) => Outcome(WithEntry(o, pid, ProcessOf(o, pid)), [], [Reply(405, None)])
    case Ok(Some(m)) => Advance(WithEntry(o, pid, Process(m.repos, m.name, hash)), pid)
  }

  function AfterResponse(o: Owner, pid: Uint64, code: nat, processId: Option<Uint64>): Outcome
  {
    var p := ProcessOf(o, pid);
    if code > 400 then Outcome(WithEntry(o, pid, p), [], [Reply(405, None)])
    else if p.repos == [] then
      Outcome(Owner(o.processes - {pid}, o.manifests - {p.hash}), [], [PositiveReply(processId, 200, 1)])
    else Advance(o, pid)
  }

  function AfterTimeout(o: Owner, pid: Uint64): Outcome
  {
    Outcome(WithEntry(o, pid, ProcessOf(o, pid)), [], [Reply(405, None)])
  }

  /** A manifest that is not there: 405, nothing is asked or erased, and the process entry is left behind. */
  lemma {:induction false} UnknownManifestIsRefused(o: Owner, hash: string, pid: Uint64)
    requires NoEmptyStorages(o.manifests)
    ensures var out := AfterDeleteManifest(o, hash, pid);
            && (hash !in o.manifests ==> out.replies == [Reply(405, None)])
            && (ReadManifestOf(o.manifests, hash).Err? ==> out.replies == [])
            && (hash !in o.manifests || ReadManifestOf(o.manifests, hash).Err? ==>
                  out.requests == [] && out.owner.manifests == o.manifests && pid in out.owner.processes)
  {
  }

  /** Which answers fail the command: the codes above 400, and none at all; neither erases anything. */
  lemma {:induction false} RefusedIff(o: Owner, pid: Uint64, code: nat, processId: Option<Uint64>)
    ensures var out := AfterResponse(o, pid, code, processId);
            && (out.replies == [Reply(405, None)] <==> code > 400)
            && (code > 400 ==> out.requests == [] && out.owner.manifests == o.manifests && pid in out.owner.processes)
            && (code <= 400 && ProcessOf(o, pid).repos == [] ==>
                  out.owner.processes.Keys == o.processes.Keys - {pid}
                  && out.owner.manifests.Keys == o.manifests.Keys - {ProcessOf(o, pid).hash})
    ensures var out := AfterTimeout(o, pid);
            && out.replies == [Reply(405, None)] && out.requests == [] && out.owner.manifests == o.manifests
            && out.owner.processes == o.processes[pid := if pid in o.processes then o.processes[pid] else EMPTY]
  {
  }

  // ---------- the protocol ----------

  /**
   * `sent` is every request so far. A request may be executed late, repeatedly or never; its callback runs at most
   * once, with one of the responses or as a timeout. `replies` are the owner's answers to the delete command.
   * `executed`, `accepted` and `failed` are history.
   */
  datatype Protocol = Protocol(owner: Owner, sent: seq<Request>, pending: set<nat>, responses: set<(nat, nat)>,
                               executed: set<nat>, accepted: set<nat>, failed: bool, stores: map<string, Packets>,
                               replies: seq<Reply>)

  datatype Step = Execute(i: nat) | Answer(i: nat, code: nat) | Fail(i: nat)

  /** The parameters that stay fixed in a run. */
  datatype Setting = Setting(manifest: Manifest, hash: string, pid: Uint64, processId: Option<Uint64>, nameOf: NameOf,
                             manifests: Kept, stores: map<string, Packets>)

  function Begin(s: Setting, o: Owner): Protocol
    requires NoEmptyStorages(o.manifests)
  {
    var first := AfterDeleteManifest(o, s.hash, s.pid);
    Protocol(first.owner, first.requests, if first.requests == [] then {} else {0}, {}, {}, {}, false, s.stores,
             first.replies)
  }

  /** A request carries a random process id; any one will do here. */
  function Executed(c: Protocol, s: Setting, i: nat): Protocol
    requires i < |c.sent| && c.sent[i].repo in c.stores
  {
    var q := c.sent[i];
    var answer := c.(responses := c.responses + {(i, DeleteDataReply(Some(q.start), Some(q.end), Some(s.pid)).code)});
    if q.start > q.end then answer
    else
      answer.(stores := c.stores[q.repo :=
                AfterDeleteData(c.stores[q.repo], s.nameOf(q.name), Some(q.start), Some(q.end))],
              executed := c.executed + {i})
  }

  function Answered(c: Protocol, s: Setting, i: nat, code: nat): Protocol
  {
    var out := AfterResponse(c.owner, s.pid, code, s.processId);
    c.(owner := out.owner, sent := c.sent + out.requests,
       pending := c.pending - {i} + (if out.requests == [] then {} else {|c.sent|}),
       accepted := if code <= 400 then c.accepted + {i} else c.accepted,
       failed := c.failed || code > 400,
       replies := c.replies + out.replies)
  }

  function Failed(c: Protocol, s: Setting, i: nat): Protocol
  {
    var out := AfterTimeout(c.owner, s.pid);
    c.(owner := out.owner, pending := c.pending - {i}, failed := true, replies := c.replies + out.replies)
  }

  /** A range that ends at the largest block id is never finished by the loop and so never answered. */
  function Next(c: Protocol, s: Setting, step: Step): Protocol
  {
    match step
    case Execute(i) =>
      if i < |c.sent| && c.sent[i].repo in c.stores && c.sent[i].end + 1 < TWO_64 then Executed(c, s, i) else c
    case Answer(i, code) => if i in c.pending && (i, code) in c.responses then Answered(c, s, i, code) else c
    case Fail(i) => if i in c.pending then Failed(c, s, i) else c
  }

  function Run(c: Protocol, s: Setting, steps: seq<Step>): Protocol
  {
    if steps == [] then c else Next(Run(c, s, steps[..|steps| - 1]), s, steps[|steps| - 1])
  }

  // ---------- what every step keeps ----------

  /** One request for each repo of the manifest, in order, for the repo's whole range. */
  function Requests(s: Setting): seq<Request>
  {
    var m := s.manifest;
    seq(|m.repos|, i requires 0 <= i < |m.repos| =>
      Request(m.repos[i].name, m.name, ToBlockId(m.repos[i].start), ToBlockId(m.repos[i].end)))
  }

  /** The request asks this node to delete this name. */
  predicate Touches(s: Setting, q: Request, node: string, name: Name)
  {
    q.repo == node && name in RangeNames(s.nameOf(q.name), q.start, q.end + 1)
  }

  ghost predicate TouchedBy(s: Setting, c: Protocol, node: string, name: Name)
  {
    exists i :: i in c.executed && i < |c.sent| && Touches(s, c.sent[i], node, name)
  }

  /** The manifest lists this node with a range that has this segment of the file in it. */
  ghost predicate Listed(s: Setting, node: string, name: Name)
  {
    exists r, no: nat :: r in s.manifest.repos && r.name == node && ToBlockId(r.start) <= no <= ToBlockId(r.end)
                         && name == SegmentName(s.nameOf(s.manifest.name), no)
  }

  lemma {:induction false} InRangeIff(prefix: Name, lo: nat, hi: nat, name: Name)
    ensures name in RangeNames(prefix, lo, hi) <==> exists no: nat :: lo <= no < hi && name == SegmentName(prefix, no)
  {
    RangeIsNumbered(prefix, lo, hi);
  }

  lemma {:induction false} ListedIff(s: Setting, node: string, name: Name)
    ensures Listed(s, node, name) <==> exists i :: 0 <= i < |Requests(s)| && Touches(s, Requests(s)[i], node, name)
  {
    var prefix := s.nameOf(s.manifest.name);
    if Listed(s, node, name) {
      var r, no: nat :| r in s.manifest.repos && r.name == node && ToBlockId(r.start) <= no <= ToBlockId(r.end)
                        && name == SegmentName(prefix, no);
      var i :| 0 <= i < |s.manifest.repos| && s.manifest.repos[i] == r;
      InRangeIff(prefix, ToBlockId(r.start), ToBlockId(r.end) + 1, name);
      assert Touches(s, Requests(s)[i], node, name);
    }
    if i :| 0 <= i < |Requests(s)| && Touches(s, Requests(s)[i], node, name) {
      var r := s.manifest.repos[i];
      InRangeIff(prefix, ToBlockId(r.start), ToBlockId(r.end) + 1, name);
      assert r in s.manifest.repos;
    }
  }

  /** Every store is what it was, less what the executed requests asked it to delete. */
  ghost predicate StoresOk(s: Setting, c: Protocol)
  {
    && c.stores.Keys == s.stores.Keys
    && (forall node, name :: node in s.stores ==>
          (name in c.stores[node] <==> name in s.stores[node] && !TouchedBy(s, c, node, name)))
    && (forall node, name :: node in s.stores && name in c.stores[node] ==>
          c.stores[node][name] == s.stores[node][name])
  }

  /** Requests sent plus repos remaining are the manifest's list. */
  ghost predicate Conserved(s: Setting, c: Protocol)
  {
    && |c.sent| <= |s.manifest.repos|
    && c.sent == Requests(s)[..|c.sent|]
    && (s.pid in c.owner.processes ==>
          c.owner.processes[s.pid] == Process(s.manifest.repos[|c.sent|..], s.manifest.name, s.hash))
  }

  ghost predicate HistoryOk(c: Protocol)
  {
    && c.sent != []
    && (forall i :: i in c.pending ==> i == |c.sent| - 1 && i !in c.accepted)
    && (forall i: nat :: i + 1 < |c.sent| ==> i in c.accepted)
    && (forall i :: i in c.accepted ==> i in c.executed)
    && (forall i :: i in c.executed ==> i < |c.sent|)
    && (forall i, code :: (i, code) in c.responses ==> i < |c.sent| && (code == 200 || code == 403))
    && (forall i :: (i, 200) in c.responses ==> i in c.executed)
  }

  /** Running, stuck after a failure, or finished. */
  ghost predicate PhaseOk(s: Setting, c: Protocol)
  {
    if s.pid in c.owner.processes then
      && c.owner.manifests == s.manifests && c.pending == (if c.failed then {} else {|c.sent| - 1})
      && c.replies == (if c.failed then [Reply(405, None)] else [])
    else
      && c.owner.manifests == s.manifests - {s.hash} && !c.failed && c.pending == {}
      && |c.sent| == |s.manifest.repos| && |c.sent| - 1 in c.accepted
      && c.replies == [if s.processId.Some? then Reply(200, Some(1)) else Reply(403, None)]
  }

  ghost predicate Inv(s: Setting, c: Protocol)
  {
    Conserved(s, c) && HistoryOk(c) && PhaseOk(s, c) && StoresOk(s, c)
  }

  /** The manifest is there, under the hash the command names. */
  ghost predicate GoodSetting(s: Setting, o: Owner)
  {
    && o.manifests == s.manifests && NoEmptyStorages(s.manifests)
    && ReadManifestOf(s.manifests, s.hash) == Ok(Some(s.manifest))
  }

  lemma BeginKeepsInv(s: Setting, o: Owner)
    requires GoodSetting(s, o)
    ensures Inv(s, Begin(s, o))
  {
    var c := Begin(s, o);
    assert s.manifest.repos != [];
    assert Requests(s)[..1] == [Requests(s)[0]];
    forall node, name ensures !TouchedBy(s, c, node, name) {
    }
  }

  lemma ExecuteKeepsStores(s: Setting, c: Protocol, i: nat)
    requires StoresOk(s, c) && i < |c.sent| && c.sent[i].repo in c.stores && c.sent[i].start <= c.sent[i].end
    ensures StoresOk(s, Executed(c, s, i))
  {
    var c', q := Executed(c, s, i), c.sent[i];
    forall node, name | node in s.stores
      ensures TouchedBy(s, c', node, name) <==> TouchedBy(s, c, node, name) || Touches(s, q, node, name)
    {
      if TouchedBy(s, c, node, name) {
        var k :| k in c.executed && k < |c.sent| && Touches(s, c.sent[k], node, name);
        assert k in c'.executed;
      }
      if Touches(s, q, node, name) {
        assert i in c'.executed;
      }
    }
  }

  lemma {:induction false} ExecuteKeepsHistory(s: Setting, c: Protocol, i: nat)
    requires HistoryOk(c) && i < |c.sent| && c.sent[i].repo in c.stores
    ensures HistoryOk(Executed(c, s, i))
  {
  }

  lemma {:induction false} ExecuteKeepsInv(s: Setting, c: Protocol, i: nat)
    requires Inv(s, c) && i < |c.sent| && c.sent[i].repo in c.stores
    ensures Inv(s, Executed(c, s, i))
  {
    var c' := Executed(c, s, i);
    ExecuteKeepsHistory(s, c, i);
    if c.sent[i].start <= c.sent[i].end {
      ExecuteKeepsStores(s, c, i);
    } else {
      SameTouched(s, c, c');
    }
  }

  /** More requests sent but not yet executed change nothing in the stores. */
  lemma SameTouched(s: Setting, c: Protocol, c': Protocol)
    requires StoresOk(s, c) && c'.stores == c.stores && c'.executed == c.executed && c.sent <= c'.sent
    requires forall i :: i in c.executed ==> i < |c.sent|
    ensures StoresOk(s, c')
  {
    forall node, name ensures TouchedBy(s, c', node, name) <==> TouchedBy(s, c, node, name) {
      if TouchedBy(s, c', node, name) {
        var k :| k in c'.executed && k < |c'.sent| && Touches(s, c'.sent[k], node, name);
        assert c.sent[k] == c'.sent[k];
      }
      if TouchedBy(s, c, node, name) {
        var k :| k in c.executed && k < |c.sent| && Touches(s, c.sent[k], node, name);
        assert c.sent[k] == c'.sent[k];
      }
    }
  }

  lemma {:induction false} AnswerKeepsConserved(s: Setting, c: Protocol, i: nat, code: nat)
    requires Conserved(s, c) && s.pid in c.owner.processes
    ensures Conserved(s, Answered(c, s, i, code))
  {
    var n, repos := |c.sent|, s.manifest.repos;
    if code <= 400 && repos[n..] != [] {
      assert repos[n..][1..] == repos[n + 1..];
      assert Requests(s)[..n + 1] == Requests(s)[..n] + [Requests(s)[n]];
    }
  }

  lemma {:induction false} AnswerKeepsHistory(s: Setting, c: Protocol, i: nat, code: nat)
    requires Conserved(s, c) && HistoryOk(c) && PhaseOk(s, c) && i in c.pending && (i, code) in c.responses
    ensures HistoryOk(Answered(c, s, i, code)) && PhaseOk(s, Answered(c, s, i, code))
  {
    assert s.pid in c.owner.processes;
  }

  lemma {:induction false} AnswerKeepsInv(s: Setting, c: Protocol, i: nat, code: nat)
    requires Inv(s, c) && i in c.pending && (i, code) in c.responses
    ensures Inv(s, Answered(c, s, i, code))
  {
    SameTouched(s, c, Answered(c, s, i, code));
    AnswerKeepsConserved(s, c, i, code);
    AnswerKeepsHistory(s, c, i, code);
  }

  lemma FailKeepsInv(s: Setting, c: Protocol, i: nat)
    requires Inv(s, c) && i in c.pending
    ensures Inv(s, Failed(c, s, i))
  {
    SameTouched(s, c, Failed(c, s, i));
  }

  lemma {:induction false} NextKeepsInv(s: Setting, c: Protocol, step: Step)
    requires Inv(s, c)
    ensures Inv(s, Next(c, s, step))
  {
    match step {
      case Execute(i) =>
        if i < |c.sent| && c.sent[i].repo in c.stores {
          ExecuteKeepsInv(s, c, i);
        }
      case Answer(i, code) =>
        if i in c.pending && (i, code) in c.responses {
          AnswerKeepsInv(s, c, i, code);
        }
      case Fail(i) =>
        if i in c.pending {
          FailKeepsInv(s, c, i);
        }
    }
  }

  /** Conservation and the other invariants hold at every step of every run. */
  lemma {:induction false} RunKeepsInv(s: Setting, o: Owner, steps: seq<Step>)
    requires GoodSetting(s, o)
    ensures Inv(s, Run(Begin(s, o), s, steps))
  {
    if steps == [] {
      BeginKeepsInv(s, o);
    } else {
      RunKeepsInv(s, o, steps[..|steps| - 1]);
      NextKeepsInv(s, Run(Begin(s, o), s, steps[..|steps| - 1]), steps[|steps| - 1]);
    }
  }

  // ---------- the main results ----------

  /** Requests sent plus repos remaining equal the manifest's list, so no run sends more requests than that. */
  lemma {:induction false} RequestsAreConserved(s: Setting, o: Owner, steps: seq<Step>)
    requires GoodSetting(s, o)
    ensures var c := Run(Begin(s, o), s, steps);
            && |c.sent| <= |s.manifest.repos| && c.sent == Requests(s)[..|c.sent|]
            && (s.pid in c.owner.processes ==>
                  c.owner.processes[s.pid] == Process(s.manifest.repos[|c.sent|..], s.manifest.name, s.hash))
  {
    RunKeepsInv(s, o, steps);
  }

  /** The manifest is erased only when every listed repo has been asked, has executed and has answered. */
  lemma {:induction false} ErasedOnlyWhenAllAnswered(s: Setting, o: Owner, steps: seq<Step>)
    requires GoodSetting(s, o)
    ensures var c := Run(Begin(s, o), s, steps);
            s.hash !in c.owner.manifests ==>
              && c.sent == Requests(s)
              && (forall i: nat :: i < |c.sent| ==> i in c.accepted && i in c.executed)
              && c.owner.manifests == s.manifests - {s.hash}
  {
    RunKeepsInv(s, o, steps);
    var c := Run(Begin(s, o), s, steps);
    if s.hash !in c.owner.manifests {
      assert Requests(s)[..|c.sent|] == Requests(s);
      forall i: nat | i < |c.sent| ensures i in c.accepted {
        assert i + 1 < |c.sent| || i == |c.sent| - 1;
      }
    }
  }

  lemma {:induction false} TouchedIsListed(s: Setting, c: Protocol, node: string, name: Name)
    requires |c.sent| <= |s.manifest.repos| && c.sent == Requests(s)[..|c.sent|]
    ensures TouchedBy(s, c, node, name) ==> Listed(s, node, name)
    ensures c.sent == Requests(s) && (forall i: nat :: i < |c.sent| ==> i in c.executed) && Listed(s, node, name) ==>
              TouchedBy(s, c, node, name)
  {
    ListedIff(s, node, name);
    if TouchedBy(s, c, node, name) {
      var i :| i in c.executed && i < |c.sent| && Touches(s, c.sent[i], node, name);
      assert c.sent[i] == Requests(s)[i];
    }
    if c.sent == Requests(s) && (forall i: nat :: i < |c.sent| ==> i in c.executed) && Listed(s, node, name) {
      var i :| 0 <= i < |Requests(s)| && Touches(s, Requests(s)[i], node, name);
      assert i in c.executed && Touches(s, c.sent[i], node, name);
    }
  }

  /** No request whose range ends at the largest block id has been executed. */
  ghost predicate NoneEndless(c: Protocol)
  {
    forall i :: i in c.executed ==> i < |c.sent| && c.sent[i].end + 1 < 0x1_0000_0000_0000_0000
  }

  lemma {:induction false} NextKeepsNoneEndless(c: Protocol, s: Setting, step: Step)
    requires NoneEndless(c)
    ensures NoneEndless(Next(c, s, step))
  {
  }

  lemma {:induction false} EndlessIsNotExecuted(s: Setting, o: Owner, steps: seq<Step>)
    requires GoodSetting(s, o)
    ensures NoneEndless(Run(Begin(s, o), s, steps))
  {
    if steps != [] {
      EndlessIsNotExecuted(s, o, steps[..|steps| - 1]);
      NextKeepsNoneEndless(Run(Begin(s, o), s, steps[..|steps| - 1]), s, steps[|steps| - 1]);
    }
  }

  /**
   * A manifest that lists a repo with -1 as its end, as that of an empty file does, is never erased: the repo is asked
   * to delete up to the largest block id, never comes to an end, and so never answers.
   */
  lemma {:induction false} EndlessIsNeverErased(s: Setting, o: Owner, steps: seq<Step>)
    requires GoodSetting(s, o) && exists r :: r in s.manifest.repos && r.end == -1
    ensures s.hash in Run(Begin(s, o), s, steps).owner.manifests
  {
    var c := Run(Begin(s, o), s, steps);
    var r :| r in s.manifest.repos && r.end == -1;
    var i :| 0 <= i < |s.manifest.repos| && s.manifest.repos[i] == r;
    ErasedOnlyWhenAllAnswered(s, o, steps);
    EndlessIsNotExecuted(s, o, steps);
    assert Requests(s)[i].end == 0xffff_ffff_ffff_ffff;
    assert i in c.executed ==> c.sent[i].end + 1 < 0x1_0000_0000_0000_0000;
    if s.hash !in c.owner.manifests {
      assert false;
    }
  }

  /** A packet outside the listed ranges is never touched; once the manifest is gone, exactly the listed ones are. */
  lemma {:induction false} FinishedRunRemovesExactlyTheList(s: Setting, o: Owner, steps: seq<Step>, node: string,
                                                            name: Name)
    requires GoodSetting(s, o) && node in s.stores
    ensures var c := Run(Begin(s, o), s, steps);
            && node in c.stores
            && (name in c.stores[node] ==> name in s.stores[node] && c.stores[node][name] == s.stores[node][name])
            && (!Listed(s, node, name) ==> (name in c.stores[node] <==> name in s.stores[node]))
            && (s.hash !in c.owner.manifests ==>
                  (name in c.stores[node] <==> name in s.stores[node] && !Listed(s, node, name)))
  {
    RunKeepsInv(s, o, steps);
    ErasedOnlyWhenAllAnswered(s, o, steps);
    var c := Run(Begin(s, o), s, steps);
    TouchedIsListed(s, c, node, name);
  }

  /** One refused or unanswered request is final: the manifest and the process entry stay for ever. */
  lemma {:induction false} FailureIsFinal(s: Setting, o: Owner, steps: seq<Step>)
    requires GoodSetting(s, o)
    ensures var c := Run(Begin(s, o), s, steps);
            c.failed ==> s.hash in c.owner.manifests && s.pid in c.owner.processes && c.pending == {}
  {
    RunKeepsInv(s, o, steps);
  }

  /** The command is answered once: 405 after the first failure, 200 (403 without a process id) after the last repo. */
  lemma {:induction false} AnsweredOnce(s: Setting, o: Owner, steps: seq<Step>)
    requires GoodSetting(s, o)
    ensures var c := Run(Begin(s, o), s, steps);
            c.replies == if c.failed then [Reply(405, None)]
                         else if s.hash in c.owner.manifests then []
                         else [if s.processId.Some? then Reply(200, Some(1)) else Reply(403, None)]
  {
    RunKeepsInv(s, o, steps);
  }

  /** Every node executes and answers at once. */
  function Cooperative(rounds: nat): seq<Step>
  {
    if rounds == 0 then [] else Cooperative(rounds - 1) + [Execute(rounds - 1), Answer(rounds - 1, 200)]
  }

  /** The listed repos exist and their ranges are proper. */
  ghost predicate Deletable(s: Setting)
  {
    forall r :: r in s.manifest.repos ==>
      r.name in s.stores && ToBlockId(r.start) <= ToBlockId(r.end) && ToBlockId(r.end) + 1 < TWO_64
  }

  lemma {:induction false} RunTwo(c: Protocol, s: Setting, steps: seq<Step>, x: Step, y: Step)
    ensures Run(c, s, steps + [x, y]) == Next(Next(Run(c, s, steps), s, x), s, y)
  {
    assert (steps + [x, y])[..|steps| + 1] == steps + [x];
    assert (steps + [x])[..|steps|] == steps;
  }

  /** After that many rounds the process is running, or through. */
  predicate OnTrack(s: Setting, c: Protocol, rounds: nat)
  {
    && !c.failed
    && (rounds < |s.manifest.repos| ==> s.pid in c.owner.processes && |c.sent| == rounds + 1)
    && (rounds == |s.manifest.repos| ==> s.pid !in c.owner.processes)
  }

  lemma {:induction false} RoundOnTrack(s: Setting, c: Protocol, i: nat) returns (c': Protocol)
    requires Conserved(s, c) && PhaseOk(s, c) && c.stores.Keys == s.stores.Keys && Deletable(s)
    requires i < |s.manifest.repos| && OnTrack(s, c, i)
    ensures c' == Next(Next(c, s, Execute(i)), s, Answer(i, 200)) && OnTrack(s, c', i + 1)
  {
    assert c.sent[i] == Requests(s)[i] && s.manifest.repos[i] in s.manifest.repos;
    var d := Next(c, s, Execute(i));
    assert d == Executed(c, s, i) && i in d.pending && (i, 200) in d.responses;
    c' := Next(d, s, Answer(i, 200));
  }

  lemma {:induction false} OneRound(s: Setting, o: Owner, steps: seq<Step>, c: Protocol, i: nat)
    returns (c': Protocol)
    requires GoodSetting(s, o) && Deletable(s) && c == Run(Begin(s, o), s, steps)
    requires i < |s.manifest.repos| && OnTrack(s, c, i)
    ensures c' == Run(Begin(s, o), s, steps + [Execute(i), Answer(i, 200)]) && OnTrack(s, c', i + 1)
  {
    RunKeepsInv(s, o, steps);
    c' := RoundOnTrack(s, c, i);
    RunTwo(Begin(s, o), s, steps, Execute(i), Answer(i, 200));
  }

  lemma {:induction false} BeginIsOnTrack(s: Setting, o: Owner)
    requires GoodSetting(s, o)
    ensures OnTrack(s, Begin(s, o), 0)
  {
    BeginKeepsInv(s, o);
  }

  /** When every repo cooperates, as many rounds as there are repos delete the file completely. */
  lemma {:induction false} CooperationDeletesTheFile(s: Setting, o: Owner)
    requires GoodSetting(s, o) && Deletable(s)
    ensures s.hash !in Run(Begin(s, o), s, Cooperative(|s.manifest.repos|)).owner.manifests
  {
    var rounds, steps: seq<Step>, c := 0, [], Begin(s, o);
    BeginIsOnTrack(s, o);
    while rounds < |s.manifest.repos|
      invariant rounds <= |s.manifest.repos| && OnTrack(s, c, rounds)
      invariant steps == Cooperative(rounds) && c == Run(Begin(s, o), s, steps)
    {
      c := OneRound(s, o, steps, c, rounds);
      steps := steps + [Execute(rounds), Answer(rounds, 200)];
      rounds := rounds + 1;
    }
    RunKeepsInv(s, o, steps);
  }

  // ---------- the object ----------

  /** A stored manifest that does not parse throws, and nothing is sent. */
  datatype OnlyDeleteReply = Empty | Failed405 | Thrown

  class DeleteHandle {
    const storage: RepoStorage
    var processes: map<Uint64, Process>

    constructor (storage: RepoStorage)
      ensures this.storage == storage && processes == map[]
    {
      this.storage := storage;
      processes := map[];
    }

    function View(): Owner
      reads this, storage
    {
      Owner(processes, storage.manifests)
    }

    method HandleDeleteDataCommand(name: Name, start: Option<Uint64>, end: Option<Uint64>, processId: Option<Uint64>)
      returns (reply: Reply)
      requires end.Some? ==> end.value + 1 < TWO_64
      modifies storage
      ensures reply == DeleteDataReply(start, end, processId)
      ensures storage.View() ==
              old(storage.View()).(packets := AfterDeleteData(old(storage.packets), name, start, end))
    {
      if start.None? || end.None? {
        return Reply(403, None);
      }
      if start.value > end.value {
        assert RangeNames(name, start.value, end.value + 1) == {};
        assert storage.packets - {} == storage.packets;
        return Reply(403, None);
      }
      var nDeletedData := 0;
      var i: nat := start.value;
      assert storage.packets - {} == storage.packets;
      while i <= end.value
        invariant start.value <= i <= end.value + 1 && nDeletedData == i - start.value
        invariant storage.View() ==
                  old(storage.View()).(packets := old(storage.packets) - RangeNames(name, start.value, i))
      {
        var r := storage.DeleteData(SegmentName(name, i));
        if r != 0 {
          nDeletedData := nDeletedData + 1;
        }
        MinusOneMore(old(storage.packets), RangeNames(name, start.value, i), SegmentName(name, i));
        i := i + 1;
      }
      return PositiveReply(processId, 200, nDeletedData);
    }

    method HandleDeleteManifestCommand(hash: string, pid: Uint64)
      returns (requests: seq<Request>, replies: seq<Reply>)
      requires NoEmptyStorages(storage.manifests)
      modifies this`processes
      ensures Outcome(View(), requests, replies) == AfterDeleteManifest(old(View()), hash, pid)
    {
      requests, replies := [], [];
      processes := processes[pid := if pid in processes then processes[pid] else EMPTY];
      var manifest := storage.ReadManifest(hash);
      if manifest.Err? {
        return;
      }
      if manifest.value.None? {
        replies := [Reply(405, None)];
        return;
      }
      var m := manifest.value.value;
      processes := processes[pid := Process(m.repos, m.name, hash)];
      ghost var before := WithEntry(old(View()), pid, Process(m.repos, m.name, hash));
      assert View() == before;
      requests := DeleteData(pid);
    }

    method DeleteData(pid: Uint64) returns (requests: seq<Request>)
      requires pid in processes && processes[pid].repos != []
      modifies this`processes
      ensures Outcome(View(), requests, []) == Advance(old(View()), pid)
    {
      var process := processes[pid];
      var repo := process.repos[0];
      processes := processes[pid := process.(repos := process.repos[1..])];
      requests := [Request(repo.name, process.name, ToBlockId(repo.start), ToBlockId(repo.end))];
    }

    method OnDeleteDataCommandResponse(pid: Uint64, code: nat, processId: Option<Uint64>)
      returns (requests: seq<Request>, replies: seq<Reply>)
      modifies this`processes, storage
      ensures Outcome(View(), requests, replies) == AfterResponse(old(View()), pid, code, processId)
      ensures storage.View() == old(storage.View()).(manifests := View().manifests)
    {
      requests, replies := [], [];
      var process := if pid in processes then processes[pid] else EMPTY;
      if code > 400 {
        processes := processes[pid := process];
        replies := [Reply(405, None)];
        return;
      }
      if |process.repos| == 0 {
        replies := [PositiveReply(processId, 200, 1)];
        var _ := storage.DeleteManifest(process.hash);
        processes := processes - {pid};
      } else {
        requests := DeleteData(pid);
      }
    }

    method OnTimeout(pid: Uint64) returns (replies: seq<Reply>)
      modifies this`processes
      ensures Outcome(View(), [], replies) == AfterTimeout(old(View()), pid)
    {
      processes := processes[pid := if pid in processes then processes[pid] else EMPTY];
      replies := [Reply(405, None)];
    }

    /** The node that receives a delete command sends it on to the owner of the name's key. */
    method HandleDeleteCommand(table: Table, name: string, pid: Uint64)
      returns (r: Result<string, RouteError>, hash: string)
      modifies this`processes
      ensures hash == KeyOfName(name, storage.backend.sha1) && r == Route(table, hash)
      ensures processes == WithEntry(old(View()), pid, ProcessOf(old(View()), pid)).processes
    {
      hash := HashOfName(name, storage.backend.sha1);
      processes := processes[pid := if pid in processes then processes[pid] else EMPTY];
      r := GetManifestStorage(table, hash);
    }

    method OnDeleteManifestCommandResponse(pid: Uint64, code: nat, processId: Option<Uint64>) returns (reply: Reply)
      modifies this`processes
      ensures reply == if code == 200 then PositiveReply(processId, 200, 1) else Reply(404, None)
      ensures processes == old(processes) - {pid}
    {
      if code == 200 {
        reply := PositiveReply(processId, 200, 1);
      } else {
        reply := Reply(404, None);
      }
      processes := processes - {pid};
    }

    /** Only the manifest goes; the data packets stay. */
    method HandleOnlyDeleteManifestCommand(hash: string) returns (reply: OnlyDeleteReply)
      modifies storage
      ensures var found := ReadManifestOf(old(storage.manifests), hash);
              var removed := found.Ok? && found.value.Some?;
              && storage.View() == (if removed then old(storage.View()).(manifests := old(storage.manifests) - {hash})
                                    else old(storage.View()))
              && (reply == Empty <==> removed)
              && (reply == Failed405 <==> hash !in old(storage.manifests))
    {
      var manifest := storage.ReadManifest(hash);
      if manifest.Err? {
        return Thrown;
      }
      if manifest.value.None? {
        return Failed405;
      }
      var _ := storage.DeleteManifest(hash);
      return Empty;
    }
  }

  lemma MinusOneMore(packets: Packets, gone: set<Name>, name: Name)
    ensures (packets - gone) - {name} == packets - (gone + {name})
  {
  }
}
