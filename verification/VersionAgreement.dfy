/**
 * The announce / fetch / reply exchange of src/handles/keyspace-handle.cpp as a step system. Messages stay in
 * the network for ever and may be delivered any number of times, in any order or never: delay, loss, duplication
 * and reordering are all runs of this system, and so are the retransmissions on timeout.
 */
module VersionAgreement {
  import opened Options
  import opened HexText
  import opened Keyspace
  import opened Routing
  import opened KeyspaceNode

  /** `published` remembers every table the manager ever named, by version number. */
  datatype System = System(manager: string, nodes: map<string, Node>, net: set<Message>, published: map<nat, Table>)

  datatype Step =
    | Operate(c: Command)                                    // an operator's add-node or del-node at the manager
    | Join(node: string, boot: Boot)                         // a repo process starts
    | Reannounce                                             // onVersionCommandTimeout
    | Deliver(m: Message)
    | ListArrives(node: string, keys: Option<seq<string>>)   // a manifest-list reply of any content

  function Init(manager: string, boot: Boot): System
  {
    var n := InitialManager(manager, boot);
    System(manager, map[manager := n], {}, map[0 := n.keySpaceFile])
  }

  function AsSet(ms: seq<Message>): set<Message>
  {
    set m | m in ms
  }

  function Send(s: System, ms: seq<Message>): System
  {
    s.(net := s.net + AsSet(ms))
  }

  function Operated(s: System, c: Command): System
    requires s.manager in s.nodes
  {
    var n := s.nodes[s.manager];
    var n' := AfterCommand(n, c);
    var s' := Send(s.(nodes := s.nodes[s.manager := n']), SentByCommand(n, c));
    if Apply(n.keySpaceFile, c).Changed? then s'.(published := s'.published[n.versionNum := n'.keySpaceFile]) else s'
  }

  function Delivered(s: System, m: Message): System
  {
    match m
    case Announce(node, version) =>
      if node in s.nodes then Send(s, SentOnVersion(s.nodes[node], version)) else s
    case Fetch(requester, version) =>
      if s.manager in s.nodes then Send(s, SentOnFetch(s.nodes[s.manager], requester, version)) else s
    case FetchReply(requester, version, content) =>
      if requester in s.nodes
      then s.(nodes := s.nodes[requester := AfterFetchReply(s.nodes[requester], version, content)]) else s
    case Coordinate(to, from) =>
      if to in s.nodes then s.(nodes := s.nodes[to := AfterCoordinate(s.nodes[to], Some(from))]) else s
    case _ => s
  }

  /** A step that is not enabled changes nothing. */
  function Next(s: System, step: Step): System
  {
    match step
    case Operate(c) => if s.manager in s.nodes then Operated(s, c) else s
    case Join(node, boot) => if node in s.nodes then s else s.(nodes := s.nodes[node := InitialMember(node, boot)])
    case Reannounce => if s.manager in s.nodes then Send(s, Announcements(s.nodes[s.manager])) else s
    case Deliver(m) => if m in s.net then Delivered(s, m) else s
    case ListArrives(node, keys) =>
      if node in s.nodes then s.(nodes := s.nodes[node := AfterManifestList(s.nodes[node], keys)]) else s
  }

  function Run(s: System, steps: seq<Step>): System
  {
    if steps == [] then s else Next(Run(s, steps[..|steps| - 1]), steps[|steps| - 1])
  }

  // ---------- the invariant ----------

  ghost predicate ManagerOk(s: System)
  {
    && s.manager in s.nodes
    && var n := s.nodes[s.manager];
       && n.versionNum > 0
       && n.version == Some(n.versionNum - 1)
       && (forall v: nat :: v in s.published <==> v < n.versionNum)
       && s.published[n.versionNum - 1] == n.keySpaceFile
  }

  ghost predicate MessageOk(s: System, m: Message)
    requires ManagerOk(s)
  {
    var current := s.nodes[s.manager].versionNum;
    match m
    case Announce(_, v) => v < current
    // the manager only ever asks itself for versions it has left behind, so it never gets a table back
    case Fetch(requester, v) => v < current && (requester == s.manager ==> v < current - 1)
    case FetchReply(requester, v, Some(t)) => v < current && s.published[v] == t && requester != s.manager
    case _ => true
  }

  /** What a node has installed is what was published under that name, and its range is its own entry's. */
  ghost predicate NodeOk(s: System, name: string)
    requires name in s.nodes
  {
    var n := s.nodes[name];
    && n.self == name
    && (n.version.Some? ==> n.version.value in s.published && n.keySpaceFile == s.published[n.version.value])
    && (name != s.manager && n.version.Some? && HasNode(n.keySpaceFile, name) ==>
          var e := EntryOf(n.keySpaceFile, name);
          Parsable(e.start) && Parsable(e.end) ==> n.start == e.start && n.end == e.end)
  }

  ghost predicate Inv(s: System)
  {
    && ManagerOk(s)
    && (forall m :: m in s.net ==> MessageOk(s, m))
    && (forall name :: name in s.nodes ==> NodeOk(s, name))
  }

  lemma OperateKeepsInv(s: System, c: Command)
    requires Inv(s)
    ensures Inv(Operated(s, c))
  {
    var n, s' := s.nodes[s.manager], Operated(s, c);
    var n' := AfterCommand(n, c);
    if n'.version.Some? {
      AnnouncementsAreTo(n'.keySpaceFile, 0, n'.version.value);
    }
    assert ManagerOk(s');
    forall m | m in s'.net ensures MessageOk(s', m) {
      if m in s.net {
        assert MessageOk(s, m);
      }
    }
    forall name | name in s'.nodes ensures NodeOk(s', name) {
      assert NodeOk(s, name);
    }
  }

  lemma DeliverKeepsInv(s: System, m: Message)
    requires Inv(s) && m in s.net
    ensures Inv(Delivered(s, m))
  {
    assert MessageOk(s, m);
    var s' := Delivered(s, m);
    assert ManagerOk(s');
    forall k | k in s'.net ensures MessageOk(s', k) {
      if k in s.net {
        assert MessageOk(s, k);
      } else if m.Announce? {
        assert NodeOk(s, m.node);
        assert k == Fetch(m.node, m.version);
      }
    }
    forall name | name in s'.nodes ensures NodeOk(s', name) {
      assert NodeOk(s, name);
    }
  }

  lemma NextKeepsInv(s: System, step: Step)
    requires Inv(s)
    ensures Inv(Next(s, step))
  {
    var s' := Next(s, step);
    match step {
      case Operate(c) => OperateKeepsInv(s, c);
      case Deliver(m) =>
        if m in s.net {
          DeliverKeepsInv(s, m);
        }
      case Reannounce =>
        var n := s.nodes[s.manager];
        AnnouncementsAreTo(n.keySpaceFile, 0, n.version.value);
        assert ManagerOk(s');
        forall m | m in s'.net ensures MessageOk(s', m) {
          if m in s.net {
            assert MessageOk(s, m);
          }
        }
        forall name | name in s'.nodes ensures NodeOk(s', name) {
          assert NodeOk(s, name);
        }
      case _ =>
        assert ManagerOk(s');
        forall m | m in s'.net ensures MessageOk(s', m) {
          assert MessageOk(s, m);
        }
        forall name | name in s'.nodes ensures NodeOk(s', name) {
          if name in s.nodes {
            assert NodeOk(s, name);
          }
        }
    }
  }

  lemma {:induction false} RunKeepsInv(manager: string, boot: Boot, steps: seq<Step>)
    ensures Inv(Run(Init(manager, boot), steps))
  {
    if steps != [] {
      RunKeepsInv(manager, boot, steps[..|steps| - 1]);
      NextKeepsInv(Run(Init(manager, boot), steps[..|steps| - 1]), steps[|steps| - 1]);
    }
  }

  // ---------- agreement ----------

  /** In every run, whatever a node has installed under a version is the table the manager published under it. */
  lemma {:induction false} VersionAgreement(manager: string, boot: Boot, steps: seq<Step>, name: string)
    requires var s := Run(Init(manager, boot), steps); name in s.nodes && s.nodes[name].version.Some?
    ensures var s := Run(Init(manager, boot), steps);
            var v := s.nodes[name].version.value;
            v in s.published && s.nodes[name].keySpaceFile == s.published[v]
  {
    RunKeepsInv(manager, boot, steps);
    assert NodeOk(Run(Init(manager, boot), steps), name);
  }

  /** Two nodes at the same version route every hash to the same place. */
  lemma {:induction false} SameVersionSameRouting(manager: string, boot: Boot, steps: seq<Step>, a: string, b: string,
                                                  hash: string)
    requires var s := Run(Init(manager, boot), steps);
             a in s.nodes && b in s.nodes && s.nodes[a].version.Some? && s.nodes[a].version == s.nodes[b].version
    ensures var s := Run(Init(manager, boot), steps);
            Route(s.nodes[a].keySpaceFile, hash) == Route(s.nodes[b].keySpaceFile, hash)
  {
    VersionAgreement(manager, boot, steps, a);
    VersionAgreement(manager, boot, steps, b);
  }

  /** Version names are never reused: a published table is never replaced. */
  lemma {:induction false} PublishedIsFinal(s: System, step: Step, v: nat)
    requires Inv(s) && v in s.published
    ensures v in Next(s, step).published && Next(s, step).published[v] == s.published[v]
  {
  }

  ghost predicate SafeOperations(manager: string, boot: Boot, steps: seq<Step>)
  {
    forall k :: 0 <= k < |steps| && steps[k].Operate? ==>
      var s := Run(Init(manager, boot), steps[..k]);
      s.manager in s.nodes && SafeCommand(s.nodes[s.manager].keySpaceFile, steps[k].c)
  }

  ghost predicate AllPublishedAreRings(s: System)
  {
    forall v :: v in s.published ==> IsRing(s.published[v])
  }

  lemma SafeStepKeepsRings(s: System, step: Step)
    requires Inv(s) && AllPublishedAreRings(s)
    requires step.Operate? ==> SafeCommand(s.nodes[s.manager].keySpaceFile, step.c)
    ensures AllPublishedAreRings(Next(s, step))
  {
    if step.Operate? {
      var t := s.nodes[s.manager].keySpaceFile;
      assert IsRing(s.published[s.nodes[s.manager].versionNum - 1]);
      CommandKeepsRingIff(t, step.c);
    }
  }

  lemma SafeOperationsPrefix(manager: string, boot: Boot, steps: seq<Step>)
    requires steps != [] && SafeOperations(manager, boot, steps)
    ensures SafeOperations(manager, boot, steps[..|steps| - 1])
  {
    var init := steps[..|steps| - 1];
    forall k | 0 <= k < |init| && init[k].Operate?
      ensures var s := Run(Init(manager, boot), init[..k]);
              s.manager in s.nodes && SafeCommand(s.nodes[s.manager].keySpaceFile, init[k].c)
    {
      assert init[..k] == steps[..k] && init[k] == steps[k];
    }
  }

  lemma {:induction false} PublishedAreRings(manager: string, boot: Boot, steps: seq<Step>)
    requires SafeOperations(manager, boot, steps)
    ensures AllPublishedAreRings(Run(Init(manager, boot), steps))
  {
    if steps == [] {
      InitialTableIsRing(manager);
    } else {
      var init, last := steps[..|steps| - 1], steps[|steps| - 1];
      SafeOperationsPrefix(manager, boot, steps);
      PublishedAreRings(manager, boot, init);
      RunKeepsInv(manager, boot, init);
      SafeStepKeepsRings(Run(Init(manager, boot), init), last);
    }
  }

  /**
   * End to end: when the operator only issues safe commands, every node that has installed any version, however
   * old, sends each key to the one node of its table whose range contains the key's first byte.
   */
  lemma EveryInstalledTableRoutes(manager: string, boot: Boot, steps: seq<Step>, name: string, hash: string)
    requires SafeOperations(manager, boot, steps) && TopByte(hash).Some?
    requires var s := Run(Init(manager, boot), steps); name in s.nodes && s.nodes[name].version.Some?
    ensures var t := Run(Init(manager, boot), steps).nodes[name].keySpaceFile;
            exists i :: 0 <= i < |t| && Covers(t[i], TopByte(hash).value) && Route(t, hash) == Ok(t[i].node)
                        && forall j :: 0 <= j < |t| && Covers(t[j], TopByte(hash).value) ==> j == i
  {
    VersionAgreement(manager, boot, steps, name);
    PublishedAreRings(manager, boot, steps);
    RoutingRefinesOwnership(Run(Init(manager, boot), steps).nodes[name].keySpaceFile, hash);
  }

  // ---------- everybody who is told catches up ----------

  /** After a command that changed the table, and after every timeout, each later entry's node is told the version. */
  lemma {:induction false} ListedAreTold(s: System, step: Step, k: nat)
    requires Inv(s) && (step.Reannounce? || (step.Operate? && Apply(s.nodes[s.manager].keySpaceFile, step.c).Changed?))
    requires var n := Next(s, step).nodes; s.manager in n && 0 < k < |n[s.manager].keySpaceFile|
    ensures var n := Next(s, step).nodes[s.manager];
            n.version.Some? && Announce(n.keySpaceFile[k].node, n.version.value) in Next(s, step).net
  {
    var n := Next(s, step).nodes[s.manager];
    AnnouncedIff(n.keySpaceFile, n.version.value, Announce(n.keySpaceFile[k].node, n.version.value));
    assert Announce(n.keySpaceFile[k].node, n.version.value) in AsSet(Announcements(n));
  }

  /** This node has the manager's table, under the manager's version. */
  predicate UpToDate(s: System, name: string)
  {
    && s.manager in s.nodes && name in s.nodes
    && s.nodes[name].version == s.nodes[s.manager].version
    && s.nodes[name].keySpaceFile == s.nodes[s.manager].keySpaceFile
  }

  /** Its announcement, its fetch and the manager's reply. */
  function CatchUpSteps(name: string, version: nat, t: Table): seq<Step>
  {
    [Deliver(Announce(name, version)), Deliver(Fetch(name, version)), Deliver(FetchReply(name, version, Some(t)))]
  }

  lemma {:induction false} RunThree(s: System, x: Step, y: Step, z: Step)
    ensures Run(s, [x, y, z]) == Next(Next(Next(s, x), y), z)
  {
    calc {
      Run(s, [x, y, z]);
      { assert [x, y, z] == [x, y] + [z]; RunMore(s, [x, y], z); }
      Next(Run(s, [x, y]), z);
      { assert [x, y] == [x] + [y]; RunMore(s, [x], y); }
      Next(Next(Run(s, [x]), y), z);
      { assert [x] == [] + [x]; RunMore(s, [], x); }
      Next(Next(Next(s, x), y), z);
    }
  }

  lemma {:induction false} AskForVersion(s: System, name: string, version: nat)
    requires name in s.nodes && s.nodes[name].self == name && s.nodes[name].version != Some(version)
    requires Announce(name, version) in s.net
    ensures Next(s, Deliver(Announce(name, version))) == s.(net := s.net + {Fetch(name, version)})
  {
    assert SentOnVersion(s.nodes[name], version) == [Fetch(name, version)];
    assert AsSet([Fetch(name, version)]) == {Fetch(name, version)};
  }

  lemma {:induction false} ReplyWithTable(s: System, name: string, version: nat)
    requires s.manager in s.nodes && s.nodes[s.manager].version == Some(version) && Fetch(name, version) in s.net
    ensures var d := Next(s, Deliver(Fetch(name, version)));
            && d == s.(net := d.net) && s.net <= d.net
            && FetchReply(name, version, Some(s.nodes[s.manager].keySpaceFile)) in d.net
  {
    var n := s.nodes[s.manager];
    assert SentOnFetch(n, name, version)[0] == FetchReply(name, version, Some(n.keySpaceFile));
  }

  lemma {:induction false} InstallTable(s: System, name: string, version: nat, t: Table)
    requires name in s.nodes && FetchReply(name, version, Some(t)) in s.net
    ensures var d := Next(s, Deliver(FetchReply(name, version, Some(t))));
            && d == s.(nodes := s.nodes[name := d.nodes[name]])
            && d.nodes[name].version == Some(version) && d.nodes[name].keySpaceFile == t
  {
  }

  /** Progress: a member that is told the manager's version, and is not at it, has its table three messages later. */
  lemma {:induction false} ToldCatchesUp(s: System, name: string)
    requires Inv(s) && name in s.nodes && name != s.manager
    requires var n := s.nodes[s.manager];
             Announce(name, n.version.value) in s.net && s.nodes[name].version != n.version
    ensures var n := s.nodes[s.manager];
            var d := Run(s, CatchUpSteps(name, n.version.value, n.keySpaceFile));
            && UpToDate(d, name) && d == s.(nodes := s.nodes[name := d.nodes[name]], net := d.net) && s.net <= d.net
  {
    var version, t := s.nodes[s.manager].version.value, s.nodes[s.manager].keySpaceFile;
    assert NodeOk(s, name);
    var x, y, z := Deliver(Announce(name, version)), Deliver(Fetch(name, version)),
                   Deliver(FetchReply(name, version, Some(t)));
    RunThree(s, x, y, z);
    AskForVersion(s, name, version);
    ReplyWithTable(Next(s, x), name, version);
    InstallTable(Next(Next(s, x), y), name, version, t);
  }

  /** The nodes of the manager's table, less the first entry, that have been started. */
  ghost predicate ToldUpTo(s: System, k: nat)
    requires s.manager in s.nodes
  {
    var t := s.nodes[s.manager].keySpaceFile;
    forall j :: 0 < j < k && j < |t| && t[j].node in s.nodes ==> UpToDate(s, t[j].node)
  }

  /** The manager and the set of nodes are as they were, and no message is gone. */
  ghost predicate OnlyMembersMoved(s: System, d: System)
  {
    && s.manager in s.nodes && d.manager == s.manager && d.nodes.Keys == s.nodes.Keys
    && d.nodes[s.manager] == s.nodes[s.manager] && s.net <= d.net
  }

  lemma {:induction false} NextEntryCatchesUp(s: System, k: nat) returns (more: seq<Step>)
    requires Inv(s) && 0 < k < |s.nodes[s.manager].keySpaceFile| && ToldUpTo(s, k)
    requires var n := s.nodes[s.manager]; Announce(n.keySpaceFile[k].node, n.version.value) in s.net
    ensures Inv(Run(s, more)) && OnlyMembersMoved(s, Run(s, more)) && ToldUpTo(Run(s, more), k + 1)
  {
    more := [];
    var n := s.nodes[s.manager];
    var name := n.keySpaceFile[k].node;
    if name in s.nodes && !UpToDate(s, name) {
      assert NodeOk(s, name) && name != s.manager && s.nodes[name].version != n.version;
      ToldCatchesUp(s, name);
      more := CatchUpSteps(name, n.version.value, n.keySpaceFile);
      RunKeeps(s, more);
    }
  }

  /** From any state in which they have been told, the first `k` entries' nodes can all be brought up to date. */
  lemma {:induction false} FirstEntriesCatchUp(s: System, k: nat) returns (more: seq<Step>)
    requires Inv(s) && 0 < k <= |s.nodes[s.manager].keySpaceFile|
    requires var n := s.nodes[s.manager];
             forall j :: 0 < j < |n.keySpaceFile| ==> Announce(n.keySpaceFile[j].node, n.version.value) in s.net
    ensures Inv(Run(s, more)) && OnlyMembersMoved(s, Run(s, more)) && ToldUpTo(Run(s, more), k)
  {
    more := [];
    if k > 1 {
      more := FirstEntriesCatchUp(s, k - 1);
      var next := NextEntryCatchesUp(Run(s, more), k - 1);
      RunOn(s, more, next);
      more := more + next;
    }
  }

  /** It announces its version once more, and enough messages are delivered. */
  lemma {:induction false} CanCatchUp(s: System) returns (more: seq<Step>)
    requires Inv(s)
    ensures var d := Run(s, more);
            OnlyMembersMoved(s, d) && ToldUpTo(d, |d.nodes[s.manager].keySpaceFile|)
  {
    var told := Next(s, Reannounce);
    NextKeepsInv(s, Reannounce);
    var n := told.nodes[s.manager];
    forall j | 0 < j < |n.keySpaceFile| ensures Announce(n.keySpaceFile[j].node, n.version.value) in told.net {
      ListedAreTold(s, Reannounce, j);
    }
    var later: seq<Step> := [];
    if n.keySpaceFile != [] {
      later := FirstEntriesCatchUp(told, |n.keySpaceFile|);
    }
    more := [Reannounce] + later;
    RunMore(s, [], Reannounce);
    RunOn(s, [Reannounce], later);
    assert [] + [Reannounce] == [Reannounce];
  }

  /**
   * From every reachable state the manager can bring everybody up to date: after some more steps every started node
   * that its table lists after the first entry has that table and that version.
   */
  lemma {:induction false} EverybodyCanCatchUp(manager: string, boot: Boot, steps: seq<Step>)
    returns (more: seq<Step>)
    ensures var s, d := Run(Init(manager, boot), steps), Run(Init(manager, boot), steps + more);
            OnlyMembersMoved(s, d) && ToldUpTo(d, |d.nodes[s.manager].keySpaceFile|)
  {
    RunKeepsInv(manager, boot, steps);
    more := CanCatchUp(Run(Init(manager, boot), steps));
    RunOn(Init(manager, boot), steps, more);
  }

  lemma {:induction false} RunOn(s: System, steps: seq<Step>, more: seq<Step>)
    ensures Run(s, steps + more) == Run(Run(s, steps), more)
  {
    if more == [] {
      assert steps + more == steps;
    } else {
      RunOn(s, steps, more[..|more| - 1]);
      assert (steps + more)[..|steps + more| - 1] == steps + more[..|more| - 1];
    }
  }

  lemma {:induction false} RunKeeps(s: System, steps: seq<Step>)
    requires Inv(s)
    ensures Inv(Run(s, steps))
  {
    if steps != [] {
      RunKeeps(s, steps[..|steps| - 1]);
      NextKeepsInv(Run(s, steps[..|steps| - 1]), steps[|steps| - 1]);
    }
  }

  // ---------- the manager's own range ----------

  /** No table is ever addressed to the manager, so the range its filter uses is the one it was started with. */
  lemma {:induction false} ManagerKeepsItsRange(manager: string, boot: Boot, steps: seq<Step>)
    ensures var s := Run(Init(manager, boot), steps);
            && s.manager == manager && manager in s.nodes
            && s.nodes[manager].start == boot.start
            && s.nodes[manager].end == boot.end
            && forall m :: m in s.net && m.FetchReply? && m.requester == manager ==> m.content.None?
  {
    RunKeepsInv(manager, boot, steps);
    if steps != [] {
      var s, step := Run(Init(manager, boot), steps[..|steps| - 1]), steps[|steps| - 1];
      ManagerKeepsItsRange(manager, boot, steps[..|steps| - 1]);
      RunKeepsInv(manager, boot, steps[..|steps| - 1]);
      if step.Deliver? && step.m in s.net {
        assert MessageOk(s, step.m);
      }
    }
    var s := Run(Init(manager, boot), steps);
    forall m | m in s.net && m.FetchReply? && m.requester == manager ensures m.content.None? {
      assert MessageOk(s, m);
    }
  }

  // ---------- coordination and table ----------

  lemma RunMore(s: System, steps: seq<Step>, step: Step)
    ensures Run(s, steps + [step]) == Next(Run(s, steps), step)
  {
    assert (steps + [step])[..|steps|] == steps;
  }

  lemma {:induction false} FirstAddPublishes(m: string, a: string, boot: Boot)
    ensures var s := Operated(Init(m, boot), Add(m, a));
            && s.manager == m && s.nodes.Keys == {m} && s.net == {Announce(a, 1)}
            && s.nodes[m].keySpaceFile == [Entry(m, 0, 127), Entry(a, 128, 255)]
            && s.nodes[m].version == Some(1) && s.nodes[m].versionNum == 2
  {
    var s, t := Init(m, boot), [Entry(m, 0, 127), Entry(a, 128, 255)];
    FirstIndex(InitialTable(m), m, 0);
    assert AddNode(InitialTable(m), m, a) == Changed(t);
    assert AnnouncementsFrom(t, 2, 1) == [] && AnnouncementsFrom(t, 1, 1) == [Announce(a, 1)];
    assert SentByCommand(s.nodes[m], Add(m, a)) == [Announce(a, 1)];
    assert Announce(a, 1) in AsSet([Announce(a, 1)]);
  }

  /** The manager after its first add-node, with the new node started, told, and asking for the table. */
  lemma {:induction false} FirstAdd(m: string, a: string, boot: Boot) returns (steps: seq<Step>)
    requires m != a
    ensures var s := Run(Init(m, boot), steps);
            && s.manager == m && s.nodes.Keys == {m, a} && Fetch(a, 1) in s.net
            && s.nodes[m].keySpaceFile == [Entry(m, 0, 127), Entry(a, 128, 255)]
            && s.nodes[m].version == Some(1) && s.nodes[m].versionNum == 2
            && forall w :: w in s.net ==> !w.Coordinate?
  {
    var x, y, z := Operate(Add(m, a)), Join(a, boot), Deliver(Announce(a, 1));
    FirstAddPublishes(m, a, boot);
    RunMore(Init(m, boot), [], x);
    RunMore(Init(m, boot), [] + [x], y);
    RunMore(Init(m, boot), [] + [x] + [y], z);
    steps := [] + [x] + [y] + [z];
    assert SentOnVersion(InitialMember(a, boot), 1) == [Fetch(a, 1)];
    assert Fetch(a, 1) in AsSet([Fetch(a, 1)]);
  }

  /**
   * A coordination can reach a node before any table, whatever its ints hold: the manager coordinates the node of its
   * last command at every fetch, and the fetch of an earlier node will do.
   */
  lemma {:induction false} CoordinationCanComeFirst(m: string, a: string, b: string, boot: Boot, own: Boot)
    returns (steps: seq<Step>)
    requires m != a && m != b && a != b
    ensures var s := Run(Init(m, boot), steps);
            && b in s.nodes && s.nodes[b] == InitialMember(b, own) && Coordinate(b, m) in s.net
            && Next(s, Deliver(Coordinate(b, m))) == s.(nodes := s.nodes[b := InitialMember(b, own).(from := m)])
  {
    steps := FirstAdd(m, a, boot);
    var s := Run(Init(m, boot), steps);
    var x, y, z := Operate(Add(m, b)), Join(b, own), Deliver(Fetch(a, 1));
    RunMore(Init(m, boot), steps, x);
    RunMore(Init(m, boot), steps + [x], y);
    RunMore(Init(m, boot), steps + [x] + [y], z);
    steps := steps + [x] + [y] + [z];
    FirstIndex(s.nodes[m].keySpaceFile, m, 0);
    assert AddNode(s.nodes[m].keySpaceFile, m, b).Changed?;
    var d := Next(Next(s, x), y);
    assert Fetch(a, 1) in d.net && d.nodes[m].to == b && d.nodes[m].from == m && d.nodes[b] == InitialMember(b, own);
    FetchCoordinates(d, a, 1);
  }

  lemma {:induction false} FetchCoordinates(s: System, requester: string, version: nat)
    requires s.manager in s.nodes
    ensures var n := s.nodes[s.manager];
            Coordinate(n.to, n.from) in Delivered(s, Fetch(requester, version)).net
  {
    var n := s.nodes[s.manager];
    assert SentOnFetch(n, requester, version)[1] == Coordinate(n.to, n.from);
    assert Coordinate(n.to, n.from) in AsSet(SentOnFetch(n, requester, version));
  }

  lemma {:induction false} LastDelete(n: Node, m: string, a: string)
    requires m != a && n.keySpaceFile == [Entry(m, 0, 127), Entry(a, 128, 255)]
    ensures AfterCommand(n, Delete(a, m, 0, 0)) == Publish(n.(from := a, to := m), InitialTable(m))
    ensures SentByCommand(n, Delete(a, m, 0, 0)) == []
  {
    var t := n.keySpaceFile;
    DeleteTable(t, 1, 0, 0, 0);
    DeletedTableAt(t, 1, 0, 0);
    assert DeletedTable(t, 1, 0) == InitialTable(m);
    NobodyIsToldIff(n, Delete(a, m, 0, 0));
  }

  /**
   * The delete that leaves the manager alone tells nobody, so after the command itself nobody is coordinated; a fetch
   * of an earlier version that arrives later still makes the manager coordinate itself with the deleted node.
   */
  lemma {:induction false} LateFetchCoordinates(m: string, a: string, boot: Boot)
    returns (early: seq<Step>, late: Step)
    requires m != a
    ensures var s, d := Run(Init(m, boot), early), Run(Init(m, boot), early + [late]);
            && early != [] && early[|early| - 1] == Operate(Delete(a, m, 0, 0)) && late == Deliver(Fetch(a, 1))
            && m in s.nodes && s.nodes[m].keySpaceFile == InitialTable(m)
            && (forall w :: w in s.net ==> !w.Coordinate?) && Coordinate(m, a) in d.net
  {
    var steps := FirstAdd(m, a, boot);
    var s, x := Run(Init(m, boot), steps), Operate(Delete(a, m, 0, 0));
    early, late := steps + [x], Deliver(Fetch(a, 1));
    RunMore(Init(m, boot), steps, x);
    RunMore(Init(m, boot), early, late);
    LastDelete(s.nodes[m], m, a);
    FetchCoordinates(Next(s, x), a, 1);
  }
}
