/**
 * Runs of the migration system. When the table comes first and every message is delivered once, the run is guarded
 * and complete; when the coordination overtakes the table, runs just as orderly leave manifests where they do not
 * belong.
 */
module MigrationRun {
  import opened Options
  import opened HexText
  import opened Manifests
  import opened Keyspace
  import opened KeyspaceNode
  import opened Migration
  import opened MigrationPlacement

  function One(m: Wire): Step
  {
    Deliver(m, [])
  }

  lemma {:induction false} Append(c: Cluster, steps: seq<Step>, step: Step, sha1: Sha1)
    requires GuardedRun(c, steps, sha1) && Guarded(Run(c, steps, sha1), step.m)
    ensures GuardedRun(c, steps + [step], sha1)
    ensures Run(c, steps + [step], sha1) == Next(Run(c, steps, sha1), step, sha1)
  {
    assert (steps + [step])[..|steps|] == steps;
  }

  lemma {:induction false} AppendTableFirst(x: Takeover, c: Cluster, steps: seq<Step>, step: Step, sha1: Sha1)
    requires TableFirstRun(x, c, steps, sha1) && TableFirst(x, Run(c, steps, sha1), step.m)
    ensures TableFirstRun(x, c, steps + [step], sha1)
  {
    assert (steps + [step])[..|steps|] == steps;
  }

  /** A guarded run that has begun with `c`, and what it needs to be extended. */
  ghost predicate IsRunTo(v: Move, c: Cluster, steps: seq<Step>, d: Cluster, sha1: Sha1)
  {
    GoodMove(v, sha1) && IsStart(v, c) && GuardedRun(c, steps, sha1) && d == Run(c, steps, sha1) && Inv(v, d)
  }

  lemma {:induction false} Extend(v: Move, c: Cluster, steps: seq<Step>, d: Cluster, step: Step, sha1: Sha1)
    requires IsRunTo(v, c, steps, d, sha1) && Guarded(d, step.m)
    ensures IsRunTo(v, c, steps + [step], Next(d, step, sha1), sha1)
  {
    Append(c, steps, step, sha1);
    RunKeepsInv(v, c, steps + [step], sha1);
  }

  // ---------- a list arrives ----------

  /** A coordination and a list request have been answered with a list of everything the source still holds. */
  lemma {:induction false} ListStep(v: Move, d: Cluster, listing: seq<string>, sha1: Sha1)
    requires v.source in v.initial && v.target in v.initial && Inv(v, d)
    requires Command(Coordinate(v.target, v.source)) in d.net && Enumerates(listing, d.stores[v.source])
    ensures var a := Next(d, One(Command(Coordinate(v.target, v.source))), sha1);
            var b := Next(a, Deliver(Command(ListManifests(v.source)), listing), sha1);
            && a == d.(joiner := d.joiner.(from := v.source), net := d.net + {Command(ListManifests(v.source))})
            && b == a.(net := a.net + {ListReply(listing)})
  {
    assert AsWire([ListManifests(v.source)]) == {Command(ListManifests(v.source))};
  }

  /** The list has been handled under the range held then; nothing has been deleted. */
  ghost predicate HasListed(v: Move, d: Cluster, before: Cluster, joiner: Node)
  {
    && d.joiner == joiner.(from := v.source, manifestList := d.joiner.manifestList) && d.joiner.manifestList.Some?
    && d.lists == before.lists + {RangeOf(joiner)} && d.sweeps == before.sweeps && d.handled == before.handled
    && d.stores == before.stores && before.net <= d.net && Command(Complete) in d.net
  }

  lemma {:induction false} ListSteps(v: Move, c: Cluster, steps: seq<Step>, d: Cluster, listing: seq<string>,
                                     sha1: Sha1)
    returns (more: seq<Step>, e: Cluster)
    requires IsRunTo(v, c, steps, d, sha1) && Command(Coordinate(v.target, v.source)) in d.net
    requires Enumerates(listing, d.stores[v.source])
    ensures IsRunTo(v, c, more, e, sha1) && HasListed(v, e, d, d.joiner)
    ensures forall x :: TableFirstRun(x, c, steps, sha1) && d.joiner.keySpaceFile == x.after ==>
              TableFirstRun(x, c, more, sha1)
  {
    var x, y, z := One(Command(Coordinate(v.target, v.source))), Deliver(Command(ListManifests(v.source)), listing),
                   One(ListReply(listing));
    ListStep(v, d, listing, sha1);
    var a := Next(d, x, sha1);
    var b := Next(a, y, sha1);
    Extend(v, c, steps, d, x, sha1);
    Extend(v, c, steps + [x], a, y, sha1);
    Extend(v, c, steps + [x] + [y], b, z, sha1);
    e := Next(b, z, sha1);
    more := steps + [x] + [y] + [z];
    ListReplyEffect(v, b, listing, sha1);
    assert Command(Complete) in AsWire(SentOnManifestList(b.joiner, Some(listing))) by {
      assert Complete in SentOnManifestList(b.joiner, Some(listing));
    }
    forall t | TableFirstRun(t, c, steps, sha1) && d.joiner.keySpaceFile == t.after
      ensures TableFirstRun(t, c, more, sha1)
    {
      AppendTableFirst(t, c, steps, x, sha1);
      AppendTableFirst(t, c, steps + [x], y, sha1);
      AppendTableFirst(t, c, steps + [x] + [y], z, sha1);
    }
  }

  // ---------- what was asked for is copied ----------

  /** `d` is `before` with more messages and more at the target. */
  ghost predicate Copied(v: Move, d: Cluster, before: Cluster)
  {
    && v.source in before.stores && v.target in before.stores && v.target in d.stores && v.source in d.stores
    && d == before.(net := d.net, stores := d.stores) && before.net <= d.net
    && d.stores[v.source] == before.stores[v.source]
    && before.stores[v.target].Keys <= d.stores[v.target].Keys
    && (forall m :: m in d.net && m !in before.net ==> m.FindReply?)
  }

  lemma {:induction false} FindIsDelivered(v: Move, d: Cluster, k: string, sha1: Sha1)
    requires GoodMove(v, sha1) && Inv(v, d) && k in d.stores[v.source] && Command(Find(v.source, k)) in d.net
    ensures Next(d, One(Command(Find(v.source, k))), sha1) ==
            d.(net := d.net + {FindReply(k, Some(v.initial[v.source][k]))})
  {
    FindIsAnswered(v, d, k, sha1);
  }

  lemma {:induction false} AnswerIsStored(v: Move, d: Cluster, k: string, sha1: Sha1)
    requires GoodMove(v, sha1) && Inv(v, d) && k in v.initial[v.source]
    requires FindReply(k, Some(v.initial[v.source][k])) in d.net
    ensures Next(d, One(FindReply(k, Some(v.initial[v.source][k]))), sha1) ==
            d.(stores := d.stores[v.target := d.stores[v.target][k := v.initial[v.source][k]]])
  {
    assert WellKept(k, v.initial[v.source][k], sha1);
    FindAndStoreCopies(v.initial[v.source], d.stores[v.target], k, sha1);
  }

  lemma SourceIsFull(v: Move, d: Cluster)
    requires v.source in v.initial && v.target in v.initial && Inv(v, d) && d.sweeps == {}
    ensures d.stores[v.source].Keys == v.initial[v.source].Keys
  {
    forall k | k in v.initial[v.source] ensures k in d.stores[v.source] {
      assert !MatchedBy({}, k);
    }
  }

  lemma {:induction false} AskStep(v: Move, c: Cluster, steps: seq<Step>, d: Cluster, k: string, sha1: Sha1)
    requires IsRunTo(v, c, steps, d, sha1) && d.sweeps == {} && Command(Find(v.source, k)) in d.net
    ensures k in v.initial[v.source]
    ensures IsRunTo(v, c, steps + [One(Command(Find(v.source, k)))],
                    d.(net := d.net + {FindReply(k, Some(v.initial[v.source][k]))}), sha1)
  {
    assert WireOk(v, d, Command(Find(v.source, k)));
    SourceIsFull(v, d);
    FindIsDelivered(v, d, k, sha1);
    Extend(v, c, steps, d, One(Command(Find(v.source, k))), sha1);
  }

  lemma {:induction false} StoreStep(v: Move, c: Cluster, steps: seq<Step>, d: Cluster, k: string, sha1: Sha1)
    requires IsRunTo(v, c, steps, d, sha1) && k in v.initial[v.source]
    requires FindReply(k, Some(v.initial[v.source][k])) in d.net
    ensures IsRunTo(v, c, steps + [One(FindReply(k, Some(v.initial[v.source][k])))],
                    d.(stores := d.stores[v.target := d.stores[v.target][k := v.initial[v.source][k]]]), sha1)
  {
    AnswerIsStored(v, d, k, sha1);
    Extend(v, c, steps, d, One(FindReply(k, Some(v.initial[v.source][k]))), sha1);
  }

  /** Ask for one manifest and store the answer. */
  lemma {:induction false} CopyStep(v: Move, c: Cluster, steps: seq<Step>, d: Cluster, k: string, sha1: Sha1)
    returns (more: seq<Step>, e: Cluster)
    requires IsRunTo(v, c, steps, d, sha1) && d.sweeps == {} && Command(Find(v.source, k)) in d.net
    ensures IsRunTo(v, c, more, e, sha1) && Copied(v, e, d) && k in e.stores[v.target]
    ensures forall x :: TableFirstRun(x, c, steps, sha1) ==> TableFirstRun(x, c, more, sha1)
  {
    AskStep(v, c, steps, d, k, sha1);
    var x, y := One(Command(Find(v.source, k))), One(FindReply(k, Some(v.initial[v.source][k])));
    StoreStep(v, c, steps + [x], d.(net := d.net + {y.m}), k, sha1);
    more, e := steps + [x] + [y], WithCopy(v, d, k);
    WithCopyIsCopied(v, d, k);
    TwoMoreTableFirst(c, steps, x, y, sha1);
  }

  /** The cluster after one manifest has been asked for and stored. */
  function WithCopy(v: Move, d: Cluster, k: string): Cluster
    requires v.source in v.initial && k in v.initial[v.source] && v.target in d.stores
  {
    var json := v.initial[v.source][k];
    d.(net := d.net + {FindReply(k, Some(json))}, stores := d.stores[v.target := d.stores[v.target][k := json]])
  }

  lemma {:induction false} WithCopyIsCopied(v: Move, d: Cluster, k: string)
    requires v.source in v.initial && k in v.initial[v.source] && v.source in d.stores && v.target in d.stores
    requires v.source != v.target
    ensures Copied(v, WithCopy(v, d, k), d) && k in WithCopy(v, d, k).stores[v.target]
  {
  }

  lemma {:induction false} TwoMoreTableFirst(c: Cluster, steps: seq<Step>, x: Step, y: Step, sha1: Sha1)
    requires !x.m.ListReply? && !y.m.ListReply?
    ensures forall t :: TableFirstRun(t, c, steps, sha1) ==> TableFirstRun(t, c, steps + [x] + [y], sha1)
  {
    forall t | TableFirstRun(t, c, steps, sha1) ensures TableFirstRun(t, c, steps + [x] + [y], sha1) {
      AppendTableFirst(t, c, steps, x, sha1);
      AppendTableFirst(t, c, steps + [x], y, sha1);
    }
  }

  lemma {:induction false} CopySteps(v: Move, c: Cluster, steps: seq<Step>, d: Cluster, keys: seq<string>, sha1: Sha1)
    returns (more: seq<Step>, e: Cluster)
    requires IsRunTo(v, c, steps, d, sha1) && d.sweeps == {}
    ensures IsRunTo(v, c, more, e, sha1) && Copied(v, e, d)
    ensures forall k :: k in keys && Command(Find(v.source, k)) in d.net ==> k in e.stores[v.target]
    ensures forall x :: TableFirstRun(x, c, steps, sha1) ==> TableFirstRun(x, c, more, sha1)
  {
    more, e := steps, d;
    if keys != [] {
      var init, k := keys[..|keys| - 1], keys[|keys| - 1];
      more, e := CopySteps(v, c, steps, d, init, sha1);
      if Command(Find(v.source, k)) in d.net {
        var earlier := e;
        more, e := CopyStep(v, c, more, e, k, sha1);
        CopiedTwice(v, e, earlier, d);
      }
    }
  }

  lemma CopiedTwice(v: Move, e: Cluster, d: Cluster, c: Cluster)
    requires Copied(v, e, d) && Copied(v, d, c)
    ensures Copied(v, e, c)
  {
  }

  // ---------- sweep and delete ----------

  lemma {:induction false} SweepSteps(v: Move, c: Cluster, steps: seq<Step>, d: Cluster, sha1: Sha1)
    returns (more: seq<Step>, e: Cluster)
    requires IsRunTo(v, c, steps, d, sha1) && Command(Complete) in d.net
    ensures IsRunTo(v, c, more, e, sha1) && Ready(v, d)
    ensures e == d.(sweeps := d.sweeps + {RangeOf(d.joiner)}, net := e.net) && d.net <= e.net
    ensures forall k :: Command(Find(v.source, k)) in e.net ==> Command(Find(v.source, k)) in d.net
    ensures forall x :: TableFirstRun(x, c, steps, sha1) ==> TableFirstRun(x, c, more, sha1)
  {
    var x, y := One(Command(Complete)), One(Completed);
    var a := Next(d, x, sha1);
    assert WireOk(v, d, Command(Complete));
    assert a == d.(net := d.net + {Completed});
    Extend(v, c, steps, d, x, sha1);
    Extend(v, c, steps + [x], a, y, sha1);
    CompletedEffect(v, a, sha1);
    more, e := steps + [x] + [y], Next(a, y, sha1);
    TwoMoreTableFirst(c, steps, x, y, sha1);
  }

  lemma {:induction false} DropSteps(v: Move, c: Cluster, steps: seq<Step>, d: Cluster, keys: seq<string>, sha1: Sha1)
    returns (more: seq<Step>, e: Cluster)
    requires IsRunTo(v, c, steps, d, sha1)
    requires forall k :: Command(OnlyDelete(v.source, k)) in d.net ==> k in d.stores[v.target]
    ensures IsRunTo(v, c, more, e, sha1) && e == d.(stores := e.stores, handled := e.handled)
    ensures e.stores.Keys == d.stores.Keys && e.stores[v.target] == d.stores[v.target]
    ensures forall k :: k in keys && Command(OnlyDelete(v.source, k)) in d.net ==> k in e.handled
    ensures forall x :: TableFirstRun(x, c, steps, sha1) ==> TableFirstRun(x, c, more, sha1)
  {
    if keys == [] {
      more, e := steps, d;
    } else {
      var init, k := keys[..|keys| - 1], keys[|keys| - 1];
      more, e := DropSteps(v, c, steps, d, init, sha1);
      if Command(OnlyDelete(v.source, k)) in d.net {
        var x := One(Command(OnlyDelete(v.source, k)));
        OnlyDeleteEffect(v, e, k, sha1);
        Extend(v, c, more, e, x, sha1);
        forall t | TableFirstRun(t, c, more, sha1) ensures TableFirstRun(t, c, more + [x], sha1) {
          AppendTableFirst(t, c, more, x, sha1);
        }
        more, e := more + [x], Next(e, x, sha1);
      }
      forall key | key in keys && Command(OnlyDelete(v.source, key)) in d.net ensures key in e.handled {
        assert key in init || key == k;
      }
    }
  }

  /** From a handled list to the end: copy everything asked for, sweep, and delete what the sweep ordered. */
  lemma {:induction false} FinishSteps(v: Move, c: Cluster, steps: seq<Step>, d: Cluster, listing: seq<string>,
                                       sha1: Sha1)
    returns (more: seq<Step>, e: Cluster)
    requires IsRunTo(v, c, steps, d, sha1) && d.sweeps == {} && Command(Complete) in d.net
    requires RangeOf(d.joiner) in d.lists && Enumerates(listing, v.initial[v.source])
    ensures IsRunTo(v, c, more, e, sha1) && Settled(e, v.source)
    ensures e.sweeps == {RangeOf(d.joiner)} && e.lists == d.lists && d.net <= e.net
    ensures forall x :: TableFirstRun(x, c, steps, sha1) ==> TableFirstRun(x, c, more, sha1)
  {
    var copied, swept: Cluster;
    more, copied := CopySteps(v, c, steps, d, listing, sha1);
    more, swept := SweepSteps(v, c, more, copied, sha1);
    forall k | k in v.initial[v.source] ensures k in listing {
      assert k in (set y | y in listing);
    }
    AllCopied(v, d, copied, listing);
    DeletesAreCopied(v, copied, swept);
    more, e := DropSteps(v, c, more, swept, listing, sha1);
  }

  lemma {:induction false} AllCopied(v: Move, d: Cluster, copied: Cluster, listing: seq<string>)
    requires v.source in v.initial && v.target in v.initial && Inv(v, d) && Copied(v, copied, d)
    requires forall k :: k in v.initial[v.source] ==> k in listing
    requires forall k :: k in listing && Command(Find(v.source, k)) in d.net ==> k in copied.stores[v.target]
    ensures forall k :: Command(Find(v.source, k)) in copied.net ==> k in copied.stores[v.target]
  {
    forall k | Command(Find(v.source, k)) in copied.net ensures k in copied.stores[v.target] {
      assert WireOk(v, d, Command(Find(v.source, k)));
    }
  }

  /** The first sweep orders only what has been copied. */
  lemma {:induction false} DeletesAreCopied(v: Move, copied: Cluster, swept: Cluster)
    requires v.source in v.initial && v.target in v.initial && Inv(v, copied) && Inv(v, swept) && copied.sweeps == {}
    requires swept == copied.(sweeps := {RangeOf(copied.joiner)}, net := swept.net)
    requires RangeOf(copied.joiner) in copied.lists
    requires forall k :: Command(Find(v.source, k)) in copied.net ==> k in copied.stores[v.target]
    ensures forall k :: Command(OnlyDelete(v.source, k)) in swept.net ==>
              k in v.initial[v.source] && k in swept.stores[v.target]
  {
    SourceIsFull(v, copied);
    forall k | Command(OnlyDelete(v.source, k)) in swept.net
      ensures k in v.initial[v.source] && k in swept.stores[v.target]
    {
      assert WireOk(v, swept, Command(OnlyDelete(v.source, k)));
      MatchedByMonotone(swept.sweeps, copied.lists, k);
    }
  }

  // ---------- main results ----------

  /** The messages of an add-node or del-node command that are on their way when the migration begins. */
  ghost predicate TableAndCoordination(x: Takeover, c: Cluster, version: nat)
  {
    && Command(Coordinate(x.target, x.source)) in c.net
    && Command(FetchReply(x.target, version, Some(x.after))) in c.net
  }

  lemma {:induction false} InstallStep(x: Takeover, v: Move, c: Cluster, steps: seq<Step>, d: Cluster, version: nat,
                                       sha1: Sha1)
    returns (more: seq<Step>, e: Cluster)
    requires IsTakeover(x) && IsRunTo(v, c, steps, d, sha1) && d.joiner.self == x.target
    requires Command(FetchReply(x.target, version, Some(x.after))) in d.net
    ensures IsRunTo(v, c, more, e, sha1) && e == d.(joiner := e.joiner)
    ensures e.joiner.keySpaceFile == x.after && RangeOf(e.joiner) == NewRange(x)
    ensures TableFirstRun(x, c, steps, sha1) ==> TableFirstRun(x, c, more, sha1)
  {
    var step := One(Command(FetchReply(x.target, version, Some(x.after))));
    Extend(v, c, steps, d, step, sha1);
    more, e := steps + [step], Next(d, step, sha1);
    if TableFirstRun(x, c, steps, sha1) {
      AppendTableFirst(x, c, steps, step, sha1);
    }
  }

  /** Whatever order the source lists its manifests in, there is a guarded, complete run with the table first. */
  lemma {:induction false} CompleteRunExists(x: Takeover, all: Kept, c: Cluster, version: nat, listing: seq<string>,
                                             sha1: Sha1)
    returns (steps: seq<Step>)
    requires IsTakeover(x) && IsTakeoverStart(x, all, c, sha1) && TableAndCoordination(x, c, version)
    requires Enumerates(listing, c.stores[x.source])
    ensures GuardedRun(c, steps, sha1) && TableFirstRun(x, c, steps, sha1)
    ensures IsComplete(Run(c, steps, sha1), x.source)
  {
    var v, d := MoveOf(x, c), c;
    MoveIsGood(x, all, c, sha1);
    RunKeepsInv(v, c, [], sha1);
    steps, d := InstallStep(x, v, c, [], c, version, sha1);
    steps, d := ListSteps(v, c, steps, d, listing, sha1);
    steps, d := FinishSteps(v, c, steps, d, listing, sha1);
  }

  /**
   * The coordination overtakes the table, and the node that has never had a range (its two ints happen to be 0)
   * filters a list: a run that settles, deletes only what has been stored, and sweeps under the new range alone
   * still leaves manifests misplaced, whenever the source holds any manifest below 0x10.
   */
  lemma {:induction false} EarlyListMisplaces(x: Takeover, all: Kept, c: Cluster, version: nat, listing: seq<string>,
                                              key: string, sha1: Sha1)
    returns (steps: seq<Step>)
    requires IsTakeover(x) && IsTakeoverStart(x, all, c, sha1) && TableAndCoordination(x, c, version)
    requires Enumerates(listing, c.stores[x.source]) && RangeOf(c.joiner) == Range(0, 0) && NewRange(x).lo > 0
    requires key in c.stores[x.source] && TopByte(key).Some? && TopByte(key).value < 0x10
    ensures GuardedRun(c, steps, sha1) && Settled(Run(c, steps, sha1), x.source)
    ensures Run(c, steps, sha1).sweeps == {NewRange(x)}
    ensures !ExactlyPlaced(Run(c, steps, sha1).stores, all, x.after)
  {
    var v, d := MoveOf(x, c), c;
    MoveIsGood(x, all, c, sha1);
    RunKeepsInv(v, c, [], sha1);
    steps, d := ListSteps(v, c, [], c, listing, sha1);
    steps, d := InstallStep(x, v, c, steps, d, version, sha1);
    steps, d := ListSteps(v, c, steps, d, listing, sha1);
    steps, d := FinishSteps(v, c, steps, d, listing, sha1);
    NewSweepPlacementIff(x, all, c, steps, sha1);
    ZeroRangeMatchesIff(key);
    assert Range(0, 0) in d.lists && NewRange(x) != Range(0, 0);
    assert !EndsRight(x, Range(0, 0), d, key);
  }

  lemma {:induction false} EarlySweepRun(x: Takeover, all: Kept, c: Cluster, version: nat, listing: seq<string>,
                                         sha1: Sha1)
    returns (steps: seq<Step>)
    requires IsTakeover(x) && IsTakeoverStart(x, all, c, sha1) && TableAndCoordination(x, c, version)
    requires Enumerates(listing, c.stores[x.source])
    ensures GuardedRun(c, steps, sha1)
    ensures var d := Run(c, steps, sha1);
            && Settled(d, x.source) && IsComplete(d, x.source) && d.joiner.keySpaceFile == x.after
            && d.lists == {RangeOf(c.joiner)} && d.sweeps == {RangeOf(c.joiner)}
  {
    var v, d := MoveOf(x, c), c;
    MoveIsGood(x, all, c, sha1);
    RunKeepsInv(v, c, [], sha1);
    steps, d := ListSteps(v, c, [], c, listing, sha1);
    steps, d := FinishSteps(v, c, steps, d, listing, sha1);
    steps, d := InstallStep(x, v, c, steps, d, version, sha1);
  }

  /**
   * The table comes last: the list, the copies, the sweep and the deletions all happen under the range the target held
   * before. The run is as complete as the other and ends with the new table installed, but everything is placed if and
   * only if that old range matches exactly the manifests that move.
   */
  lemma {:induction false} EarlySweepPlacesIff(x: Takeover, all: Kept, c: Cluster, version: nat, listing: seq<string>,
                                               sha1: Sha1)
    returns (steps: seq<Step>)
    requires IsTakeover(x) && IsTakeoverStart(x, all, c, sha1) && TableAndCoordination(x, c, version)
    requires Enumerates(listing, c.stores[x.source])
    ensures GuardedRun(c, steps, sha1)
    ensures var d := Run(c, steps, sha1);
            && Settled(d, x.source) && IsComplete(d, x.source) && d.joiner.keySpaceFile == x.after
            && d.lists == {RangeOf(c.joiner)} && d.sweeps == {RangeOf(c.joiner)}
            && (ExactlyPlaced(d.stores, all, x.after) <==>
                forall k :: k in c.stores[x.source] ==> MatchedIffMoved(x, RangeOf(c.joiner), k))
  {
    steps := EarlySweepRun(x, all, c, version, listing, sha1);
    OneRangePlacementIff(x, all, c, steps, RangeOf(c.joiner), sha1);
  }

  /**
   * In particular for a node that has never had a range and whose two ints happen to be 0: one moved manifest at 0x10
   * or above, or one below 0x10 that stays, and the complete run has misplaced it.
   */
  lemma {:induction false} EarlySweepMisplaces(x: Takeover, all: Kept, c: Cluster, version: nat, listing: seq<string>,
                                               key: string, sha1: Sha1)
    returns (steps: seq<Step>)
    requires IsTakeover(x) && IsTakeoverStart(x, all, c, sha1) && TableAndCoordination(x, c, version)
    requires Enumerates(listing, c.stores[x.source]) && RangeOf(c.joiner) == Range(0, 0)
    requires key in c.stores[x.source] && TopByte(key).Some?
    requires TopByte(key).value >= 0x10 <==> NewRange(x).lo <= TopByte(key).value
    ensures GuardedRun(c, steps, sha1) && IsComplete(Run(c, steps, sha1), x.source)
    ensures Run(c, steps, sha1).joiner.keySpaceFile == x.after
    ensures !ExactlyPlaced(Run(c, steps, sha1).stores, all, x.after)
  {
    steps := EarlySweepPlacesIff(x, all, c, version, listing, sha1);
    ZeroRangeMatchesIff(key);
    assert !MatchedIffMoved(x, Range(0, 0), key);
  }

  /**
   * A delete into the manager can be run to the end as well: under the range the manager holds, whatever it is. It
   * misplaces every manifest of the deleted node that this range does not match.
   */
  lemma {:induction false} ManagerRunExists(before: Table, source: string, target: string, all: Kept, c: Cluster,
                                            listing: seq<string>, sha1: Sha1)
    returns (steps: seq<Step>)
    requires ValidDelete(before, source, target)
    requires IsTablelessStart(DeleteTakeover(before, source, target), all, c, sha1)
    requires Command(Coordinate(target, source)) in c.net && Enumerates(listing, c.stores[source])
    ensures GuardedRun(c, steps, sha1) && Settled(Run(c, steps, sha1), source)
    ensures Run(c, steps, sha1).sweeps == {RangeOf(c.joiner)}
    ensures ExactlyPlaced(Run(c, steps, sha1).stores, all, DeleteTakeover(before, source, target).after) <==>
            forall k :: k in c.stores[source] ==> Matches(RangeOf(c.joiner), k)
  {
    var x, d := DeleteTakeover(before, source, target), c;
    var v := MoveOf(x, c);
    MoveIsGood(x, all, c, sha1);
    RunKeepsInv(v, c, [], sha1);
    steps, d := ListSteps(v, c, [], c, listing, sha1);
    steps, d := FinishSteps(v, c, steps, d, listing, sha1);
    DeleteIntoManagerPlacesIff(before, source, target, all, c, steps, sha1);
  }
}
