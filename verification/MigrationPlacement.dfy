/**
 * Where migration puts the manifests, measured against the keyspace tables: when a node joins with half of another
 * node's range, and when a node is deleted into an adjacent one.
 */
module MigrationPlacement {
  import opened Options
  import opened HexText
  import opened Manifests
  import opened Keyspace
  import opened Routing
  import opened KeyspaceNode
  import opened Migration

  // ---------- placement ----------

  /** The part of all manifests that belongs on a node: everything whose key the table assigns to it. */
  function Placed(all: Kept, t: Table, node: string): Kept
  {
    map k | k in all && TopByte(k).Some? && OwnerOf(t, TopByte(k).value) == Some(node) :: all[k]
  }

  ghost predicate ExactlyPlaced(stores: map<string, Kept>, all: Kept, t: Table)
  {
    forall node :: node in stores ==> stores[node] == Placed(all, t, node)
  }

  ghost predicate AllWellKept(all: Kept, sha1: Sha1)
  {
    forall k :: k in all ==> WellKept(k, all[k], sha1)
  }

  // ---------- a change of the table that hands bytes to one node ----------

  datatype Takeover = Takeover(before: Table, after: Table, source: string, target: string)

  predicate HasRange(x: Takeover)
  {
    HasNode(x.after, x.target) && Parsable(EntryOf(x.after, x.target).start) && Parsable(EntryOf(x.after, x.target).end)
  }

  /** The range the target reads out of the new table. */
  function NewRange(x: Takeover): Range
    requires HasRange(x)
  {
    var e := EntryOf(x.after, x.target);
    Range(e.start, e.end)
  }

  /** One byte: the source's bytes from the new range's start on go to the target, every other byte stays. */
  ghost predicate OwnerMoves(x: Takeover, b: nat)
    requires HasRange(x)
  {
    if OwnerOf(x.before, b) == Some(x.source) then
      b <= NewRange(x).hi && OwnerOf(x.after, b) == Some(if NewRange(x).lo <= b then x.target else x.source)
    else OwnerOf(x.after, b) == OwnerOf(x.before, b)
  }

  ghost predicate IsTakeover(x: Takeover)
  {
    && x.source != x.target && HasRange(x) && x.after != x.before
    && NewRange(x).lo <= NewRange(x).hi <= 0xff
    && forall b: nat :: b <= 0xff ==> OwnerMoves(x, b)
  }

  ghost predicate ValidAdd(before: Table, source: string, target: string)
  {
    IsRing(before) && HasNode(before, source) && SafeAdd(before, source, target)
  }

  function AddTakeover(before: Table, source: string, target: string): Takeover
  {
    Takeover(before, TableAfter(before, Add(source, target)), source, target)
  }

  /** An add-node command on a source of two bytes or more, for a node that the table does not know. */
  lemma {:induction false} AddIsTakeover(before: Table, source: string, target: string)
    requires ValidAdd(before, source, target)
    ensures var x := AddTakeover(before, source, target);
            && IsTakeover(x) && IsRing(x.after)
            && EntryOf(before, source).start < NewRange(x).lo && NewRange(x).hi == EntryOf(before, source).end
            && forall b: nat :: b <= 0xff && NewRange(x).lo <= b <= NewRange(x).hi ==>
                 OwnerOf(before, b) == Some(source)
  {
    var x, i := AddTakeover(before, source, target), IndexOf(before, source);
    AddKeepsRingIff(before, source, target);
    SplitHalves(before[i], target);
    SplitDistinctIff(before, i, target);
    IndexIsUnique(x.after, target, |before|);
    forall b: nat | b <= 0xff
      ensures OwnerMoves(x, b)
      ensures NewRange(x).lo <= b <= NewRange(x).hi ==> OwnerOf(before, b) == Some(source)
    {
      OwnerAfterSplit(before, i, target, b);
    }
  }

  lemma {:induction false} OwnerAfterSplit(before: Table, i: nat, target: string, b: nat)
    requires IsRing(before) && i < |before| && before[i].start < before[i].end && b <= 0xff
    ensures var after := before[i := LeftPart(before[i])] + [RightPart(before[i], target)];
            OwnerOf(after, b) ==
            if RightPart(before[i], target).start <= b <= before[i].end then Some(target) else OwnerOf(before, b)
    ensures before[i].start <= b <= before[i].end <==> OwnerOf(before, b) == Some(before[i].node)
  {
    var after := before[i := LeftPart(before[i])] + [RightPart(before[i], target)];
    SplitHalves(before[i], target);
    SplitDisjoint(before, i, target);
    OwnerEntry(before, b);
    var k :| 0 <= k < |before| && Covers(before[k], b) && OwnerOf(before, b) == Some(before[k].node);
    if k != i {
      ApartEither(before, k, i);
      assert after[k] == before[k];
      OwnerIsUnique(after, k, b);
    } else if after[|before|].start <= b {
      OwnerIsUnique(after, |before|, b);
    } else {
      OwnerIsUnique(after, i, b);
    }
  }

  lemma OwnerEntry(t: Table, b: nat)
    requires IsRing(t) && b <= 0xff
    ensures exists k :: 0 <= k < |t| && Covers(t[k], b) && OwnerOf(t, b) == Some(t[k].node)
  {
    assert IsCovered(t, b);
    OwnerIsANode(t, b);
  }

  ghost predicate ValidDelete(before: Table, source: string, target: string)
  {
    IsRing(before) && HasNode(before, source) && SafeDelete(before, source, target)
  }

  function DeleteTakeover(before: Table, source: string, target: string): Takeover
  {
    Takeover(before, TableAfter(before, Delete(source, target, 0, 0)), source, target)
  }

  /** A del-node command into an adjacent node: the target's range becomes the union, and the source owns nothing. */
  lemma {:induction false} DeleteIsTakeover(before: Table, source: string, target: string)
    requires ValidDelete(before, source, target)
    ensures var x := DeleteTakeover(before, source, target);
            && IsTakeover(x) && IsRing(x.after)
            && NewRange(x).lo == Min(EntryOf(before, source).start, EntryOf(before, target).start)
            && NewRange(x).hi == Max(EntryOf(before, source).end, EntryOf(before, target).end)
            && forall b: nat :: b <= 0xff ==> OwnerOf(x.after, b) != Some(source)
  {
    var x, i, j := DeleteTakeover(before, source, target), IndexOf(before, source), IndexOf(before, target);
    DeleteKeepsRingIff(before, source, target, 0, 0);
    DeleteTable(before, i, j, 0, 0);
    assert x.after == DeletedTable(before, i, j);
    var j' := if j < i then j else j - 1;
    DeletedTableAt(before, i, j, j');
    IndexIsUnique(x.after, target, j');
    ApartEither(before, i, j);
    forall b: nat | b <= 0xff
      ensures OwnerMoves(x, b) && OwnerOf(x.after, b) != Some(source)
    {
      OwnerAfterMerge(before, i, j, b);
    }
  }

  function Min(a: nat, b: nat): nat
  {
    if a <= b then a else b
  }

  function Max(a: nat, b: nat): nat
  {
    if a <= b then b else a
  }

  lemma {:induction false} OwnerAfterMerge(before: Table, i: nat, j: nat, b: nat)
    requires IsRing(before) && i < |before| && j < |before| && i != j && Adjacent(before[i], before[j]) && b <= 0xff
    requires IsRing(DeletedTable(before, i, j))
    ensures OwnerOf(DeletedTable(before, i, j), b) ==
            if Covers(before[i], b) then Some(before[j].node) else OwnerOf(before, b)
    ensures Covers(before[i], b) <==> OwnerOf(before, b) == Some(before[i].node)
  {
    OwnerEntry(before, b);
    var k :| 0 <= k < |before| && Covers(before[k], b) && OwnerOf(before, b) == Some(before[k].node);
    if Covers(before[i], b) {
      OwnerIsUnique(before, i, b);
    }
    OwnerOfMergedEntry(before, i, j, k, b);
  }

  lemma {:induction false} OwnerOfMergedEntry(before: Table, i: nat, j: nat, k: nat, b: nat)
    requires IsRing(before) && i < |before| && j < |before| && i != j && k < |before| && Covers(before[k], b)
    requires Disjoint(DeletedTable(before, i, j))
    ensures OwnerOf(DeletedTable(before, i, j), b) == Some(if k == i then before[j].node else before[k].node)
  {
    var k' := if k == i then (if j < i then j else j - 1) else if k < i then k else k - 1;
    DeletedTableAt(before, i, j, k');
    ApartEither(before, i, j);
    if k == i || k == j {
      MergedCovers(before[i], before[j], b);
    }
    OwnerIsUnique(DeletedTable(before, i, j), k', b);
  }

  // ---------- the runs ----------

  /** Every manifest is on its owner under the old table, and the migration has not begun. */
  ghost predicate IsPlacedStart(x: Takeover, all: Kept, c: Cluster, sha1: Sha1)
  {
    && x.source in c.stores && x.target in c.stores
    && ExactlyPlaced(c.stores, all, x.before) && AllWellKept(all, sha1)
    && IsStart(MoveOf(x, c), c)
  }

  /** The target is a member: it does not have the new table yet, and only that table can reach it. */
  ghost predicate IsTakeoverStart(x: Takeover, all: Kept, c: Cluster, sha1: Sha1)
  {
    && IsPlacedStart(x, all, c, sha1)
    && c.joiner.keySpaceFile != x.after
    && (forall m :: m in c.net ==> OnlyThisTable(x, m))
  }

  function MoveOf(x: Takeover, c: Cluster): Move
  {
    Move(x.source, x.target, c.stores)
  }

  predicate OnlyThisTable(x: Takeover, m: Wire)
  {
    m.Command? && m.m.FetchReply? && m.m.requester == x.target && m.m.content.Some? ==> m.m.content.value == x.after
  }

  lemma {:induction false} MoveIsGood(x: Takeover, all: Kept, c: Cluster, sha1: Sha1)
    requires x.source != x.target && IsPlacedStart(x, all, c, sha1)
    ensures GoodMove(MoveOf(x, c), sha1)
  {
    forall node | node in c.stores && node != x.source ensures c.stores[node].Keys !! c.stores[x.source].Keys {
      assert c.stores[node] == Placed(all, x.before, node);
      assert c.stores[x.source] == Placed(all, x.before, x.source);
    }
    forall k | k in c.stores[x.source] ensures WellKept(k, c.stores[x.source][k], sha1) {
      assert k in Placed(all, x.before, x.source) && WellKept(k, all[k], sha1);
    }
  }

  /** The target holds its old range until it has the table, then the new one, and has filtered under no other. */
  ghost predicate RangesOk(x: Takeover, held: Range, c: Cluster)
    requires HasRange(x)
  {
    && c.joiner.self == x.target
    && RangeOf(c.joiner) == (if c.joiner.keySpaceFile == x.after then NewRange(x) else held)
    && c.lists <= {held, NewRange(x)} && c.sweeps <= {held, NewRange(x)}
    && (forall m :: m in c.net ==> OnlyThisTable(x, m))
  }

  lemma {:induction false} RangesNext(x: Takeover, held: Range, c: Cluster, step: Step, sha1: Sha1)
    requires HasRange(x) && NewRange(x).lo <= 0xff && NewRange(x).hi <= 0xff && RangesOk(x, held, c)
    ensures RangesOk(x, held, Next(c, step, sha1))
  {
    var d := Next(c, step, sha1);
    if step.m in c.net {
      assert OnlyThisTable(x, step.m);
      forall m | m in d.net ensures OnlyThisTable(x, m) {
        if m in c.net {
          assert OnlyThisTable(x, m);
        }
      }
    }
  }

  lemma {:induction false} RangesRun(x: Takeover, all: Kept, c: Cluster, steps: seq<Step>, sha1: Sha1)
    requires IsTakeover(x) && IsTakeoverStart(x, all, c, sha1)
    ensures RangesOk(x, RangeOf(c.joiner), Run(c, steps, sha1))
  {
    if steps != [] {
      RangesRun(x, all, c, steps[..|steps| - 1], sha1);
      RangesNext(x, RangeOf(c.joiner), Run(c, steps[..|steps| - 1], sha1), steps[|steps| - 1], sha1);
    }
  }

  // ---------- the filter ----------

  /** Up to a range's end, the filter selects its keys, except those below 0x10 unless it starts at 0 or below. */
  lemma {:induction false} MatchesIff(r: Range, key: string)
    requires TopByte(key).Some? && r.lo <= r.hi <= 0xff && TopByte(key).value <= r.hi
    ensures Matches(r, key) <==> r.lo <= TopByte(key).value && (TopByte(key).value >= 0x10 || r.lo <= 0)
  {
    var b := TopByte(key).value;
    if r.lo >= 0x10 {
      MatchCountFromSixteen(key, r.lo, r.hi);
    } else if b >= 0x10 {
      UnpaddedPrefix(key, b);
      MatchCountSome(key, r.lo, r.hi, b);
    } else if r.lo <= 0 {
      UnpaddedPrefix(key, 0);
      MatchCountSome(key, r.lo, r.hi, 0);
    } else {
      forall k: Int32 | r.lo <= k <= r.hi ensures !HasPrefix(key, Hex(Printed(k))) {
        UnpaddedPrefix(key, k);
      }
      MatchCountNone(key, r.lo, r.hi);
    }
  }

  /** A node whose range has never been set filters with what its two ints hold; with zeros, every key below 0x10. */
  lemma {:induction false} ZeroRangeMatchesIff(key: string)
    requires TopByte(key).Some?
    ensures Matches(Range(0, 0), key) <==> TopByte(key).value < 0x10
  {
    UnpaddedPrefix(key, 0);
    assert MatchCount(key, 0, 0) == (if HasPrefix(key, Hex(0)) then 1 else 0) + MatchCount(key, 0, -1);
  }

  lemma MatchedByTwo(rs: set<Range>, a: Range, b: Range, key: string)
    requires rs <= {a, b}
    ensures MatchedBy(rs, key) <==> (a in rs && Matches(a, key)) || (b in rs && Matches(b, key))
  {
  }

  // ---------- main results ----------

  /**
   * What the filter must have done to a manifest of the source: if it moves, some sweep must have matched it, and if it
   * stays, no list may have.
   */
  ghost predicate FilteredRight(x: Takeover, d: Cluster, key: string)
    requires HasRange(x)
  {
    && TopByte(key).Some?
    && if NewRange(x).lo <= TopByte(key).value then MatchedBy(d.sweeps, key) else !MatchedBy(d.lists, key)
  }

  /** A manifest of the source is at the one node, of source and target, that the new table names. */
  predicate IsRight(x: Takeover, d: Cluster, key: string)
    requires HasRange(x) && x.source in d.stores && x.target in d.stores
  {
    && TopByte(key).Some?
    && (key in d.stores[x.target] <==> NewRange(x).lo <= TopByte(key).value)
    && (key in d.stores[x.source] <==> TopByte(key).value < NewRange(x).lo)
  }

  /** One key of the source, in a settled run: what is swept is at the target and nowhere else. */
  lemma {:induction false} KeyPlacedIff(x: Takeover, all: Kept, c: Cluster, steps: seq<Step>, key: string, sha1: Sha1)
    requires IsTakeover(x) && IsPlacedStart(x, all, c, sha1) && GuardedRun(c, steps, sha1)
    requires Settled(Run(c, steps, sha1), x.source) && key in c.stores[x.source]
    ensures var d := Run(c, steps, sha1);
            d.stores.Keys == c.stores.Keys && (FilteredRight(x, d, key) <==> IsRight(x, d, key))
  {
    var d := Run(c, steps, sha1);
    MoveIsGood(x, all, c, sha1);
    SettledIff(MoveOf(x, c), c, steps, key, sha1);
    RunKeepsInv(MoveOf(x, c), c, steps, sha1);
    SourceKey(x, all, c, key, sha1);
    assert key in d.stores[x.source] || key in d.stores[x.target];
  }

  /** Where the new table puts one manifest. */
  lemma {:induction false} PlacedAfter(x: Takeover, all: Kept, node: string, k: string, sha1: Sha1)
    requires IsTakeover(x) && k in all && WellKept(k, all[k], sha1)
    ensures k in Placed(all, x.after, node) <==>
            if k in Placed(all, x.before, x.source)
            then node == (if NewRange(x).lo <= TopByte(k).value then x.target else x.source)
            else k in Placed(all, x.before, node)
  {
    assert OwnerMoves(x, TopByte(k).value);
  }

  /** Nodes that take no part, and manifests that were not at the source, are where they were. */
  lemma {:induction false} OthersStay(x: Takeover, all: Kept, c: Cluster, steps: seq<Step>, node: string, k: string,
                                      sha1: Sha1)
    requires IsTakeover(x) && IsPlacedStart(x, all, c, sha1) && GuardedRun(c, steps, sha1) && node in c.stores
    ensures var d := Run(c, steps, sha1);
            && d.stores.Keys == c.stores.Keys
            && (k !in c.stores[x.source] || (node != x.source && node != x.target) ==>
                  (k in d.stores[node] <==> k in c.stores[node]))
            && (k in d.stores[node] ==> k in all && d.stores[node][k] == all[k])
  {
    var v, d := MoveOf(x, c), Run(c, steps, sha1);
    MoveIsGood(x, all, c, sha1);
    RunKeepsInv(v, c, steps, sha1);
    assert c.stores[node] == Placed(all, x.before, node);
    assert c.stores[x.source] == Placed(all, x.before, x.source);
    if node == x.target && k in d.stores[x.target] {
      assert OfTarget(v, d.stores[x.target], d.lists, k);
    }
  }

  lemma SameValues(a: Kept, b: Kept, all: Kept)
    requires forall k :: k in a <==> k in b
    requires forall k :: k in a ==> k in all && a[k] == all[k]
    requires forall k :: k in b ==> k in all && b[k] == all[k]
    ensures a == b
  {
  }

  ghost predicate AllAreRight(x: Takeover, c: Cluster, d: Cluster)
    requires HasRange(x) && x.source in c.stores && x.source in d.stores && x.target in d.stores
  {
    forall k :: k in c.stores[x.source] ==> IsRight(x, d, k)
  }

  /** The same at one node: it holds a manifest if and only if the new table says so. */
  lemma {:induction false} RightAtNode(x: Takeover, all: Kept, c: Cluster, steps: seq<Step>, node: string, k: string,
                                       sha1: Sha1)
    requires IsTakeover(x) && IsPlacedStart(x, all, c, sha1) && GuardedRun(c, steps, sha1) && node in c.stores
    requires Run(c, steps, sha1).stores.Keys == c.stores.Keys && AllAreRight(x, c, Run(c, steps, sha1))
    ensures k in Run(c, steps, sha1).stores[node] <==> k in Placed(all, x.after, node)
  {
    OthersStay(x, all, c, steps, node, k, sha1);
    assert c.stores[node] == Placed(all, x.before, node);
    assert c.stores[x.source] == Placed(all, x.before, x.source);
    if k in all {
      assert WellKept(k, all[k], sha1);
      PlacedAfter(x, all, node, k, sha1);
    }
  }

  /** At any point of any guarded run, only the manifests of the source decide whether everything is placed. */
  lemma {:induction false} PlacedIffAllRight(x: Takeover, all: Kept, c: Cluster, steps: seq<Step>, sha1: Sha1)
    requires IsTakeover(x) && IsPlacedStart(x, all, c, sha1) && GuardedRun(c, steps, sha1)
    ensures var d := Run(c, steps, sha1);
            d.stores.Keys == c.stores.Keys && (ExactlyPlaced(d.stores, all, x.after) <==> AllAreRight(x, c, d))
  {
    var d := Run(c, steps, sha1);
    OthersStay(x, all, c, steps, x.source, "", sha1);
    if AllAreRight(x, c, d) {
      forall node | node in d.stores ensures d.stores[node] == Placed(all, x.after, node) {
        forall k ensures k in d.stores[node] <==> k in Placed(all, x.after, node) {
          RightAtNode(x, all, c, steps, node, k, sha1);
        }
        forall k | k in d.stores[node] ensures k in all && d.stores[node][k] == all[k] {
          OthersStay(x, all, c, steps, node, k, sha1);
        }
        SameValues(d.stores[node], Placed(all, x.after, node), all);
      }
    }
    if ExactlyPlaced(d.stores, all, x.after) {
      forall k | k in c.stores[x.source] ensures IsRight(x, d, k) {
        assert c.stores[x.source] == Placed(all, x.before, x.source);
        assert k in Placed(all, x.before, x.source) && WellKept(k, all[k], sha1);
        PlacedAfter(x, all, x.target, k, sha1);
        PlacedAfter(x, all, x.source, k, sha1);
        assert d.stores[x.target] == Placed(all, x.after, x.target);
        assert d.stores[x.source] == Placed(all, x.after, x.source);
      }
    }
  }

  /**
   * Placement, in every settled run, whatever the target knew when, be it a member or the manager: every manifest is
   * exactly on its owner under the new table if and only if the filter has done right by every manifest of the source.
   */
  lemma {:induction false} PlacementIff(x: Takeover, all: Kept, c: Cluster, steps: seq<Step>, sha1: Sha1)
    requires IsTakeover(x) && IsPlacedStart(x, all, c, sha1) && GuardedRun(c, steps, sha1)
    requires Settled(Run(c, steps, sha1), x.source)
    ensures var d := Run(c, steps, sha1);
            ExactlyPlaced(d.stores, all, x.after) <==> forall k :: k in c.stores[x.source] ==> FilteredRight(x, d, k)
  {
    PlacedIffAllRight(x, all, c, steps, sha1);
    forall k | k in c.stores[x.source]
      ensures FilteredRight(x, Run(c, steps, sha1), k) <==> IsRight(x, Run(c, steps, sha1), k)
    {
      KeyPlacedIff(x, all, c, steps, k, sha1);
    }
  }

  predicate MatchedIffMoved(x: Takeover, r: Range, key: string)
    requires HasRange(x)
  {
    TopByte(key).Some? && (Matches(r, key) <==> NewRange(x).lo <= TopByte(key).value)
  }

  /** When the filter has always run under one range, old or new, that range must match exactly what moves. */
  lemma {:induction false} OneRangePlacementIff(x: Takeover, all: Kept, c: Cluster, steps: seq<Step>, r: Range,
                                                sha1: Sha1)
    requires IsTakeover(x) && IsPlacedStart(x, all, c, sha1) && GuardedRun(c, steps, sha1)
    requires var d := Run(c, steps, sha1); Settled(d, x.source) && d.lists == {r} && d.sweeps == {r}
    ensures ExactlyPlaced(Run(c, steps, sha1).stores, all, x.after) <==>
            forall k :: k in c.stores[x.source] ==> MatchedIffMoved(x, r, k)
  {
    PlacementIff(x, all, c, steps, sha1);
    forall k | k in c.stores[x.source]
      ensures FilteredRight(x, Run(c, steps, sha1), k) <==> MatchedIffMoved(x, r, k)
    {
      MatchedByTwo({r}, r, r, k);
    }
  }

  // ---------- a sweep under the new range ----------

  /**
   * In terms of the range the target held before: a manifest that moves must be selected, by the new range or by a
   * sweep under the old one; one that stays must not have been selected from a list under the old range.
   */
  predicate EndsRight(x: Takeover, held: Range, d: Cluster, key: string)
    requires HasRange(x) && TopByte(key).Some?
  {
    var b, r := TopByte(key).value, NewRange(x);
    if r.lo <= b then b >= 0x10 || r.lo == 0 || (held in d.sweeps && Matches(held, key))
    else !(held in d.lists && Matches(held, key))
  }

  ghost predicate AllEndRight(x: Takeover, c: Cluster, d: Cluster)
    requires HasRange(x) && x.source in c.stores
  {
    forall k :: k in c.stores[x.source] ==> TopByte(k).Some? && EndsRight(x, RangeOf(c.joiner), d, k)
  }

  /** When the target has swept with its new range, only what it did with the old one is left to ask. */
  lemma {:induction false} NewSweepPlacementIff(x: Takeover, all: Kept, c: Cluster, steps: seq<Step>, sha1: Sha1)
    requires IsTakeover(x) && IsTakeoverStart(x, all, c, sha1) && GuardedRun(c, steps, sha1)
    requires Settled(Run(c, steps, sha1), x.source) && NewRange(x) in Run(c, steps, sha1).sweeps
    ensures var d := Run(c, steps, sha1); ExactlyPlaced(d.stores, all, x.after) <==> AllEndRight(x, c, d)
  {
    var d, held, r := Run(c, steps, sha1), RangeOf(c.joiner), NewRange(x);
    PlacementIff(x, all, c, steps, sha1);
    RangesRun(x, all, c, steps, sha1);
    forall k | k in c.stores[x.source]
      ensures FilteredRight(x, d, k) <==> TopByte(k).Some? && EndsRight(x, held, d, k)
    {
      SourceKey(x, all, c, k, sha1);
      MatchedByTwo(d.lists, held, r, k);
      MatchedByTwo(d.sweeps, held, r, k);
      MatchesIff(r, k);
    }
  }

  // ---------- the table before the list ----------

  /** A manifest list is handled only after the table has been installed. */
  predicate TableFirst(x: Takeover, c: Cluster, m: Wire)
  {
    m.ListReply? && m in c.net ==> c.joiner.keySpaceFile == x.after
  }

  ghost predicate TableFirstRun(x: Takeover, c: Cluster, steps: seq<Step>, sha1: Sha1)
  {
    steps != [] ==>
      && TableFirstRun(x, c, steps[..|steps| - 1], sha1)
      && TableFirst(x, Run(c, steps[..|steps| - 1], sha1), steps[|steps| - 1].m)
  }

  /** The filter has run under the new range only, and the manager is asked only after it has. */
  ghost predicate OnlyNewRange(x: Takeover, c: Cluster)
    requires HasRange(x)
  {
    && c.lists <= {NewRange(x)} && c.sweeps <= {NewRange(x)}
    && (Command(Complete) in c.net || Completed in c.net ==> c.joiner.keySpaceFile == x.after)
  }

  lemma {:induction false} OnlyNewRangeNext(x: Takeover, held: Range, c: Cluster, step: Step, sha1: Sha1)
    requires HasRange(x) && RangesOk(x, held, c) && OnlyNewRange(x, c) && TableFirst(x, c, step.m)
    ensures OnlyNewRange(x, Next(c, step, sha1))
  {
    if step.m in c.net {
      assert OnlyThisTable(x, step.m);
    }
  }

  lemma {:induction false} TableFirstUsesNewRange(x: Takeover, all: Kept, c: Cluster, steps: seq<Step>, sha1: Sha1)
    requires IsTakeover(x) && IsTakeoverStart(x, all, c, sha1) && TableFirstRun(x, c, steps, sha1)
    ensures OnlyNewRange(x, Run(c, steps, sha1))
  {
    if steps == [] {
      assert forall m :: m in c.net ==> StartWire(MoveOf(x, c), m);
    } else {
      var init := steps[..|steps| - 1];
      TableFirstUsesNewRange(x, all, c, init, sha1);
      RangesRun(x, all, c, init, sha1);
      OnlyNewRangeNext(x, RangeOf(c.joiner), Run(c, init, sha1), steps[|steps| - 1], sha1);
    }
  }

  /** The coordination is handled only after the table has been installed. */
  predicate CoordinatedLast(x: Takeover, c: Cluster, m: Wire)
  {
    m.Command? && m.m.Coordinate? && m.m.to == x.target ==> c.joiner.keySpaceFile == x.after
  }

  ghost predicate CoordinatedLastRun(x: Takeover, c: Cluster, steps: seq<Step>, sha1: Sha1)
  {
    steps != [] ==>
      && CoordinatedLastRun(x, c, steps[..|steps| - 1], sha1)
      && CoordinatedLast(x, Run(c, steps[..|steps| - 1], sha1), steps[|steps| - 1].m)
  }

  /** That order implies the other: without a coordination there is no list to handle. */
  lemma {:induction false} CoordinatedLastIsTableFirst(x: Takeover, all: Kept, c: Cluster, steps: seq<Step>, sha1: Sha1)
    requires IsTakeover(x) && IsTakeoverStart(x, all, c, sha1) && CoordinatedLastRun(x, c, steps, sha1)
    ensures TableFirstRun(x, c, steps, sha1)
    ensures var d := Run(c, steps, sha1);
            d.joiner.keySpaceFile != x.after ==> forall m :: m in d.net ==> StartWire(MoveOf(x, c), m)
  {
    if steps != [] {
      var init, step := steps[..|steps| - 1], steps[|steps| - 1];
      CoordinatedLastIsTableFirst(x, all, c, init, sha1);
      RangesRun(x, all, c, init, sha1);
      var e, d := Run(c, init, sha1), Run(c, steps, sha1);
      if step.m in e.net {
        assert OnlyThisTable(x, step.m);
      }
    }
  }

  /** A sweep has been made and everything it ordered has been deleted. */
  ghost predicate IsComplete(c: Cluster, source: string)
  {
    c.sweeps != {} && forall k :: Command(OnlyDelete(source, k)) in c.net ==> k in c.handled
  }

  lemma {:induction false} CompleteIsSettled(x: Takeover, all: Kept, c: Cluster, steps: seq<Step>, sha1: Sha1)
    requires IsTakeover(x) && IsTakeoverStart(x, all, c, sha1) && GuardedRun(c, steps, sha1)
    requires TableFirstRun(x, c, steps, sha1) && IsComplete(Run(c, steps, sha1), x.source)
    ensures var d := Run(c, steps, sha1);
            Settled(d, x.source) && d.sweeps == {NewRange(x)} && d.lists <= {NewRange(x)}
  {
    var v, d := MoveOf(x, c), Run(c, steps, sha1);
    MoveIsGood(x, all, c, sha1);
    RunKeepsInv(v, c, steps, sha1);
    TableFirstUsesNewRange(x, all, c, steps, sha1);
    assert d.sweeps == {NewRange(x)};
    forall k | Command(Find(x.source, k)) in d.net ensures k in d.stores[x.target] {
      assert WireOk(v, d, Command(Find(x.source, k)));
      MatchedByMonotone(d.lists, d.sweeps, k);
    }
  }

  /** When the table comes first, a complete run misplaces exactly the moved manifests below 0x10. */
  lemma {:induction false} TableFirstPlacesIff(x: Takeover, all: Kept, c: Cluster, steps: seq<Step>, sha1: Sha1)
    requires IsTakeover(x) && IsTakeoverStart(x, all, c, sha1) && GuardedRun(c, steps, sha1)
    requires TableFirstRun(x, c, steps, sha1) && IsComplete(Run(c, steps, sha1), x.source)
    ensures ExactlyPlaced(Run(c, steps, sha1).stores, all, x.after) <==>
            NewRange(x).lo == 0 ||
            forall k :: k in c.stores[x.source] && TopByte(k).Some? && NewRange(x).lo <= TopByte(k).value ==>
              TopByte(k).value >= 0x10
  {
    var d, r := Run(c, steps, sha1), NewRange(x);
    CompleteIsSettled(x, all, c, steps, sha1);
    PlacementIff(x, all, c, steps, sha1);
    forall k | k in c.stores[x.source]
      ensures TopByte(k).Some?
      ensures FilteredRight(x, d, k) <==> r.lo <= TopByte(k).value ==> TopByte(k).value >= 0x10 || r.lo == 0
    {
      SourceKey(x, all, c, k, sha1);
      MatchedByTwo(d.lists, r, r, k);
      MatchedByTwo(d.sweeps, r, r, k);
      MatchesIff(r, k);
    }
  }

  /** A key of the source has a top byte, at or below the end of the new range. */
  lemma {:induction false} SourceKey(x: Takeover, all: Kept, c: Cluster, k: string, sha1: Sha1)
    requires IsTakeover(x) && IsPlacedStart(x, all, c, sha1) && k in c.stores[x.source]
    ensures k in all && TopByte(k).Some? && TopByte(k).value <= NewRange(x).hi
    ensures OwnerOf(x.before, TopByte(k).value) == Some(x.source)
  {
    assert c.stores[x.source] == Placed(all, x.before, x.source);
    assert k in Placed(all, x.before, x.source) && WellKept(k, all[k], sha1);
    assert OwnerMoves(x, TopByte(k).value);
  }

  // ---------- the two commands ----------

  /**
   * A node joins: when every manifest sat on its owner, then after a complete run with the table first every manifest
   * sits exactly on its owner under the new table, if and only if no manifest of the moved range is below 0x10.
   */
  lemma {:induction false} AddPlacesIff(before: Table, source: string, target: string, all: Kept, c: Cluster,
                                        steps: seq<Step>, sha1: Sha1)
    requires ValidAdd(before, source, target)
    requires var x := AddTakeover(before, source, target);
             && HasRange(x) && IsTakeoverStart(x, all, c, sha1) && GuardedRun(c, steps, sha1)
             && TableFirstRun(x, c, steps, sha1) && IsComplete(Run(c, steps, sha1), source)
    ensures var x := AddTakeover(before, source, target);
            ExactlyPlaced(Run(c, steps, sha1).stores, all, x.after) <==>
            forall k :: k in all && NewRange(x).lo <= TopByte(k).value <= NewRange(x).hi ==> TopByte(k).value >= 0x10
  {
    var x := AddTakeover(before, source, target);
    AddIsTakeover(before, source, target);
    TableFirstPlacesIff(x, all, c, steps, sha1);
    assert c.stores[source] == Placed(all, before, source);
    forall k | k in all
      ensures TopByte(k).Some?
      ensures NewRange(x).lo <= TopByte(k).value <= NewRange(x).hi <==>
              k in c.stores[source] && NewRange(x).lo <= TopByte(k).value
    {
      assert WellKept(k, all[k], sha1);
      assert OwnerMoves(x, TopByte(k).value);
    }
  }

  /**
   * A node is deleted into an adjacent member: after a complete run with the table first every manifest sits exactly on
   * its owner if and only if the union starts at 0 or the deleted node had no manifest below 0x10.
   */
  lemma {:induction false} DeletePlacesIff(before: Table, source: string, target: string, all: Kept, c: Cluster,
                                           steps: seq<Step>, sha1: Sha1)
    requires ValidDelete(before, source, target)
    requires var x := DeleteTakeover(before, source, target);
             && HasRange(x) && IsTakeoverStart(x, all, c, sha1) && GuardedRun(c, steps, sha1)
             && TableFirstRun(x, c, steps, sha1) && IsComplete(Run(c, steps, sha1), source)
    ensures var x := DeleteTakeover(before, source, target);
            ExactlyPlaced(Run(c, steps, sha1).stores, all, x.after) <==>
            NewRange(x).lo == 0 || forall k :: k in c.stores[source] ==> TopByte(k).Some? && TopByte(k).value >= 0x10
  {
    var x := DeleteTakeover(before, source, target);
    DeleteIsTakeover(before, source, target);
    TableFirstPlacesIff(x, all, c, steps, sha1);
    forall k | k in c.stores[source] ensures TopByte(k).Some? && NewRange(x).lo <= TopByte(k).value {
      DeletedNodeGivesAll(x, all, c, k, sha1);
    }
  }

  lemma {:induction false} DeletedNodeGivesAll(x: Takeover, all: Kept, c: Cluster, k: string, sha1: Sha1)
    requires IsTakeover(x) && IsPlacedStart(x, all, c, sha1) && k in c.stores[x.source]
    requires forall b: nat :: b <= 0xff ==> OwnerOf(x.after, b) != Some(x.source)
    ensures TopByte(k).Some? && NewRange(x).lo <= TopByte(k).value
  {
    assert c.stores[x.source] == Placed(all, x.before, x.source) && k in Placed(all, x.before, x.source);
    assert OwnerMoves(x, TopByte(k).value);
  }

  // ---------- the manager as receiver ----------

  /** No table is addressed to the target: the manager changes its own table before any message and never fetches. */
  ghost predicate IsTablelessStart(x: Takeover, all: Kept, c: Cluster, sha1: Sha1)
  {
    IsPlacedStart(x, all, c, sha1) && forall m :: m in c.net ==> NotATable(x, m)
  }

  predicate NotATable(x: Takeover, m: Wire)
  {
    m.Command? && m.m.FetchReply? && m.m.requester == x.target ==> m.m.content.None?
  }

  /** It keeps the range it has, whatever that is, and filters with no other. */
  ghost predicate RangeFixed(x: Takeover, held: Range, c: Cluster)
  {
    && c.joiner.self == x.target && RangeOf(c.joiner) == held && c.lists <= {held} && c.sweeps <= {held}
    && forall m :: m in c.net ==> NotATable(x, m)
  }

  lemma {:induction false} RangeFixedNext(x: Takeover, held: Range, c: Cluster, step: Step, sha1: Sha1)
    requires RangeFixed(x, held, c)
    ensures RangeFixed(x, held, Next(c, step, sha1))
  {
    var d := Next(c, step, sha1);
    if step.m in c.net {
      assert NotATable(x, step.m);
      forall m | m in d.net ensures NotATable(x, m) {
        if m in c.net {
          assert NotATable(x, m);
        }
      }
    }
  }

  lemma {:induction false} RangeFixedRun(x: Takeover, all: Kept, c: Cluster, steps: seq<Step>, sha1: Sha1)
    requires IsTablelessStart(x, all, c, sha1)
    ensures RangeFixed(x, RangeOf(c.joiner), Run(c, steps, sha1))
  {
    if steps != [] {
      RangeFixedRun(x, all, c, steps[..|steps| - 1], sha1);
      RangeFixedNext(x, RangeOf(c.joiner), Run(c, steps[..|steps| - 1], sha1), steps[|steps| - 1], sha1);
    }
  }

  /** One manifest of the source: it moves if and only if the range that the target happens to hold matches its key. */
  lemma {:induction false} TablelessMovesIff(x: Takeover, all: Kept, c: Cluster, steps: seq<Step>, key: string,
                                             sha1: Sha1)
    requires x.source != x.target && IsTablelessStart(x, all, c, sha1) && GuardedRun(c, steps, sha1)
    requires Settled(Run(c, steps, sha1), x.source) && key in c.stores[x.source]
    ensures var d, matched := Run(c, steps, sha1), Matches(RangeOf(c.joiner), key);
            && d.stores.Keys == c.stores.Keys
            && (key in d.stores[x.target] <==> d.lists != {} && matched)
            && (key in d.stores[x.source] <==> !(d.sweeps != {} && matched))
            && (d.sweeps != {} && matched ==> key in d.stores[x.target])
  {
    var d, held := Run(c, steps, sha1), RangeOf(c.joiner);
    MoveIsGood(x, all, c, sha1);
    RangeFixedRun(x, all, c, steps, sha1);
    SettledIff(MoveOf(x, c), c, steps, key, sha1);
    RunKeepsInv(MoveOf(x, c), c, steps, sha1);
    MatchedByTwo(d.lists, held, held, key);
    MatchedByTwo(d.sweeps, held, held, key);
    assert key in d.stores[x.source] || key in d.stores[x.target];
  }

  /**
   * A node is deleted into the manager: when everything asked for has been stored and everything ordered deleted,
   * every manifest sits exactly on its owner if and only if every manifest of the deleted node is matched by the range
   * that the manager's two ints happen to hold, and a sweep has been made if there are any.
   */
  lemma {:induction false} DeleteIntoManagerPlacesIff(before: Table, source: string, target: string, all: Kept,
                                                      c: Cluster, steps: seq<Step>, sha1: Sha1)
    requires ValidDelete(before, source, target)
    requires IsTablelessStart(DeleteTakeover(before, source, target), all, c, sha1)
    requires GuardedRun(c, steps, sha1) && Settled(Run(c, steps, sha1), source)
    ensures var d := Run(c, steps, sha1);
            ExactlyPlaced(d.stores, all, DeleteTakeover(before, source, target).after) <==>
            forall k :: k in c.stores[source] ==> d.sweeps != {} && Matches(RangeOf(c.joiner), k)
  {
    var x, d := DeleteTakeover(before, source, target), Run(c, steps, sha1);
    DeleteIsTakeover(before, source, target);
    PlacementIff(x, all, c, steps, sha1);
    RangeFixedRun(x, all, c, steps, sha1);
    forall k | k in c.stores[source]
      ensures FilteredRight(x, d, k) <==> d.sweeps != {} && Matches(RangeOf(c.joiner), k)
    {
      DeletedNodeGivesAll(x, all, c, k, sha1);
      MatchedByTwo(d.sweeps, RangeOf(c.joiner), RangeOf(c.joiner), k);
    }
  }

  /** With two zeros, only a deleted node whose manifests were all below 0x10 is emptied. */
  lemma {:induction false} DeleteIntoZeroManagerPlacesIff(before: Table, source: string, target: string, all: Kept,
                                                          c: Cluster, steps: seq<Step>, sha1: Sha1)
    requires ValidDelete(before, source, target)
    requires IsTablelessStart(DeleteTakeover(before, source, target), all, c, sha1)
    requires GuardedRun(c, steps, sha1) && Settled(Run(c, steps, sha1), source)
    requires RangeOf(c.joiner) == Range(0, 0) && Run(c, steps, sha1).sweeps != {}
    ensures ExactlyPlaced(Run(c, steps, sha1).stores, all, DeleteTakeover(before, source, target).after) <==>
            forall k :: k in c.stores[source] ==> TopByte(k).Some? && TopByte(k).value < 0x10
  {
    DeleteIntoManagerPlacesIff(before, source, target, all, c, steps, sha1);
    DeleteIsTakeover(before, source, target);
    forall k | k in c.stores[source]
      ensures TopByte(k).Some? && (Matches(Range(0, 0), k) <==> TopByte(k).value < 0x10)
    {
      DeletedNodeGivesAll(DeleteTakeover(before, source, target), all, c, k, sha1);
      ZeroRangeMatchesIff(k);
    }
  }

  // ---------- what never moves ----------

  /** A moved manifest below 0x10 never leaves the source, in any run at all that does not sweep under the old range. */
  lemma {:induction false} LowKeysNeverLeave(x: Takeover, all: Kept, c: Cluster, steps: seq<Step>, key: string,
                                             sha1: Sha1)
    requires IsTakeover(x) && IsTakeoverStart(x, all, c, sha1) && key in c.stores[x.source] && TopByte(key).Some?
    requires 0 < NewRange(x).lo <= TopByte(key).value < 0x10
    requires RangeOf(c.joiner) in Run(c, steps, sha1).sweeps ==> !Matches(RangeOf(c.joiner), key)
    ensures var d := Run(c, steps, sha1); x.source in d.stores && key in d.stores[x.source]
  {
    var d := Run(c, steps, sha1);
    RangesRun(x, all, c, steps, sha1);
    LeavesOnlyWhenSwept(MoveOf(x, c), c, steps, key, sha1);
    MatchedByTwo(d.sweeps, RangeOf(c.joiner), NewRange(x), key);
    assert c.stores[x.source] == Placed(all, x.before, x.source) && OwnerMoves(x, TopByte(key).value);
    MatchesIff(NewRange(x), key);
  }
}
