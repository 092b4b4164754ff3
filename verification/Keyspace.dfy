/**
 * The keyspace table of src/handles/keyspace-handle.cpp: ranges of the hash's top byte, their splitting and
 * merging, routing through the table, and the filter a joining node applies to manifest keys.
 */
module Keyspace {
  import opened Options

  /** `start` and `end` are the numbers spelled by the hexadecimal texts of the JSON entry. */
  datatype Entry = Entry(node: string, start: nat, end: nat)

  type Table = seq<Entry>

  type Int32 = n: int | -0x8000_0000 <= n <= 0x7fff_ffff

  /** The number spelled by `"0x" << std::hex << n` for a 32-bit int: negative values wrap. */
  function Printed(n: Int32): (v: nat)
  {
    if n >= 0 then n else n + 0x1_0000_0000
  }

  /** stoi(text, 0, 16) throws out_of_range above INT_MAX. */
  predicate Parsable(v: nat)
  {
    v <= 0x7fff_ffff
  }

  /** Integer division by two as C++ does it: towards zero. */
  function Half(n: int): int
  {
    if n >= 0 then n / 2 else -((-n) / 2)
  }

  lemma {:induction false} HalfTruncates(n: int)
    ensures Half(-n) == -Half(n)
    ensures n >= 0 ==> 2 * Half(n) <= n < 2 * Half(n) + 2
  {
  }

  datatype Outcome = Unchanged | Changed(table: Table) | Throws

  function InitialTable(self: string): Table
  {
    [Entry(self, 0x00, 0xff)]
  }

  // ---------- looking up nodes ----------

  predicate HasNode(t: Table, node: string)
  {
    exists i :: 0 <= i < |t| && t[i].node == node
  }

  function IndexOf(t: Table, node: string): (i: nat)
    requires HasNode(t, node)
    ensures i < |t| && t[i].node == node
    ensures forall k :: 0 <= k < i ==> t[k].node != node
  {
    if t[0].node == node then 0
    else
      assert HasNode(t[1..], node) by {
        var i :| 0 <= i < |t| && t[i].node == node;
        assert t[1..][i - 1].node == node;
      }
      1 + IndexOf(t[1..], node)
  }

  function EntryOf(t: Table, node: string): Entry
    requires HasNode(t, node)
  {
    t[IndexOf(t, node)]
  }

  ghost predicate DistinctNodes(t: Table)
  {
    forall i, j :: 0 <= i < j < |t| ==> t[i].node != t[j].node
  }

  // ---------- handleAddCommand ----------

  function SplitStart(start: nat, end: nat): (s: nat)
    requires Parsable(start) && Parsable(end)
    ensures s <= 0x7fff_ffff
  {
    end - Half(end - start)
  }

  function LeftPart(e: Entry): Entry
    requires Parsable(e.start) && Parsable(e.end)
  {
    e.(end := Printed(SplitStart(e.start, e.end) - 1))
  }

  function RightPart(e: Entry, to: string): Entry
    requires Parsable(e.start) && Parsable(e.end)
  {
    Entry(to, Printed(SplitStart(e.start, e.end)), Printed(e.end))
  }

  /** Only the first entry of the source node is split; an unknown source leaves everything as it is. */
  function AddNode(t: Table, from: string, to: string): Outcome
  {
    if !HasNode(t, from) then Unchanged
    else
      var i := IndexOf(t, from);
      if !Parsable(t[i].start) || !Parsable(t[i].end) then Throws
      else Changed(t[i := LeftPart(t[i])] + [RightPart(t[i], to)])
  }

  // ---------- handleDeleteCommand ----------

  function Merged(e: Entry, fromStart: Int32, fromEnd: Int32): Entry
  {
    if fromEnd < e.start then e.(start := Printed(fromStart)) else e.(end := Printed(fromEnd))
  }

  /** Every entry of `to` is extended; None when one of their starts does not parse. */
  function MergeInto(t: Table, to: string, fromStart: Int32, fromEnd: Int32): (r: Option<Table>)
    ensures r.Some? ==> |r.value| == |t|
  {
    if t == [] then Some([])
    else
      var init, e := t[..|t| - 1], t[|t| - 1];
      match MergeInto(init, to, fromStart, fromEnd)
      case None => None
      case Some(done) =>
        if e.node != to then Some(done + [e])
        else if !Parsable(e.start) then None
        else Some(done + [Merged(e, fromStart, fromEnd)])
  }

  function Without(t: Table, i: nat): Table
    requires i < |t|
  {
    t[..i] + t[i + 1..]
  }

  /**
   * `junkStart` and `junkEnd` are the values the two local ints happen to hold: they are read uninitialised
   * when the deleted node is not in the table.
   */
  function DeleteNode(t: Table, from: string, to: string, junkStart: Int32, junkEnd: Int32): Outcome
  {
    if HasNode(t, from) then
      var i := IndexOf(t, from);
      if !Parsable(t[i].start) || !Parsable(t[i].end) then Throws
      else
        match MergeInto(Without(t, i), to, t[i].start, t[i].end)
        case None => Throws
        case Some(t') => Changed(t')
    else
      match MergeInto(t, to, junkStart, junkEnd)
      case None => Throws
      case Some(t') => Changed(t')
  }

  // ---------- the ring invariant ----------

  predicate Covers(e: Entry, b: nat)
  {
    e.start <= b <= e.end
  }

  predicate Apart(d: Entry, e: Entry)
  {
    d.end < e.start || e.end < d.start
  }

  ghost predicate NonEmptyBytes(t: Table)
  {
    forall i :: 0 <= i < |t| ==> t[i].start <= t[i].end <= 0xff
  }

  ghost predicate Disjoint(t: Table)
  {
    forall i, j :: 0 <= i < j < |t| ==> Apart(t[i], t[j])
  }

  predicate IsCovered(t: Table, b: nat)
  {
    exists i :: 0 <= i < |t| && Covers(t[i], b)
  }

  ghost predicate CoversAll(t: Table)
  {
    forall b: nat :: b <= 0xff ==> IsCovered(t, b)
  }

  ghost predicate IsPartition(t: Table)
  {
    NonEmptyBytes(t) && Disjoint(t) && CoversAll(t)
  }

  /** A partition of 0x00..0xff with one range per node. */
  ghost predicate IsRing(t: Table)
  {
    IsPartition(t) && DistinctNodes(t)
  }

  lemma InitialTableIsRing(self: string)
    ensures IsRing(InitialTable(self))
  {
    forall b: nat | b <= 0xff ensures IsCovered(InitialTable(self), b) {
      assert Covers(InitialTable(self)[0], b);
    }
  }

  lemma IndexIsUnique(t: Table, node: string, i: nat)
    requires DistinctNodes(t) && i < |t| && t[i].node == node
    ensures HasNode(t, node) && IndexOf(t, node) == i
  {
  }

  // ---------- adding a node ----------

  lemma ApartEither(t: Table, i: nat, j: nat)
    requires Disjoint(t) && i < |t| && j < |t| && i != j
    ensures Apart(t[i], t[j])
  {
    if i < j {
      assert Apart(t[i], t[j]);
    } else {
      assert Apart(t[j], t[i]);
    }
  }

  predicate SafeAdd(t: Table, from: string, to: string)
    requires HasNode(t, from)
  {
    EntryOf(t, from).start < EntryOf(t, from).end && !HasNode(t, to)
  }

  /** The two halves of a range of at least two bytes. */
  lemma SplitHalves(e: Entry, to: string)
    requires e.start < e.end <= 0x7fff_ffff
    ensures var (l, r) := (LeftPart(e), RightPart(e, to));
            && l.start == e.start <= l.end && l.end + 1 == r.start <= r.end == e.end
            && -1 <= (r.end - r.start) - (l.end - l.start) <= 1
  {
  }

  /** Splitting one byte leaves an empty range, and at byte 0 the printed end wraps to 0xffffffff. */
  lemma OneByteSplit(e: Entry)
    requires e.start == e.end <= 0xff
    ensures LeftPart(e).end == if e.start == 0 then 0xffff_ffff else e.start - 1
  {
  }

  lemma SplitCovers(t: Table, i: nat, to: string)
    requires i < |t| && t[i].start < t[i].end && NonEmptyBytes(t) && CoversAll(t)
    ensures CoversAll(t[i := LeftPart(t[i])] + [RightPart(t[i], to)])
  {
    SplitHalves(t[i], to);
    var t' := t[i := LeftPart(t[i])] + [RightPart(t[i], to)];
    forall b: nat | b <= 0xff ensures IsCovered(t', b) {
      assert IsCovered(t, b);
      var k :| 0 <= k < |t| && Covers(t[k], b);
      if k != i {
        assert Covers(t'[k], b);
      } else {
        assert Covers(t'[i], b) || Covers(t'[|t|], b);
      }
    }
  }

  lemma SplitDisjoint(t: Table, i: nat, to: string)
    requires i < |t| && t[i].start < t[i].end && NonEmptyBytes(t) && Disjoint(t)
    ensures NonEmptyBytes(t[i := LeftPart(t[i])] + [RightPart(t[i], to)])
    ensures Disjoint(t[i := LeftPart(t[i])] + [RightPart(t[i], to)])
  {
    SplitHalves(t[i], to);
    var t' := t[i := LeftPart(t[i])] + [RightPart(t[i], to)];
    forall j, k | 0 <= j < k < |t'| ensures Apart(t'[j], t'[k]) {
      if k < |t| {
        assert Apart(t[j], t[k]);
      } else if j != i {
        ApartEither(t, i, j);
      }
    }
  }

  lemma SplitDistinctIff(t: Table, i: nat, to: string)
    requires i < |t| && DistinctNodes(t) && Parsable(t[i].start) && Parsable(t[i].end)
    ensures DistinctNodes(t[i := LeftPart(t[i])] + [RightPart(t[i], to)]) <==> !HasNode(t, to)
  {
    var t' := t[i := LeftPart(t[i])] + [RightPart(t[i], to)];
    if HasNode(t, to) {
      var k := IndexOf(t, to);
      assert t'[k].node == t'[|t|].node;
    } else {
      forall j, k | 0 <= j < k < |t'| ensures t'[j].node != t'[k].node {
        assert t[j].node != to;
      }
    }
  }

  /** Adding keeps the ring exactly when the source range has at least two bytes and the target is new. */
  lemma {:induction false} AddKeepsRingIff(t: Table, from: string, to: string)
    requires IsRing(t)
    ensures !HasNode(t, from) ==> AddNode(t, from, to) == Unchanged
    ensures HasNode(t, from) ==>
              && AddNode(t, from, to).Changed?
              && (IsRing(AddNode(t, from, to).table) <==> SafeAdd(t, from, to))
  {
    if HasNode(t, from) {
      var i := IndexOf(t, from);
      var t' := t[i := LeftPart(t[i])] + [RightPart(t[i], to)];
      assert AddNode(t, from, to) == Changed(t');
      SplitDistinctIff(t, i, to);
      if t[i].start < t[i].end {
        SplitCovers(t, i, to);
        SplitDisjoint(t, i, to);
      } else {
        OneByteSplit(t[i]);
        assert t'[i] == LeftPart(t[i]);
      }
    }
  }

  // ---------- deleting a node ----------

  predicate Adjacent(d: Entry, e: Entry)
  {
    d.end + 1 == e.start || e.end + 1 == d.start
  }

  predicate SafeDelete(t: Table, from: string, to: string)
    requires HasNode(t, from)
  {
    from != to && HasNode(t, to) && Adjacent(EntryOf(t, from), EntryOf(t, to))
  }

  lemma {:induction false} MergeIntoAbsent(t: Table, to: string, fromStart: Int32, fromEnd: Int32)
    requires forall k :: 0 <= k < |t| ==> t[k].node != to
    ensures MergeInto(t, to, fromStart, fromEnd) == Some(t)
  {
    if t != [] {
      var init, e := t[..|t| - 1], t[|t| - 1];
      MergeIntoAbsent(init, to, fromStart, fromEnd);
      assert init + [e] == t;
    }
  }

  lemma {:induction false} MergeIntoOne(t: Table, j: nat, to: string, fromStart: Int32, fromEnd: Int32)
    requires j < |t| && t[j].node == to && Parsable(t[j].start)
    requires forall k :: 0 <= k < |t| && k != j ==> t[k].node != to
    ensures MergeInto(t, to, fromStart, fromEnd) == Some(t[j := Merged(t[j], fromStart, fromEnd)])
  {
    var init, e := t[..|t| - 1], t[|t| - 1];
    var done := t[j := Merged(t[j], fromStart, fromEnd)];
    if j == |t| - 1 {
      MergeIntoAbsent(init, to, fromStart, fromEnd);
      assert init + [Merged(e, fromStart, fromEnd)] == done;
    } else {
      MergeIntoOne(init, j, to, fromStart, fromEnd);
      assert init[j := Merged(t[j], fromStart, fromEnd)] + [e] == done;
    }
  }

  /** The table after deleting entry `i` into entry `j`. */
  function DeletedTable(t: Table, i: nat, j: nat): Table
    requires i < |t| && j < |t| && i != j && Parsable(t[i].start) && Parsable(t[i].end)
  {
    Without(t, i)[(if j < i then j else j - 1) := Merged(t[j], t[i].start, t[i].end)]
  }

  /** Where an entry of the shortened table was before. */
  function Before(k: nat, i: nat): nat
  {
    if k < i then k else k + 1
  }

  lemma DeletedTableAt(t: Table, i: nat, j: nat, k: nat)
    requires i < |t| && j < |t| && i != j && k < |t| - 1 && Parsable(t[i].start) && Parsable(t[i].end)
    ensures Before(k, i) < |t| && Before(k, i) != i
    ensures DeletedTable(t, i, j)[k] ==
            if Before(k, i) == j then Merged(t[j], t[i].start, t[i].end) else t[Before(k, i)]
  {
  }

  lemma DeleteTable(t: Table, i: nat, j: nat, junkStart: Int32, junkEnd: Int32)
    requires DistinctNodes(t) && i < |t| && j < |t| && i != j
    requires Parsable(t[i].start) && Parsable(t[i].end) && Parsable(t[j].start)
    ensures DeleteNode(t, t[i].node, t[j].node, junkStart, junkEnd) == Changed(DeletedTable(t, i, j))
  {
    IndexIsUnique(t, t[i].node, i);
    var j' := if j < i then j else j - 1;
    var w := Without(t, i);
    forall k | 0 <= k < |w| && k != j' ensures w[k].node != t[j].node {
      assert w[k] == t[Before(k, i)];
    }
    MergeIntoOne(w, j', t[j].node, t[i].start, t[i].end);
  }

  /** Whatever lies between the two ranges, the merged range covers both of them. */
  lemma MergedCovers(d: Entry, e: Entry, b: nat)
    requires d.start <= d.end <= 0xff && e.start <= e.end <= 0xff && Apart(d, e)
    requires Covers(d, b) || Covers(e, b)
    ensures Covers(Merged(e, d.start, d.end), b)
  {
  }

  lemma DeletedTableCovers(t: Table, i: nat, j: nat)
    requires NonEmptyBytes(t) && CoversAll(t) && i < |t| && j < |t| && i != j && Apart(t[i], t[j])
    ensures CoversAll(DeletedTable(t, i, j))
  {
    var t' := DeletedTable(t, i, j);
    forall b: nat | b <= 0xff ensures IsCovered(t', b) {
      assert IsCovered(t, b);
      var k :| 0 <= k < |t| && Covers(t[k], b);
      var k' := if k == i then (if j < i then j else j - 1) else if k < i then k else k - 1;
      DeletedTableAt(t, i, j, k');
      if k == i || k == j {
        MergedCovers(t[i], t[j], b);
      }
      assert Covers(t'[k'], b);
    }
  }

  /** Coverage survives any delete into a present node, adjacent or not. */
  lemma DeleteKeepsCoverage(t: Table, from: string, to: string, junkStart: Int32, junkEnd: Int32)
    requires IsRing(t) && HasNode(t, from) && HasNode(t, to) && from != to
    ensures DeleteNode(t, from, to, junkStart, junkEnd).Changed?
    ensures CoversAll(DeleteNode(t, from, to, junkStart, junkEnd).table)
  {
    var i, j := IndexOf(t, from), IndexOf(t, to);
    ApartEither(t, i, j);
    DeleteTable(t, i, j, junkStart, junkEnd);
    DeletedTableCovers(t, i, j);
  }

  lemma DeletedTableDistinct(t: Table, i: nat, j: nat)
    requires DistinctNodes(t) && i < |t| && j < |t| && i != j && Parsable(t[i].start) && Parsable(t[i].end)
    ensures DistinctNodes(DeletedTable(t, i, j))
  {
    var t' := DeletedTable(t, i, j);
    forall k, l | 0 <= k < l < |t'| ensures t'[k].node != t'[l].node {
      DeletedTableAt(t, i, j, k);
      DeletedTableAt(t, i, j, l);
    }
  }

  /** A range that avoids two adjacent ranges avoids their union. */
  lemma ApartFromMerged(d: Entry, e: Entry, x: Entry)
    requires d.start <= d.end <= 0xff && e.start <= e.end <= 0xff && x.start <= x.end && Adjacent(d, e)
    requires Apart(d, x) && Apart(e, x)
    ensures Apart(Merged(e, d.start, d.end), x)
  {
  }

  lemma AdjacentDeleteIsDisjoint(t: Table, i: nat, j: nat)
    requires NonEmptyBytes(t) && Disjoint(t) && i < |t| && j < |t| && i != j && Adjacent(t[i], t[j])
    ensures NonEmptyBytes(DeletedTable(t, i, j)) && Disjoint(DeletedTable(t, i, j))
  {
    var t' := DeletedTable(t, i, j);
    forall k | 0 <= k < |t'| ensures t'[k].start <= t'[k].end <= 0xff {
      DeletedTableAt(t, i, j, k);
    }
    forall k, l | 0 <= k < l < |t'| ensures Apart(t'[k], t'[l]) {
      DeletedTableAt(t, i, j, k);
      DeletedTableAt(t, i, j, l);
      var k0, l0 := Before(k, i), Before(l, i);
      ApartEither(t, k0, l0);
      ApartEither(t, i, k0);
      ApartEither(t, i, l0);
      if k0 == j {
        ApartFromMerged(t[i], t[j], t[l0]);
      } else if l0 == j {
        ApartFromMerged(t[i], t[j], t[k0]);
      }
    }
  }

  lemma CoveredTwice(t: Table, j: nat, k: nat, b: nat)
    requires j < |t| && k < |t| && j != k && Covers(t[j], b) && Covers(t[k], b)
    ensures !Disjoint(t)
  {
    if Disjoint(t) {
      ApartEither(t, j, k);
    }
  }

  lemma MergedCoversGap(d: Entry, e: Entry, gap: nat)
    requires d.start <= d.end <= 0xff && e.start <= e.end <= 0xff && Apart(d, e) && !Adjacent(d, e)
    requires gap == if d.end < e.start then d.end + 1 else d.start - 1
    ensures gap <= 0xff && !Covers(d, gap) && !Covers(e, gap) && Covers(Merged(e, d.start, d.end), gap)
  {
  }

  /** Merging across a gap swallows the range that lies in between. */
  lemma GapOverlaps(t: Table, i: nat, j: nat)
    requires IsPartition(t) && i < |t| && j < |t| && i != j && !Adjacent(t[i], t[j])
    ensures !Disjoint(DeletedTable(t, i, j))
  {
    var t' := DeletedTable(t, i, j);
    ApartEither(t, i, j);
    var gap := if t[i].end < t[j].start then t[i].end + 1 else t[i].start - 1;
    MergedCoversGap(t[i], t[j], gap);
    assert IsCovered(t, gap);
    var k :| 0 <= k < |t| && Covers(t[k], gap);
    var k', j' := if k < i then k else k - 1, if j < i then j else j - 1;
    DeletedTableAt(t, i, j, k');
    DeletedTableAt(t, i, j, j');
    CoveredTwice(t', j', k', gap);
  }

  /** Dropping a range without extending another one leaves a hole. */
  lemma HoleRemains(t: Table, i: nat)
    requires NonEmptyBytes(t) && Disjoint(t) && i < |t|
    ensures !CoversAll(Without(t, i))
  {
    var w, b := Without(t, i), t[i].start;
    forall k | 0 <= k < |w| ensures !Covers(w[k], b) {
      assert w[k] == t[Before(k, i)];
      ApartEither(t, Before(k, i), i);
    }
    assert !IsCovered(w, b);
  }

  /** Deleting keeps the ring exactly when the target is another, present node whose range is adjacent. */
  lemma DeleteKeepsRingIff(t: Table, from: string, to: string, junkStart: Int32, junkEnd: Int32)
    requires IsRing(t) && HasNode(t, from)
    ensures DeleteNode(t, from, to, junkStart, junkEnd).Changed?
    ensures IsRing(DeleteNode(t, from, to, junkStart, junkEnd).table) <==> SafeDelete(t, from, to)
  {
    var i := IndexOf(t, from);
    if from != to && HasNode(t, to) {
      var j := IndexOf(t, to);
      DeleteTable(t, i, j, junkStart, junkEnd);
      if Adjacent(t[i], t[j]) {
        ApartEither(t, i, j);
        DeletedTableCovers(t, i, j);
        DeletedTableDistinct(t, i, j);
        AdjacentDeleteIsDisjoint(t, i, j);
      } else {
        GapOverlaps(t, i, j);
      }
    } else {
      var w := Without(t, i);
      forall k | 0 <= k < |w| ensures w[k].node != to {
        assert w[k] == t[Before(k, i)];
      }
      MergeIntoAbsent(w, to, t[i].start, t[i].end);
      HoleRemains(t, i);
    }
  }

  /** One entry of a ring replaced by a different range: the rest no longer fits. */
  lemma {:induction false} OtherRangeBreaksRing(t: Table, j: nat, e: Entry)
    requires IsRing(t) && j < |t| && (e.start != t[j].start || e.end != t[j].end)
    requires e.start == t[j].start || e.end == t[j].end
    ensures !IsPartition(t[j := e])
  {
    var t', lost := t[j := e], if e.start == t[j].start then t[j].end else t[j].start;
    if e.start <= e.end <= 0xff {
      if Covers(e, lost) {
        // the range has grown over a byte of another entry
        var b := if e.start == t[j].start then t[j].end + 1 else t[j].start - 1;
        assert IsCovered(t, b);
        var k :| 0 <= k < |t| && Covers(t[k], b);
        CoveredTwice(t', j, k, b);
      } else {
        forall k | 0 <= k < |t'| ensures !Covers(t'[k], lost) {
          if k != j {
            ApartEither(t, k, j);
          }
        }
        assert !IsCovered(t', lost);
      }
    } else {
      assert t'[j] == e;
    }
  }

  /**
   * Deleting a node that is not in the table writes two uninitialised numbers into the receiver's entry: the ring
   * survives if and only if there is no such entry, or they happen to leave it as it was.
   */
  lemma {:induction false} DeleteUnknownKeepsRingIff(t: Table, from: string, to: string, junkStart: Int32,
                                                     junkEnd: Int32)
    requires IsRing(t) && !HasNode(t, from)
    ensures DeleteNode(t, from, to, junkStart, junkEnd).Changed?
    ensures IsRing(DeleteNode(t, from, to, junkStart, junkEnd).table) <==>
            HasNode(t, to) ==> Merged(EntryOf(t, to), junkStart, junkEnd) == EntryOf(t, to)
  {
    if HasNode(t, to) {
      var j := IndexOf(t, to);
      MergeIntoOne(t, j, to, junkStart, junkEnd);
      var e := Merged(t[j], junkStart, junkEnd);
      if e == t[j] {
        assert t[j := e] == t;
      } else {
        OtherRangeBreaksRing(t, j, e);
      }
    } else {
      forall k | 0 <= k < |t| ensures t[k].node != to {
        assert !HasNode(t, to);
      }
      MergeIntoAbsent(t, to, junkStart, junkEnd);
    }
  }

  lemma SplitThenMergeIff(e: Entry, to: string)
    requires Parsable(e.start) && Parsable(e.end)
    ensures var r := RightPart(e, to);
            && Parsable(r.start) && Parsable(r.end)
            && (Merged(LeftPart(e), r.start, r.end) == e <==> e.start <= e.end)
  {
  }

  /** Deleting the added node back into its source restores the table, exactly when the source range was not empty. */
  lemma AddThenDeleteRestoresIff(t: Table, from: string, to: string, junkStart: Int32, junkEnd: Int32)
    requires DistinctNodes(t) && HasNode(t, from) && !HasNode(t, to)
    requires Parsable(EntryOf(t, from).start) && Parsable(EntryOf(t, from).end)
    ensures AddNode(t, from, to).Changed?
    ensures DeleteNode(AddNode(t, from, to).table, to, from, junkStart, junkEnd) == Changed(t) <==>
            EntryOf(t, from).start <= EntryOf(t, from).end
  {
    var i := IndexOf(t, from);
    var t' := AddNode(t, from, to).table;
    SplitDistinctIff(t, i, to);
    SplitThenMergeIff(t[i], to);
    DeleteTable(t', |t|, i, junkStart, junkEnd);
    var back := DeletedTable(t', |t|, i);
    assert back == t[i := Merged(LeftPart(t[i]), t'[|t|].start, t'[|t|].end)];
    assert back == t <==> back[i] == t[i];
  }

  // ---------- command sequences ----------

  datatype Command = Add(from: string, to: string) | Delete(from: string, to: string, junkStart: Int32, junkEnd: Int32)

  function Apply(t: Table, c: Command): Outcome
  {
    match c
    case Add(from, to) => AddNode(t, from, to)
    case Delete(from, to, junkStart, junkEnd) => DeleteNode(t, from, to, junkStart, junkEnd)
  }

  /** A thrown exception leaves the published table alone. */
  function TableAfter(t: Table, c: Command): Table
  {
    match Apply(t, c)
    case Changed(t') => t'
    case _ => t
  }

  /** What the operator can look up in the table before sending the command. */
  predicate SafeCommand(t: Table, c: Command)
  {
    match c
    case Add(from, to) => HasNode(t, from) ==> SafeAdd(t, from, to)
    case Delete(from, to, _, _) => HasNode(t, from) && SafeDelete(t, from, to)
  }

  function TableAfterAll(t: Table, cs: seq<Command>): Table
  {
    if cs == [] then t else TableAfter(TableAfterAll(t, cs[..|cs| - 1]), cs[|cs| - 1])
  }

  ghost predicate AllSafe(t: Table, cs: seq<Command>)
  {
    forall k :: 0 <= k < |cs| ==> SafeCommand(TableAfterAll(t, cs[..k]), cs[k])
  }

  /** The exact condition; for a node that is not in the table it depends on two uninitialised numbers. */
  predicate KeepsRing(t: Table, c: Command)
  {
    match c
    case Add(from, to) => HasNode(t, from) ==> SafeAdd(t, from, to)
    case Delete(from, to, junkStart, junkEnd) =>
      if HasNode(t, from) then SafeDelete(t, from, to)
      else HasNode(t, to) ==> Merged(EntryOf(t, to), junkStart, junkEnd) == EntryOf(t, to)
  }

  lemma {:induction false} CommandKeepsRingIff(t: Table, c: Command)
    requires IsRing(t)
    ensures IsRing(TableAfter(t, c)) <==> KeepsRing(t, c)
    ensures SafeCommand(t, c) ==> KeepsRing(t, c)
  {
    match c {
      case Add(from, to) => AddKeepsRingIff(t, from, to);
      case Delete(from, to, junkStart, junkEnd) =>
        if HasNode(t, from) {
          DeleteKeepsRingIff(t, from, to, junkStart, junkEnd);
        } else {
          DeleteUnknownKeepsRingIff(t, from, to, junkStart, junkEnd);
        }
    }
  }

  /** Any sequence of safe commands keeps the ring. */
  lemma {:induction false} SafeCommandsKeepRing(t: Table, cs: seq<Command>)
    requires IsRing(t) && AllSafe(t, cs)
    ensures IsRing(TableAfterAll(t, cs))
  {
    if cs != [] {
      var init := cs[..|cs| - 1];
      forall k | 0 <= k < |init| ensures SafeCommand(TableAfterAll(t, init[..k]), init[k]) {
        assert init[..k] == cs[..k];
      }
      SafeCommandsKeepRing(t, init);
      assert cs[..|cs| - 1] == init;
      CommandKeepsRingIff(TableAfterAll(t, init), cs[|cs| - 1]);
    }
  }
}
