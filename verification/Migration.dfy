/**
 * Migration of manifests between two nodes: src/handles/keyspace-handle.cpp (table, coordination, manifest list,
 * find, complete, only-delete) against src/handles/manifest-handle.cpp and src/handles/delete-handle.cpp at the
 * source. Messages stay in the network for ever, so each may be delivered late, repeatedly, out of order or never.
 */
module Migration {
  import opened Options
  import opened HexText
  import opened Manifests
  import opened Storage
  import opened Keyspace
  import opened Routing
  import opened KeyspaceNode

  datatype Wire =
    | Command(m: Message)
    | ListReply(keys: seq<string>)
    | FindReply(key: string, content: Option<Json>)
    | Completed

  /** The values of m_start and m_end. */
  datatype Range = Range(lo: Int32, hi: Int32)

  /** A node's manifest store: key to stored JSON. */
  type Kept = map<string, Json>

  /**
   * `joiner` is the node that takes over a range. `lists` and `sweeps` are history: the ranges it held whenever it
   * filtered a manifest list and whenever it filtered the list again to have manifests deleted; `handled` are the
   * keys of the only-deletes that were handled.
   */
  datatype Cluster = Cluster(joiner: Node, stores: map<string, Kept>, net: set<Wire>,
                             lists: set<Range>, sweeps: set<Range>, handled: set<string>)

  /** `listing` is the order in which the source happens to enumerate its manifests. */
  datatype Step = Deliver(m: Wire, listing: seq<string>)

  // ---------- the handlers at the two ends ----------

  /** handleFindCommand: the stored manifest parsed and printed again, or empty; None for a thrown parse error. */
  function FindReplyOf(manifests: Kept, key: string, sha1: Sha1): Option<Option<Json>>
  {
    match ReadManifestOf(manifests, key)
    case Err(_) => None
    case Ok(None) => Some(None)
    case Ok(Some(m)) => Some(Some(JsonOf(m, sha1)))
  }

  /** onManifestCommandResponse: parse and store; an empty or malformed reply throws before anything is stored. */
  function AfterFindReply(manifests: Kept, content: Option<Json>, sha1: Sha1): Kept
  {
    if content.None? then manifests
    else
      match ManifestOf(content.value)
      case Err(_) => manifests
      case Ok(m) => WithManifest(manifests, m, sha1)
  }

  /** handleOnlyDeleteManifestCommand. */
  function AfterOnlyDelete(manifests: Kept, key: string): Kept
  {
    match ReadManifestOf(manifests, key)
    case Ok(Some(_)) => manifests - {key}
    case _ => manifests
  }

  predicate Enumerates(listing: seq<string>, manifests: Kept)
  {
    (set k | k in listing) == manifests.Keys
  }

  function AsWire(ms: seq<Message>): set<Wire>
  {
    set m | m in ms :: Command(m)
  }

  function Send(c: Cluster, ms: seq<Message>): Cluster
  {
    c.(net := c.net + AsWire(ms))
  }

  function RangeOf(n: Node): Range
  {
    Range(n.start, n.end)
  }

  function Delivered(c: Cluster, m: Wire, listing: seq<string>, sha1: Sha1): Cluster
  {
    var target := c.joiner.self;
    match m
    case Command(FetchReply(to, version, content)) =>
      if to != target then c else c.(joiner := AfterFetchReply(c.joiner, version, content))
    case Command(Coordinate(to, from)) =>
      if to != target then c
      else Send(c.(joiner := AfterCoordinate(c.joiner, Some(from))), [ListManifests(from)])
    case Command(ListManifests(source)) =>
      if source !in c.stores || !Enumerates(listing, c.stores[source]) then c
      else c.(net := c.net + {ListReply(listing)})
    case ListReply(keys) =>
      Send(c.(joiner := AfterManifestList(c.joiner, Some(keys)), lists := c.lists + {RangeOf(c.joiner)}),
           SentOnManifestList(c.joiner, Some(keys)))
    case Command(Find(source, key)) =>
      if source !in c.stores then c
      else
        (match FindReplyOf(c.stores[source], key, sha1)
         case None => c
         case Some(content) => c.(net := c.net + {FindReply(key, content)}))
    case FindReply(_, content) =>
      if target !in c.stores then c
      else c.(stores := c.stores[target := AfterFindReply(c.stores[target], content, sha1)])
    case Command(Complete) => c.(net := c.net + {Completed})
    case Completed =>
      if c.joiner.manifestList.None? then c
      else Send(c.(sweeps := c.sweeps + {RangeOf(c.joiner)}), SentOnCompleted(c.joiner))
    case Command(OnlyDelete(source, key)) =>
      if source !in c.stores then c
      else c.(stores := c.stores[source := AfterOnlyDelete(c.stores[source], key)], handled := c.handled + {key})
    case _ => c
  }

  function Next(c: Cluster, step: Step, sha1: Sha1): Cluster
  {
    if step.m in c.net then Delivered(c, step.m, step.listing, sha1) else c
  }

  function Run(c: Cluster, steps: seq<Step>, sha1: Sha1): Cluster
  {
    if steps == [] then c else Next(Run(c, steps[..|steps| - 1], sha1), steps[|steps| - 1], sha1)
  }

  // ---------- one move, without the tables ----------

  /** Stored under its own key, and parsing then printing it gives it back. */
  ghost predicate WellKept(key: string, json: Json, sha1: Sha1)
  {
    && TopByte(key).Some?
    && ManifestOf(json).Ok?
    && GetHash(ManifestOf(json).value, sha1) == key
    && JsonOf(ManifestOf(json).value, sha1) == json
  }

  /** insertManifest keeps manifests in that form as soon as they list a repo and no hash was set by hand. */
  lemma InsertedIsWellKept(m: Manifest, sha1: Sha1)
    requires m.repos != [] && m.hash == ""
    ensures WellKept(GetHash(m, sha1), JsonOf(m, sha1), sha1)
  {
    JsonRoundTrip(m, sha1);
    KeyShape(m.name, sha1);
  }

  lemma FindAndStoreCopies(source: Kept, target: Kept, key: string, sha1: Sha1)
    requires key in source && WellKept(key, source[key], sha1)
    ensures FindReplyOf(source, key, sha1) == Some(Some(source[key]))
    ensures AfterFindReply(target, Some(source[key]), sha1) == target[key := source[key]]
    ensures AfterOnlyDelete(source, key) == source - {key}
  {
  }

  /** `source` hands manifests to `target`; `initial` are all stores before the run. */
  datatype Move = Move(source: string, target: string, initial: map<string, Kept>)

  ghost predicate GoodMove(v: Move, sha1: Sha1)
  {
    && v.source != v.target && v.source in v.initial && v.target in v.initial
    && (forall k :: k in v.initial[v.source] ==> WellKept(k, v.initial[v.source][k], sha1))
    && (forall node :: node in v.initial && node != v.source ==> v.initial[node].Keys !! v.initial[v.source].Keys)
  }

  /** The filter with this range sends a command for this key. */
  predicate Matches(r: Range, key: string)
  {
    MatchCount(key, r.lo, r.hi) > 0
  }

  ghost predicate MatchedBy(rs: set<Range>, key: string)
  {
    exists r :: r in rs && Matches(r, key)
  }

  lemma MatchedByMore(rs: set<Range>, r: Range, key: string)
    ensures MatchedBy(rs + {r}, key) <==> MatchedBy(rs, key) || Matches(r, key)
  {
    if MatchedBy(rs, key) {
      var q :| q in rs && Matches(q, key);
      assert q in rs + {r};
    }
    if Matches(r, key) {
      assert r in rs + {r};
    }
  }

  lemma MatchedByMonotone(rs: set<Range>, more: set<Range>, key: string)
    requires rs <= more && MatchedBy(rs, key)
    ensures MatchedBy(more, key)
  {
    var r :| r in rs && Matches(r, key);
    assert r in more;
  }

  /** Only the keyspace protocol's own messages are about; every coordination of the target names the source. */
  ghost predicate StartWire(v: Move, m: Wire)
  {
    m.Command? &&
    match m.m
    case Coordinate(to, from) => to == v.target ==> from == v.source
    case Announce(_, _) => true
    case Fetch(_, _) => true
    case FetchReply(_, _, _) => true
    case _ => false
  }

  /** The target may be in any state and hold any range: the table may arrive before or after anything else. */
  ghost predicate IsStart(v: Move, c: Cluster)
  {
    && c.joiner.self == v.target && c.stores == v.initial
    && (forall m :: m in c.net ==> StartWire(v, m))
    && c.lists == {} && c.sweeps == {} && c.handled == {}
  }

  /** The list names only manifests of the source, and every manifest still there. */
  ghost predicate ListOk(v: Move, c: Cluster, keys: seq<string>)
    requires v.source in v.initial && v.source in c.stores
  {
    && (forall k :: k in keys ==> k in v.initial[v.source])
    && (forall k :: k in c.stores[v.source] ==> k in keys)
  }

  ghost predicate Ready(v: Move, c: Cluster)
    requires v.source in v.initial && v.source in c.stores
  {
    c.joiner.from == v.source && c.joiner.manifestList.Some? && ListOk(v, c, c.joiner.manifestList.value)
  }

  ghost predicate WireOk(v: Move, c: Cluster, m: Wire)
    requires v.source in v.initial && v.source in c.stores
  {
    match m
    case Command(ListManifests(from)) => from == v.source && c.joiner.from == v.source
    case ListReply(keys) => c.joiner.from == v.source && ListOk(v, c, keys)
    case Command(Find(from, key)) => from == v.source && key in v.initial[v.source] && MatchedBy(c.lists, key)
    case FindReply(key, content) =>
      key in v.initial[v.source] && MatchedBy(c.lists, key)
      && (content.Some? ==> content.value == v.initial[v.source][key])
    case Command(Complete) => Ready(v, c)
    case Completed => Ready(v, c)
    case Command(OnlyDelete(from, key)) => from == v.source && key in v.initial[v.source] && MatchedBy(c.sweeps, key)
    case _ => StartWire(v, m)
  }

  ghost predicate StoresOk(v: Move, stores: map<string, Kept>, lists: set<Range>)
    requires v.source in v.initial && v.target in v.initial
  {
    && stores.Keys == v.initial.Keys
    && (forall node :: node in stores && node != v.source && node != v.target ==> stores[node] == v.initial[node])
    && (forall k :: k in stores[v.source] ==> k in v.initial[v.source] && stores[v.source][k] == v.initial[v.source][k])
    && (forall k :: k in v.initial[v.target] ==> k in stores[v.target])
    && (forall k :: k in stores[v.target] ==> OfTarget(v, stores[v.target], lists, k))
    && (forall k :: k in v.initial[v.source] ==> k in stores[v.source] || k in stores[v.target])
  }

  /** A manifest at the target was there before, or was asked for under one of the ranges of `lists`. */
  ghost predicate OfTarget(v: Move, kept: Kept, lists: set<Range>, k: string)
    requires v.source in v.initial && v.target in v.initial && k in kept
  {
    || (k in v.initial[v.target] && kept[k] == v.initial[v.target][k])
    || (k in v.initial[v.source] && kept[k] == v.initial[v.source][k] && MatchedBy(lists, k))
  }

  /** Everything the filter selected has been asked for, and everything deleted had been selected. */
  ghost predicate CommandsOk(v: Move, c: Cluster)
    requires v.source in v.initial && v.source in c.stores
  {
    && (forall k :: k in c.stores[v.source] && MatchedBy(c.lists, k) ==> Command(Find(v.source, k)) in c.net)
    && (forall k :: k in c.stores[v.source] && MatchedBy(c.sweeps, k) ==> Command(OnlyDelete(v.source, k)) in c.net)
    && (forall k :: k in v.initial[v.source] && k !in c.stores[v.source] ==> MatchedBy(c.sweeps, k))
    && (forall k :: k in c.handled ==> k !in c.stores[v.source])
  }

  ghost predicate Inv(v: Move, c: Cluster)
    requires v.source in v.initial && v.target in v.initial
  {
    && c.joiner.self == v.target
    && StoresOk(v, c.stores, c.lists)
    && (forall m :: m in c.net ==> WireOk(v, c, m))
    && CommandsOk(v, c)
  }

  /** An only-delete is handled only after the target has stored the manifest. */
  predicate Guarded(c: Cluster, m: Wire)
  {
    match m
    case Command(OnlyDelete(source, key)) =>
      source in c.stores && c.joiner.self in c.stores &&
      (key in c.stores[source] ==> key in c.stores[c.joiner.self])
    case _ => true
  }

  ghost predicate GuardedRun(c: Cluster, steps: seq<Step>, sha1: Sha1)
  {
    steps != [] ==>
      GuardedRun(c, steps[..|steps| - 1], sha1) && Guarded(Run(c, steps[..|steps| - 1], sha1), steps[|steps| - 1].m)
  }

  // ---------- what every step keeps ----------

  /** A message stays in order as long as the source only shrinks and the history only grows. */
  lemma {:induction false} WireKept(v: Move, c: Cluster, c': Cluster, m: Wire)
    requires v.source in v.initial && v.source in c.stores && v.source in c'.stores && WireOk(v, c, m)
    requires c'.stores[v.source].Keys <= c.stores[v.source].Keys && c.lists <= c'.lists && c.sweeps <= c'.sweeps
    requires c.joiner.from == v.source ==> c'.joiner.from == v.source
    requires Ready(v, c) ==> Ready(v, c')
    ensures WireOk(v, c', m)
  {
    match m {
      case Command(Find(_, key)) => MatchedByMonotone(c.lists, c'.lists, key);
      case FindReply(key, _) => MatchedByMonotone(c.lists, c'.lists, key);
      case Command(OnlyDelete(_, key)) => MatchedByMonotone(c.sweeps, c'.sweeps, key);
      case _ =>
    }
  }

  lemma {:induction false} OneMoreWire(v: Move, c: Cluster, w: Wire)
    requires v.source in v.initial && v.target in v.initial && Inv(v, c) && WireOk(v, c, w)
    ensures Inv(v, c.(net := c.net + {w}))
  {
    var c' := c.(net := c.net + {w});
    forall m | m in c'.net ensures WireOk(v, c', m) {
      WireKept(v, c, c', m);
    }
  }

  /** The target learns its range, or who to ask. */
  lemma {:induction false} JoinerKeepsInv(v: Move, c: Cluster, joiner: Node)
    requires v.source in v.initial && v.target in v.initial && Inv(v, c)
    requires joiner.self == v.target && joiner.manifestList == c.joiner.manifestList
    requires joiner.from == c.joiner.from || joiner.from == v.source
    ensures Inv(v, c.(joiner := joiner))
  {
    var c' := c.(joiner := joiner);
    forall m | m in c'.net ensures WireOk(v, c', m) {
      WireKept(v, c, c', m);
    }
  }

  lemma {:induction false} FetchReplyKeepsInv(v: Move, c: Cluster, m: Message, listing: seq<string>, sha1: Sha1)
    requires v.source in v.initial && v.target in v.initial && Inv(v, c) && m.FetchReply?
    ensures Inv(v, Delivered(c, Command(m), listing, sha1))
  {
    if m.requester == v.target {
      JoinerKeepsInv(v, c, AfterFetchReply(c.joiner, m.version, m.content));
    }
  }

  lemma {:induction false} CoordinateKeepsInv(v: Move, c: Cluster, m: Message, listing: seq<string>, sha1: Sha1)
    requires v.source in v.initial && v.target in v.initial && Inv(v, c) && m.Coordinate? && Command(m) in c.net
    ensures Inv(v, Delivered(c, Command(m), listing, sha1))
  {
    assert WireOk(v, c, Command(m));
    if m.to == v.target {
      var d := c.(joiner := AfterCoordinate(c.joiner, Some(m.from)));
      JoinerKeepsInv(v, c, d.joiner);
      OneMoreWire(v, d, Command(ListManifests(v.source)));
      assert AsWire([ListManifests(m.from)]) == {Command(ListManifests(v.source))};
    }
  }

  lemma {:induction false} ListRequestKeepsInv(v: Move, c: Cluster, from: string, listing: seq<string>, sha1: Sha1)
    requires v.source in v.initial && v.target in v.initial && Inv(v, c) && Command(ListManifests(from)) in c.net
    ensures Inv(v, Delivered(c, Command(ListManifests(from)), listing, sha1))
  {
    assert WireOk(v, c, Command(ListManifests(from)));
    if Enumerates(listing, c.stores[v.source]) {
      forall k | k in listing ensures k in c.stores[v.source] {
        assert k in (set x | x in listing);
      }
      OneMoreWire(v, c, ListReply(listing));
    }
  }

  /** What handling a list does: the target remembers it and asks for every key its range matches. */
  lemma {:induction false} ListReplyEffect(v: Move, c: Cluster, keys: seq<string>, sha1: Sha1)
    requires v.source in v.initial && v.target in v.initial && Inv(v, c) && ListReply(keys) in c.net
    ensures var r, c' := RangeOf(c.joiner), Delivered(c, ListReply(keys), [], sha1);
            && c' == c.(joiner := c.joiner.(manifestList := Some(keys)), lists := c.lists + {r}, net := c'.net)
            && c.net <= c'.net
            && (forall m :: m in c'.net ==> m in c.net || m == Command(Complete) || (m.Command? && m.m.Find?))
            && (forall from, k :: Command(Find(from, k)) in c'.net && Command(Find(from, k)) !in c.net ==>
                  from == v.source && k in keys && Matches(r, k))
            && (forall k :: k in keys && Matches(r, k) ==> Command(Find(v.source, k)) in c'.net)
  {
    assert WireOk(v, c, ListReply(keys));
    var r := RangeOf(c.joiner);
    var chosen := Selected(keys, r.lo, r.hi);
    var sent := FindsFor(v.source, chosen) + [Complete];
    assert SentOnManifestList(c.joiner, Some(keys)) == sent;
    forall i | 0 <= i < |chosen| ensures chosen[i] in keys && Matches(r, chosen[i]) {
      SelectedIff(keys, r.lo, r.hi, chosen[i]);
    }
    forall k | k in keys && Matches(r, k) ensures Find(v.source, k) in sent {
      SelectedIff(keys, r.lo, r.hi, k);
      var i :| 0 <= i < |chosen| && chosen[i] == k;
      assert sent[i] == Find(v.source, k);
    }
  }

  lemma {:induction false} ListReplyKeepsInv(v: Move, c: Cluster, keys: seq<string>, sha1: Sha1)
    requires v.source in v.initial && v.target in v.initial && Inv(v, c) && ListReply(keys) in c.net
    ensures Inv(v, Delivered(c, ListReply(keys), [], sha1))
  {
    var r, c' := RangeOf(c.joiner), Delivered(c, ListReply(keys), [], sha1);
    ListReplyEffect(v, c, keys, sha1);
    assert WireOk(v, c, ListReply(keys));
    assert Ready(v, c');
    forall m | m in c'.net ensures WireOk(v, c', m) {
      if m in c.net {
        WireKept(v, c, c', m);
      } else if m != Command(Complete) {
        MatchedByMore(c.lists, r, m.m.key);
      }
    }
    forall k ensures MatchedBy(c.lists, k) || Matches(r, k) <==> MatchedBy(c'.lists, k) {
      MatchedByMore(c.lists, r, k);
    }
    assert CommandsOk(v, c');
  }

  /** What the manager's answer does: every key of the remembered list that the range matches now is to be deleted. */
  lemma {:induction false} CompletedEffect(v: Move, c: Cluster, sha1: Sha1)
    requires v.source in v.initial && v.target in v.initial && Inv(v, c) && Completed in c.net
    ensures var r, c' := RangeOf(c.joiner), Delivered(c, Completed, [], sha1);
            && Ready(v, c) && c' == c.(sweeps := c.sweeps + {r}, net := c'.net) && c.net <= c'.net
            && (forall m :: m in c'.net && m !in c.net ==>
                  && m.Command? && m.m.OnlyDelete? && m.m.from == v.source
                  && m.m.key in c.joiner.manifestList.value && Matches(r, m.m.key))
            && (forall k :: k in c.joiner.manifestList.value && Matches(r, k) ==>
                  Command(OnlyDelete(v.source, k)) in c'.net)
  {
    assert WireOk(v, c, Completed);
    var r, keys := RangeOf(c.joiner), c.joiner.manifestList.value;
    var chosen := Selected(keys, r.lo, r.hi);
    var sent := DeletesFor(v.source, chosen);
    assert SentOnCompleted(c.joiner) == sent;
    forall i | 0 <= i < |chosen| ensures chosen[i] in keys && Matches(r, chosen[i]) {
      SelectedIff(keys, r.lo, r.hi, chosen[i]);
    }
    forall k | k in keys && Matches(r, k) ensures OnlyDelete(v.source, k) in sent {
      SelectedIff(keys, r.lo, r.hi, k);
      var i :| 0 <= i < |chosen| && chosen[i] == k;
      assert sent[i] == OnlyDelete(v.source, k);
    }
  }

  lemma {:induction false} CompletedKeepsInv(v: Move, c: Cluster, sha1: Sha1)
    requires v.source in v.initial && v.target in v.initial && Inv(v, c) && Completed in c.net
    ensures Inv(v, Delivered(c, Completed, [], sha1))
  {
    var r, c' := RangeOf(c.joiner), Delivered(c, Completed, [], sha1);
    CompletedEffect(v, c, sha1);
    forall m | m in c'.net ensures WireOk(v, c', m) {
      if m in c.net {
        WireKept(v, c, c', m);
      } else {
        MatchedByMore(c.sweeps, r, m.m.key);
      }
    }
    forall k ensures MatchedBy(c.sweeps, k) || Matches(r, k) <==> MatchedBy(c'.sweeps, k) {
      MatchedByMore(c.sweeps, r, k);
    }
    assert CommandsOk(v, c');
  }

  /** The source answers with the manifest it had from the start, as long as it has it. */
  lemma {:induction false} FindIsAnswered(v: Move, c: Cluster, key: string, sha1: Sha1)
    requires GoodMove(v, sha1) && StoresOk(v, c.stores, c.lists) && key in v.initial[v.source]
    ensures FindReplyOf(c.stores[v.source], key, sha1) ==
            Some(if key in c.stores[v.source] then Some(v.initial[v.source][key]) else None)
  {
    if key in c.stores[v.source] {
      assert WellKept(key, v.initial[v.source][key], sha1);
      FindAndStoreCopies(c.stores[v.source], map[], key, sha1);
    }
  }

  lemma {:induction false} FindKeepsInv(v: Move, c: Cluster, from: string, key: string, listing: seq<string>,
                                        sha1: Sha1)
    requires GoodMove(v, sha1) && Inv(v, c) && Command(Find(from, key)) in c.net
    ensures Inv(v, Delivered(c, Command(Find(from, key)), listing, sha1))
  {
    assert WireOk(v, c, Command(Find(from, key)));
    FindIsAnswered(v, c, key, sha1);
    var content := if key in c.stores[v.source] then Some(v.initial[v.source][key]) else None;
    OneMoreWire(v, c, FindReply(key, content));
  }

  lemma {:induction false} StoreAdds(v: Move, stores: map<string, Kept>, lists: set<Range>, key: string)
    requires v.source in v.initial && v.target in v.initial && v.source != v.target && StoresOk(v, stores, lists)
    requires key in v.initial[v.source] && MatchedBy(lists, key)
    ensures StoresOk(v, stores[v.target := stores[v.target][key := v.initial[v.source][key]]], lists)
  {
    var kept := stores[v.target][key := v.initial[v.source][key]];
    forall k | k in kept ensures OfTarget(v, kept, lists, k) {
      if k != key {
        assert OfTarget(v, stores[v.target], lists, k);
      }
    }
  }

  lemma {:induction false} StoreDrops(v: Move, stores: map<string, Kept>, lists: set<Range>, key: string)
    requires v.source in v.initial && v.target in v.initial && v.source != v.target && StoresOk(v, stores, lists)
    requires key in stores[v.source] ==> key in stores[v.target]
    ensures StoresOk(v, stores[v.source := stores[v.source] - {key}], lists)
  {
  }

  /** Storing a manifest of the source at the target. */
  lemma {:induction false} StoringKeepsInv(v: Move, c: Cluster, key: string)
    requires v.source in v.initial && v.target in v.initial && v.source != v.target && Inv(v, c)
    requires key in v.initial[v.source] && MatchedBy(c.lists, key)
    ensures Inv(v, c.(stores := c.stores[v.target := c.stores[v.target][key := v.initial[v.source][key]]]))
  {
    var stores := c.stores[v.target := c.stores[v.target][key := v.initial[v.source][key]]];
    StoreAdds(v, c.stores, c.lists, key);
    SourceShrinks(v, c, c.(stores := stores));
  }

  /** Other stores, a smaller source, and at most more only-deletes handled: the messages stay in order. */
  lemma {:induction false} SourceShrinks(v: Move, c: Cluster, c': Cluster)
    requires v.source in v.initial && v.target in v.initial && Inv(v, c) && StoresOk(v, c'.stores, c'.lists)
    requires c' == c.(stores := c'.stores, handled := c'.handled)
    requires c'.stores[v.source].Keys <= c.stores[v.source].Keys
    requires forall k :: k in c'.handled ==> k !in c'.stores[v.source]
    requires forall k :: k in c.stores[v.source] && k !in c'.stores[v.source] ==> MatchedBy(c.sweeps, k)
    ensures Inv(v, c')
  {
    forall m | m in c'.net ensures WireOk(v, c', m) {
      WireKept(v, c, c', m);
    }
  }

  lemma {:induction false} FindReplyKeepsInv(v: Move, c: Cluster, key: string, content: Option<Json>, sha1: Sha1)
    requires GoodMove(v, sha1) && Inv(v, c) && FindReply(key, content) in c.net
    ensures Inv(v, Delivered(c, FindReply(key, content), [], sha1))
  {
    assert WireOk(v, c, FindReply(key, content));
    if content.Some? {
      assert WellKept(key, v.initial[v.source][key], sha1);
      FindAndStoreCopies(v.initial[v.source], c.stores[v.target], key, sha1);
      StoringKeepsInv(v, c, key);
    } else {
      assert c.stores[v.target := c.stores[v.target]] == c.stores;
    }
  }

  lemma OnlyDeleteRemoves(kept: Kept, key: string, sha1: Sha1)
    requires forall k :: k in kept ==> WellKept(k, kept[k], sha1)
    ensures AfterOnlyDelete(kept, key) == kept - {key}
  {
    if key in kept {
      FindAndStoreCopies(kept, map[], key, sha1);
    } else {
      assert kept - {key} == kept;
    }
  }

  /** What the source still holds can be read, and so deleted. */
  lemma {:induction false} SourceDrops(v: Move, c: Cluster, key: string, sha1: Sha1)
    requires GoodMove(v, sha1) && StoresOk(v, c.stores, c.lists)
    ensures AfterOnlyDelete(c.stores[v.source], key) == c.stores[v.source] - {key}
  {
    forall k | k in c.stores[v.source] ensures WellKept(k, c.stores[v.source][k], sha1) {
      assert WellKept(k, v.initial[v.source][k], sha1);
    }
    OnlyDeleteRemoves(c.stores[v.source], key, sha1);
  }

  lemma {:induction false} OnlyDeleteIsDelivered(c: Cluster, source: string, key: string, sha1: Sha1)
    requires source in c.stores
    ensures Delivered(c, Command(OnlyDelete(source, key)), [], sha1) ==
            c.(stores := c.stores[source := AfterOnlyDelete(c.stores[source], key)], handled := c.handled + {key})
  {
  }

  /** What handling an only-delete does to the cluster. */
  lemma {:induction false} OnlyDeleteEffect(v: Move, c: Cluster, key: string, sha1: Sha1)
    requires GoodMove(v, sha1) && StoresOk(v, c.stores, c.lists)
    ensures Delivered(c, Command(OnlyDelete(v.source, key)), [], sha1) ==
            c.(stores := c.stores[v.source := c.stores[v.source] - {key}], handled := c.handled + {key})
  {
    OnlyDeleteIsDelivered(c, v.source, key, sha1);
    SourceDrops(v, c, key, sha1);
  }

  lemma {:induction false} OnlyDeleteKeepsInv(v: Move, c: Cluster, key: string, sha1: Sha1)
    requires GoodMove(v, sha1) && Inv(v, c) && Command(OnlyDelete(v.source, key)) in c.net
    requires Guarded(c, Command(OnlyDelete(v.source, key)))
    ensures Inv(v, Delivered(c, Command(OnlyDelete(v.source, key)), [], sha1))
  {
    assert WireOk(v, c, Command(OnlyDelete(v.source, key)));
    OnlyDeleteEffect(v, c, key, sha1);
    var stores := c.stores[v.source := c.stores[v.source] - {key}];
    StoreDrops(v, c.stores, c.lists, key);
    SourceShrinks(v, c, c.(stores := stores, handled := c.handled + {key}));
  }

  lemma {:induction false} NextKeepsInv(v: Move, c: Cluster, step: Step, sha1: Sha1)
    requires GoodMove(v, sha1) && Inv(v, c) && Guarded(c, step.m)
    ensures Inv(v, Next(c, step, sha1))
  {
    if step.m in c.net {
      assert WireOk(v, c, step.m);
      match step.m {
        case ListReply(keys) => ListReplyKeepsInv(v, c, keys, sha1);
        case Completed => CompletedKeepsInv(v, c, sha1);
        case FindReply(key, content) => FindReplyKeepsInv(v, c, key, content, sha1);
        case Command(msg) => CommandKeepsInv(v, c, msg, step.listing, sha1);
      }
    }
  }

  lemma {:induction false} CommandKeepsInv(v: Move, c: Cluster, m: Message, listing: seq<string>, sha1: Sha1)
    requires GoodMove(v, sha1) && Inv(v, c) && Command(m) in c.net && Guarded(c, Command(m))
    ensures Inv(v, Delivered(c, Command(m), listing, sha1))
  {
    assert WireOk(v, c, Command(m));
    match m {
      case OnlyDelete(_, key) => OnlyDeleteKeepsInv(v, c, key, sha1);
      case Coordinate(_, _) => CoordinateKeepsInv(v, c, m, listing, sha1);
      case Find(from, key) => FindKeepsInv(v, c, from, key, listing, sha1);
      case ListManifests(from) => ListRequestKeepsInv(v, c, from, listing, sha1);
      case FetchReply(_, _, _) => FetchReplyKeepsInv(v, c, m, listing, sha1);
      case Complete => OneMoreWire(v, c, Completed);
      case _ =>
    }
  }

  /** In every run in which only-deletes come after the store, whatever the target knows when, the invariant holds. */
  lemma {:induction false} RunKeepsInv(v: Move, c: Cluster, steps: seq<Step>, sha1: Sha1)
    requires GoodMove(v, sha1) && IsStart(v, c) && GuardedRun(c, steps, sha1)
    ensures Inv(v, Run(c, steps, sha1))
  {
    if steps != [] {
      var init := steps[..|steps| - 1];
      RunKeepsInv(v, c, init, sha1);
      NextKeepsInv(v, Run(c, init, sha1), steps[|steps| - 1], sha1);
    }
  }

  // ---------- nothing is lost ----------

  ghost predicate OnSomeNode(stores: map<string, Kept>, key: string, json: Json)
  {
    exists node :: node in stores && key in stores[node] && stores[node][key] == json
  }

  /** At every point of a guarded run every manifest is on at least one node, unchanged. */
  lemma {:induction false} NothingIsLost(v: Move, c: Cluster, steps: seq<Step>, node: string, key: string, sha1: Sha1)
    requires GoodMove(v, sha1) && IsStart(v, c) && GuardedRun(c, steps, sha1)
    requires node in v.initial && key in v.initial[node]
    ensures OnSomeNode(Run(c, steps, sha1).stores, key, v.initial[node][key])
  {
    RunKeepsInv(v, c, steps, sha1);
    var stores := Run(c, steps, sha1).stores;
    var holder := if node != v.source || key in stores[v.source] then node else v.target;
    if holder == v.target {
      assert OfTarget(v, stores[v.target], Run(c, steps, sha1).lists, key);
      assert v.initial[v.target].Keys !! v.initial[v.source].Keys;
    }
    assert holder in stores && key in stores[holder];
  }

  /** One delete loses its manifest exactly when the guard fails: no other node holds it then. */
  lemma {:induction false} DeleteLosesIff(v: Move, c: Cluster, key: string, sha1: Sha1)
    requires GoodMove(v, sha1) && Inv(v, c) && Command(OnlyDelete(v.source, key)) in c.net
    ensures var c' := Delivered(c, Command(OnlyDelete(v.source, key)), [], sha1);
            OnSomeNode(c'.stores, key, v.initial[v.source][key]) <==> Guarded(c, Command(OnlyDelete(v.source, key)))
  {
    assert WireOk(v, c, Command(OnlyDelete(v.source, key)));
    OnlyDeleteEffect(v, c, key, sha1);
    var stores := c.stores[v.source := c.stores[v.source] - {key}];
    if key in c.stores[v.target] {
      assert OfTarget(v, c.stores[v.target], c.lists, key);
      assert v.initial[v.target].Keys !! v.initial[v.source].Keys;
      assert v.target in stores && key in stores[v.target];
    } else {
      forall node | node in stores ensures key !in stores[node] {
        if node != v.source && node != v.target {
          assert v.initial[node].Keys !! v.initial[v.source].Keys;
        }
      }
    }
  }

  // ---------- where a run leaves the manifests ----------

  /** Every manifest that was asked for is stored, and every only-delete that was sent is handled. */
  ghost predicate Settled(c: Cluster, source: string)
  {
    && c.joiner.self in c.stores
    && (forall k :: Command(Find(source, k)) in c.net ==> k in c.stores[c.joiner.self])
    && (forall k :: Command(OnlyDelete(source, k)) in c.net ==> k in c.handled)
  }

  /**
   * When a run has settled, the ranges under which the filter ran decide where each manifest of the source is:
   * at the target if one of the lists was filtered by a range that matches its key, and gone from the source if one
   * of the sweeps was.
   */
  lemma {:induction false} SettledIff(v: Move, c: Cluster, steps: seq<Step>, key: string, sha1: Sha1)
    requires GoodMove(v, sha1) && IsStart(v, c) && GuardedRun(c, steps, sha1) && key in v.initial[v.source]
    requires Settled(Run(c, steps, sha1), v.source)
    ensures var d := Run(c, steps, sha1);
            && d.stores.Keys == v.initial.Keys
            && (key in d.stores[v.target] <==> MatchedBy(d.lists, key))
            && (key in d.stores[v.source] <==> !MatchedBy(d.sweeps, key))
  {
    RunKeepsInv(v, c, steps, sha1);
    var d := Run(c, steps, sha1);
    assert v.initial[v.target].Keys !! v.initial[v.source].Keys;
    if key in d.stores[v.target] {
      assert OfTarget(v, d.stores[v.target], d.lists, key);
    }
  }

  /** In any run, guarded or not, a manifest leaves the source only after a sweep under a range that matches it. */
  lemma {:induction false} LeavesOnlyWhenSwept(v: Move, c: Cluster, steps: seq<Step>, key: string, sha1: Sha1)
    requires v.source != v.target && IsStart(v, c) && v.source in v.initial && key in v.initial[v.source]
    ensures var d := Run(c, steps, sha1);
            !MatchedBy(d.sweeps, key) ==>
              && d.joiner.self == v.target && v.source in d.stores && key in d.stores[v.source]
              && forall from :: Command(OnlyDelete(from, key)) !in d.net
  {
    if steps != [] {
      var init, step := steps[..|steps| - 1], steps[|steps| - 1];
      var d := Run(c, init, sha1);
      LeavesOnlyWhenSwept(v, c, init, key, sha1);
      SweepsGrow(d, step, sha1);
      if !MatchedBy(Run(c, steps, sha1).sweeps, key) {
        if MatchedBy(d.sweeps, key) {
          MatchedByMonotone(d.sweeps, Run(c, steps, sha1).sweeps, key);
        }
        StaysUnswept(v, d, step, key, sha1);
      }
    }
  }

  lemma {:induction false} SweepsGrow(c: Cluster, step: Step, sha1: Sha1)
    ensures c.sweeps <= Next(c, step, sha1).sweeps
  {
  }

  lemma {:induction false} StaysUnswept(v: Move, c: Cluster, step: Step, key: string, sha1: Sha1)
    requires v.source != v.target && c.joiner.self == v.target && v.source in c.stores && key in c.stores[v.source]
    requires forall from :: Command(OnlyDelete(from, key)) !in c.net
    requires !MatchedBy(Next(c, step, sha1).sweeps, key)
    ensures var d := Next(c, step, sha1);
            && d.joiner.self == v.target && v.source in d.stores && key in d.stores[v.source]
            && forall from :: Command(OnlyDelete(from, key)) !in d.net
  {
    if step.m in c.net && step.m.Completed? && c.joiner.manifestList.Some? {
      var r := RangeOf(c.joiner);
      SelectedIff(c.joiner.manifestList.value, r.lo, r.hi, key);
      MatchedByMore(c.sweeps, r, key);
    }
  }
}
