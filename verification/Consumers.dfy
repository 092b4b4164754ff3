/**
 * lib/consumer.cpp: the reassembling consumer. It asks every repo of a manifest for its segments, keeps the first
 * content of each segment, and writes everything out whenever it holds as many segments as the file has.
 */
module Consumers {
  import opened Options
  import opened Tlv
  import opened Ndn
  import opened Manifests
  import opened FileProducer

  // ---------- a std::map is walked in key order ----------

  ghost function AnyOf(keys: set<int>): (x: int)
    requires keys != {}
    ensures x in keys
  {
    assert (forall x :: x !in keys) ==> keys == {};
    var x :| x in keys;
    x
  }

  lemma {:induction false} SmallestExists(keys: set<int>)
    requires keys != {}
    ensures exists k :: k in keys && forall j :: j in keys ==> k <= j
    decreases keys
  {
    var x := AnyOf(keys);
    var rest := keys - {x};
    if rest == {} {
      forall j | j in keys ensures x <= j {
        assert j !in rest;
      }
    } else {
      SmallestExists(rest);
      var k :| k in rest && forall j :: j in rest ==> k <= j;
      LeastOfBoth(keys, rest, x, k);
    }
  }

  lemma {:induction false} LeastOfBoth(keys: set<int>, rest: set<int>, x: int, k: int)
    requires keys == rest + {x} && k in rest && forall j :: j in rest ==> k <= j
    ensures exists k :: k in keys && forall j :: j in keys ==> k <= j
  {
    var least := if k <= x then k else x;
    assert least in keys && forall j :: j in keys ==> least <= j;
  }

  ghost function Smallest(keys: set<int>): (k: int)
    requires keys != {}
    ensures k in keys && forall j :: j in keys ==> k <= j
  {
    SmallestExists(keys);
    var k :| k in keys && forall j :: j in keys ==> k <= j;
    k
  }

  /** The values of the given keys, in key order. */
  ghost function InOrder(m: map<int, Bytes>, keys: set<int>): Bytes
    requires keys <= m.Keys
    decreases |keys|
  {
    if keys == {} then []
    else
      var k := Smallest(keys);
      m[k] + InOrder(m, keys - {k})
  }

  lemma InOrderStep(m: map<int, Bytes>, keys: set<int>, k: int, before: Bytes)
    requires keys <= m.Keys && k in keys && forall j :: j in keys ==> k <= j
    ensures before + InOrder(m, keys) == (before + m[k]) + InOrder(m, keys - {k})
  {
    assert k == Smallest(keys);
    Assoc(before, m[k], InOrder(m, keys - {k}));
  }

  // ---------- the state and its steps ----------

  datatype Interest = Interest(repo: string, manifest: string, segment: int)

  datatype State = State(segments: map<int, Bytes>, os: Bytes, totalSize: int, currentSegment: int,
                         retryCount: int, expressed: seq<Interest>)

  datatype Event = Delivery(segmentNo: nat, endNo: nat, content: Bytes) | Timeout | Nacked

  function RepoRequests(repo: Repo, name: string): (r: seq<Interest>)
    ensures |r| == if repo.start <= repo.end then repo.end - repo.start + 1 else 0
  {
    seq(if repo.start <= repo.end then repo.end - repo.start + 1 else 0,
        i requires 0 <= i => Interest(repo.name, name, repo.start + i))
  }

  function Requests(repos: seq<Repo>, name: string): seq<Interest>
  {
    if repos == [] then []
    else Requests(repos[..|repos| - 1], name) + RepoRequests(repos[|repos| - 1], name)
  }

  function Fetched(s: State, m: Manifest): State
  {
    s.(expressed := s.expressed + Requests(m.repos, m.name))
  }

  /** Timeouts and Nacks: the whole fetch is repeated, three times at most. */
  function AfterFailure(s: State, m: Manifest): State
  {
    var counted := s.(retryCount := s.retryCount + 1);
    if s.retryCount < 3 then Fetched(counted, m) else counted
  }

  function Keep(m: map<int, Bytes>, no: int, content: Bytes): map<int, Bytes>
  {
    if no in m then m else m[no := content]
  }

  ghost function AfterDelivery(s: State, no: int, endNo: nat, content: Bytes): State
  {
    var kept := Keep(s.segments, no, content);
    var all := InOrder(kept, kept.Keys);
    if |kept| - 1 == endNo then
      s.(segments := kept, os := s.os + all, totalSize := s.totalSize + |all|,
         currentSegment := s.currentSegment + |kept|)
    else s.(segments := kept)
  }

  ghost function Step(s: State, m: Manifest, e: Event): State
  {
    match e
    case Delivery(no, endNo, content) => AfterDelivery(s, no, endNo, content)
    case Timeout => AfterFailure(s, m)
    case Nacked => AfterFailure(s, m)
  }

  const INITIAL: State := State(map[], [], 0, 0, 0, [])

  /** A run: one fetch, then any events. */
  ghost function Run(m: Manifest, es: seq<Event>): State
  {
    if es == [] then Fetched(INITIAL, m) else Step(Run(m, es[..|es| - 1]), m, es[|es| - 1])
  }

  // ---------- how many Interests ----------

  function Failures(es: seq<Event>): nat
  {
    if es == [] then 0
    else Failures(es[..|es| - 1]) + (if es[|es| - 1].Delivery? then 0 else 1)
  }

  function AtMostThree(n: nat): nat
  {
    if n < 3 then n else 3
  }

  lemma OneRoundMore(n: nat, k: nat)
    ensures n * (1 + k) + n == n * (1 + (k + 1))
  {
  }

  lemma AtMostFour(n: nat, k: nat)
    requires k <= 3
    ensures n * (1 + k) <= 4 * n
  {
  }

  /** Any run expresses one round of Interests, and one more for each of the first three failures: at most 4N in all. */
  lemma {:induction false} InterestsExpressed(m: Manifest, es: seq<Event>)
    ensures var s, n := Run(m, es), |Requests(m.repos, m.name)|;
            && s.retryCount == Failures(es)
            && |s.expressed| == n * (1 + AtMostThree(Failures(es)))
            && |s.expressed| <= 4 * n
  {
    var n := |Requests(m.repos, m.name)|;
    if es != [] {
      var earlier := es[..|es| - 1];
      InterestsExpressed(m, earlier);
      OneRoundMore(n, AtMostThree(Failures(earlier)));
    }
    AtMostFour(n, AtMostThree(Failures(es)));
  }

  // ---------- which Interests ----------

  /** How many repos of this name are listed with a range that contains the segment. */
  function Listings(repos: seq<Repo>, repoName: string, segment: int): nat
  {
    if repos == [] then 0
    else
      var repo := repos[|repos| - 1];
      Listings(repos[..|repos| - 1], repoName, segment) +
      (if repo.name == repoName && repo.start <= segment <= repo.end then 1 else 0)
  }

  lemma {:induction false} PrefixCount(repo: Repo, name: string, n: nat, i: Interest)
    requires n <= |RepoRequests(repo, name)|
    ensures multiset(RepoRequests(repo, name)[..n])[i] ==
            if i == Interest(repo.name, name, i.segment) && repo.start <= i.segment < repo.start + n then 1 else 0
  {
    if n > 0 {
      var rs := RepoRequests(repo, name);
      PrefixCount(repo, name, n - 1, i);
      assert rs[..n] == rs[..n - 1] + [rs[n - 1]];
      assert rs[n - 1] == Interest(repo.name, name, repo.start + n - 1);
    }
  }

  /** One round asks a repo for a segment as often as it is listed with it, under the manifest's name, and no other. */
  lemma {:induction false} RequestsAreTheListed(repos: seq<Repo>, name: string, i: Interest)
    ensures multiset(Requests(repos, name))[i] == if i.manifest == name then Listings(repos, i.repo, i.segment) else 0
  {
    if repos != [] {
      var init, repo := repos[..|repos| - 1], repos[|repos| - 1];
      var rs := RepoRequests(repo, name);
      RequestsAreTheListed(init, name, i);
      PrefixCount(repo, name, |rs|, i);
      assert rs[..|rs|] == rs;
    }
  }

  lemma {:induction false} ListedIff(repos: seq<Repo>, repoName: string, segment: int)
    ensures Listings(repos, repoName, segment) > 0 <==>
            exists r :: r in repos && r.name == repoName && r.start <= segment <= r.end
  {
    if repos != [] {
      var init, repo := repos[..|repos| - 1], repos[|repos| - 1];
      ListedIff(init, repoName, segment);
      assert forall r :: r in repos <==> r in init || r == repo;
    }
  }

  /** How often one round asks for this. */
  function PerRound(m: Manifest, i: Interest): nat
  {
    if i.manifest == m.name then Listings(m.repos, i.repo, i.segment) else 0
  }

  lemma {:induction false} CountRounds(n: nat, failures: nat, failed: bool, failures': nat, before: nat,
                                       after: nat)
    requires before == n * (1 + AtMostThree(failures)) && failures' == failures + (if failed then 1 else 0)
    requires after == before + (if failed && failures < 3 then n else 0)
    ensures after == n * (1 + AtMostThree(failures'))
  {
    OneRoundMore(n, AtMostThree(failures));
  }

  lemma {:induction false} RetriesAreFailures(m: Manifest, es: seq<Event>)
    ensures Run(m, es).retryCount == Failures(es)
  {
    InterestsExpressed(m, es);
  }

  lemma {:induction false} StepAsks(s: State, m: Manifest, e: Event, i: Interest)
    ensures multiset(Step(s, m, e).expressed)[i] ==
            multiset(s.expressed)[i] +
            (if !e.Delivery? && s.retryCount < 3 then multiset(Requests(m.repos, m.name))[i] else 0)
  {
  }

  lemma {:induction false} OneMoreRound(m: Manifest, es: seq<Event>, i: Interest)
    requires es != []
    requires var init := es[..|es| - 1];
             multiset(Run(m, init).expressed)[i] == PerRound(m, i) * (1 + AtMostThree(Failures(init)))
    ensures multiset(Run(m, es).expressed)[i] == PerRound(m, i) * (1 + AtMostThree(Failures(es)))
  {
    var earlier, e := es[..|es| - 1], es[|es| - 1];
    RequestsAreTheListed(m.repos, m.name, i);
    RetriesAreFailures(m, earlier);
    StepAsks(Run(m, earlier), m, e, i);
    CountRounds(PerRound(m, i), Failures(earlier), !e.Delivery?, Failures(es),
                multiset(Run(m, earlier).expressed)[i], multiset(Run(m, es).expressed)[i]);
  }

  lemma {:induction false} FirstRound(m: Manifest, i: Interest)
    ensures multiset(Run(m, []).expressed)[i] == PerRound(m, i)
  {
    RequestsAreTheListed(m.repos, m.name, i);
    assert [] + Requests(m.repos, m.name) == Requests(m.repos, m.name);
  }

  /**
   * In any run, each segment of each listed repo is asked for once for the first fetch and once more for each of the
   * first three failures, times the number of listings; nothing else is asked for.
   */
  lemma {:induction false} EveryRoundAsksForAll(m: Manifest, es: seq<Event>, i: Interest)
    ensures multiset(Run(m, es).expressed)[i] == PerRound(m, i) * (1 + AtMostThree(Failures(es)))
  {
    if es == [] {
      FirstRound(m, i);
    } else {
      EveryRoundAsksForAll(m, es[..|es| - 1], i);
      OneMoreRound(m, es, i);
    }
  }

  /** In particular a segment is asked for if and only if the manifest lists it. */
  lemma {:induction false} AskedForIff(m: Manifest, es: seq<Event>, repoName: string, segment: int)
    ensures Interest(repoName, m.name, segment) in Run(m, es).expressed <==>
            exists r :: r in m.repos && r.name == repoName && r.start <= segment <= r.end
  {
    var i := Interest(repoName, m.name, segment);
    EveryRoundAsksForAll(m, es, i);
    ListedIff(m.repos, repoName, segment);
    assert i in Run(m, es).expressed <==> i in multiset(Run(m, es).expressed);
    PositiveProduct(Listings(m.repos, repoName, segment), 1 + AtMostThree(Failures(es)));
  }

  lemma PositiveProduct(n: nat, k: nat)
    requires k > 0
    ensures n * k > 0 <==> n > 0
  {
    if n > 0 {
      assert n * k >= k;
    }
  }

  // ---------- what is written ----------

  ghost predicate Covers(ds: seq<nat>, n: nat)
  {
    forall i: nat :: i < n ==> i in ds
  }

  /** How many of the deliveries find the file complete. */
  ghost function Copies(ds: seq<nat>, n: nat): nat
  {
    if ds == [] then 0
    else Copies(ds[..|ds| - 1], n) + (if Covers(ds, n) then 1 else 0)
  }

  function Repeat(s: Bytes, k: nat): Bytes
  {
    if k == 0 then [] else Repeat(s, k - 1) + s
  }

  function DeliveryOf(ps: seq<Packet>, no: nat): Event
    requires no < |ps| && ps[no].finalBlockId.Some?
  {
    Delivery(no, ps[no].finalBlockId.value, ps[no].content)
  }

  /** Segments of one file: numbered from 0, with FinalBlockId the last number. */
  ghost predicate IsFile(ps: seq<Packet>)
  {
    ps != [] && forall i :: 0 <= i < |ps| ==> ps[i].finalBlockId == Some(|ps| - 1)
  }

  /** Every delivery in the run is a segment of the file, and `ds` lists their numbers. */
  ghost predicate Delivers(ps: seq<Packet>, ds: seq<nat>, es: seq<Event>)
  {
    && IsFile(ps)
    && (forall k :: 0 <= k < |ds| ==> ds[k] < |ps|)
    && DeliveredNumbers(es) == ds
    && (forall k :: 0 <= k < |es| && es[k].Delivery? ==>
          es[k].segmentNo < |ps| && es[k] == DeliveryOf(ps, es[k].segmentNo))
  }

  function DeliveredNumbers(es: seq<Event>): seq<nat>
  {
    if es == [] then []
    else
      var last := es[|es| - 1];
      DeliveredNumbers(es[..|es| - 1]) + (if last.Delivery? then [last.segmentNo] else [])
  }

  /** The numbers from `from` up to but not including `limit`. */
  function Numbers(from: int, limit: int): (r: set<int>)
    ensures forall i :: i in r <==> from <= i < limit
    decreases limit - from
  {
    if from >= limit then {} else {from} + Numbers(from + 1, limit)
  }

  lemma {:induction false} NumbersSize(from: int, limit: int)
    requires from <= limit
    ensures |Numbers(from, limit)| == limit - from
    decreases limit - from
  {
    if from < limit {
      NumbersSize(from + 1, limit);
      assert Numbers(from, limit) - {from} == Numbers(from + 1, limit);
    }
  }

  lemma {:induction false} SubsetSize(a: set<int>, b: set<int>)
    requires a <= b
    ensures |a| <= |b| && (|a| == |b| <==> a == b)
    decreases |b|
  {
    if a != {} {
      var x := AnyOf(a);
      SubsetSize(a - {x}, b - {x});
      assert a == (a - {x}) + {x} && b == (b - {x}) + {x};
    }
  }

  lemma DeliversEarlier(ps: seq<Packet>, ds: seq<nat>, es: seq<Event>)
    requires Delivers(ps, ds, es) && es != []
    ensures var es', e := es[..|es| - 1], es[|es| - 1];
            && Delivers(ps, DeliveredNumbers(es'), es')
            && (e.Delivery? ==> e.segmentNo < |ps| && e == DeliveryOf(ps, e.segmentNo)
                                && ds == DeliveredNumbers(es') + [e.segmentNo])
            && (!e.Delivery? ==> ds == DeliveredNumbers(es'))
  {
    var es', e := es[..|es| - 1], es[|es| - 1];
    var ds' := DeliveredNumbers(es');
    assert forall k :: 0 <= k < |ds'| ==> ds'[k] == ds[k];
    assert forall k :: 0 <= k < |es'| ==> es'[k] == es[k];
  }

  /** What the map holds: exactly the delivered segments, each with its content. */
  ghost predicate Holds(m: map<int, Bytes>, ps: seq<Packet>, ds: seq<nat>)
  {
    && (forall k :: k in m <==> exists j :: 0 <= j < |ds| && ds[j] == k)
    && (forall k :: k in m ==> 0 <= k < |ps| && m[k] == ps[k].content)
  }

  /** The size test of the code is completeness. */
  lemma FullIff(m: map<int, Bytes>, ps: seq<Packet>, ds: seq<nat>)
    requires Holds(m, ps, ds)
    ensures |m| == |ps| <==> Covers(ds, |ps|)
    ensures |m| == |ps| ==> m.Keys == Numbers(0, |ps|)
  {
    var all := Numbers(0, |ps|);
    NumbersSize(0, |ps|);
    SubsetSize(m.Keys, all);
    if Covers(ds, |ps|) {
      forall i | i in all ensures i in m.Keys {
        var d: nat := i;
        assert d in ds;
      }
      assert m.Keys == all;
    }
    if m.Keys == all {
      forall i: nat | i < |ps| ensures i in ds {
        assert i in m.Keys;
      }
    }
  }

  lemma {:induction false} InOrderIsContents(m: map<int, Bytes>, ps: seq<Packet>, from: nat)
    requires from <= |ps| && Numbers(from, |ps|) <= m.Keys
    requires forall i :: from <= i < |ps| ==> m[i] == ps[i].content
    ensures InOrder(m, Numbers(from, |ps|)) == Contents(ps[from..])
    decreases |ps| - from
  {
    var keys := Numbers(from, |ps|);
    if from < |ps| {
      assert from in keys;
      assert Smallest(keys) == from;
      assert keys - {from} == Numbers(from + 1, |ps|);
      InOrderIsContents(m, ps, from + 1);
      assert ps[from..][1..] == ps[from + 1..];
    }
  }

  lemma HoldsAfter(m: map<int, Bytes>, ps: seq<Packet>, ds: seq<nat>, d: nat)
    requires Holds(m, ps, ds) && d < |ps|
    ensures Holds(Keep(m, d, ps[d].content), ps, ds + [d])
  {
    var kept, ds' := Keep(m, d, ps[d].content), ds + [d];
    assert ds'[|ds|] == d;
    forall k | k in kept ensures exists j :: 0 <= j < |ds'| && ds'[j] == k {
      if k in m {
        var j :| 0 <= j < |ds| && ds[j] == k;
        assert ds'[j] == k;
      }
    }
    forall j | 0 <= j < |ds'| ensures ds'[j] in kept {
      if j < |ds| {
        assert ds[j] in m;
      }
    }
  }

  /** One delivery: the map stays exact, and a copy of the file is appended if and only if the file is now complete. */
  lemma DeliveryWrites(s: State, ps: seq<Packet>, ds: seq<nat>, d: nat)
    requires IsFile(ps) && d < |ps| && Holds(s.segments, ps, ds)
    ensures var t := AfterDelivery(s, d, |ps| - 1, ps[d].content);
            && Holds(t.segments, ps, ds + [d])
            && t.os == s.os + (if Covers(ds + [d], |ps|) then Contents(ps) else [])
            && t.totalSize - s.totalSize == |t.os| - |s.os|
            && t.currentSegment - s.currentSegment == if Covers(ds + [d], |ps|) then |ps| else 0
  {
    HoldsAfter(s.segments, ps, ds, d);
    var kept := Keep(s.segments, d, ps[d].content);
    FullIff(kept, ps, ds + [d]);
    if |kept| == |ps| {
      InOrderIsContents(kept, ps, 0);
      assert ps[0..] == ps;
    }
  }

  /** The consumer's state after the deliveries `ds`, whatever failures came in between. */
  ghost predicate Reassembled(s: State, ps: seq<Packet>, ds: seq<nat>)
  {
    && Holds(s.segments, ps, ds)
    && s.os == Repeat(Contents(ps), Copies(ds, |ps|))
    && s.totalSize == |s.os|
    && s.currentSegment == |ps| * Copies(ds, |ps|)
  }

  lemma {:induction false} CopiesAfter(ds: seq<nat>, d: nat, n: nat)
    ensures Copies(ds + [d], n) == Copies(ds, n) + (if Covers(ds + [d], n) then 1 else 0)
  {
    assert (ds + [d])[..|ds|] == ds;
  }

  lemma {:induction false} RepeatMore(file: Bytes, k: nat, again: bool)
    ensures Repeat(file, k + (if again then 1 else 0)) == Repeat(file, k) + (if again then file else [])
  {
    assert Repeat(file, k) + [] == Repeat(file, k);
  }

  lemma {:induction false} CountMore(n: nat, k: nat, again: bool, before: int, after: int)
    requires before == n * k && after - before == (if again then n else 0)
    ensures after == n * (k + (if again then 1 else 0))
  {
    assert n * (k + 1) == n * k + n;
  }

  /** One delivery and the output text. */
  lemma {:induction false} DeliveryKeepsText(s: State, ps: seq<Packet>, ds: seq<nat>, d: nat)
    requires IsFile(ps) && d < |ps| && Holds(s.segments, ps, ds) && s.os == Repeat(Contents(ps), Copies(ds, |ps|))
    ensures AfterDelivery(s, d, |ps| - 1, ps[d].content).os == Repeat(Contents(ps), Copies(ds + [d], |ps|))
  {
    DeliveryWrites(s, ps, ds, d);
    CopiesAfter(ds, d, |ps|);
    RepeatMore(Contents(ps), Copies(ds, |ps|), Covers(ds + [d], |ps|));
  }

  /** One delivery and the segment counter. */
  lemma {:induction false} DeliveryKeepsCounter(s: State, ps: seq<Packet>, ds: seq<nat>, d: nat)
    requires IsFile(ps) && d < |ps| && Holds(s.segments, ps, ds) && s.currentSegment == |ps| * Copies(ds, |ps|)
    ensures AfterDelivery(s, d, |ps| - 1, ps[d].content).currentSegment == |ps| * Copies(ds + [d], |ps|)
  {
    var t := AfterDelivery(s, d, |ps| - 1, ps[d].content);
    assert t.currentSegment - s.currentSegment == if Covers(ds + [d], |ps|) then |ps| else 0 by {
      DeliveryWrites(s, ps, ds, d);
    }
    CopiesAfter(ds, d, |ps|);
    CountMore(|ps|, Copies(ds, |ps|), Covers(ds + [d], |ps|), s.currentSegment, t.currentSegment);
  }

  lemma {:induction false} DeliveryKeeps(s: State, ps: seq<Packet>, ds: seq<nat>, d: nat)
    requires IsFile(ps) && d < |ps| && Reassembled(s, ps, ds)
    ensures Reassembled(AfterDelivery(s, d, |ps| - 1, ps[d].content), ps, ds + [d])
  {
    DeliveryWrites(s, ps, ds, d);
    DeliveryKeepsText(s, ps, ds, d);
    DeliveryKeepsCounter(s, ps, ds, d);
  }

  /**
   * Segments may arrive in any order, with any duplicates and with failures in between: what is written is always
   * a whole number of copies of the file, none before the last missing segment has arrived, and one more for every
   * delivery from then on.
   */
  lemma {:induction false} OutputIsWholeCopies(m: Manifest, ps: seq<Packet>, ds: seq<nat>, es: seq<Event>)
    requires Delivers(ps, ds, es)
    ensures Reassembled(Run(m, es), ps, ds)
    decreases |es|
  {
    if es != [] {
      var es', e := es[..|es| - 1], es[|es| - 1];
      DeliversEarlier(ps, ds, es);
      OutputIsWholeCopies(m, ps, DeliveredNumbers(es'), es');
      if e.Delivery? {
        DeliveryKeeps(Run(m, es'), ps, DeliveredNumbers(es'), e.segmentNo);
      }
    }
  }

  lemma {:induction false} NoCopyBeforeCompletion(ds: seq<nat>, n: nat)
    ensures !Covers(ds, n) ==> Copies(ds, n) == 0
    ensures ds != [] && Covers(ds, n) && !Covers(ds[..|ds| - 1], n) ==> Copies(ds, n) == 1
  {
    if ds != [] {
      NoCopyBeforeCompletion(ds[..|ds| - 1], n);
      if Covers(ds[..|ds| - 1], n) {
        assert Covers(ds, n) by {
          forall i: nat | i < n ensures i in ds {
            assert i in ds[..|ds| - 1];
          }
        }
      }
    }
  }

  /**
   * Put, then reassemble: the produced segments, delivered in any order with any duplicates, give nothing until all
   * of them have arrived; at that moment the output is exactly the file. There is something to deliver only for a
   * file whose size is not a multiple of the block size.
   */
  lemma {:induction false} PutThenReassemble(u: Upload, m: Manifest, ds: seq<nat>, es: seq<Event>)
    requires Delivers(Produced(u), ds, es)
    ensures |u.file| % u.blockSize != 0
    ensures var n := |Produced(u)|;
            && n == BlockCount(u)
            && (!Covers(ds, n) ==> Run(m, es).os == [])
            && (ds != [] && Covers(ds, n) && !Covers(ds[..|ds| - 1], n) ==> Run(m, es).os == u.file)
            && Run(m, es).os == Repeat(u.file, Copies(ds, n))
  {
    var ps := Produced(u);
    CountsAgreeIff(u, "");
    ProducedContentsIff(u);
    OutputIsWholeCopies(m, ps, ds, es);
    NoCopyBeforeCompletion(ds, |ps|);
    assert Repeat(u.file, 1) == Repeat(u.file, 0) + u.file;
  }

  // ---------- the consumer ----------

  class Consumer {
    const manifest: Manifest
    var segments: map<int, Bytes>
    var os: Bytes
    var totalSize: int
    var currentSegment: int
    var retryCount: int
    var expressed: seq<Interest>

    function View(): State
      reads this
    {
      State(segments, os, totalSize, currentSegment, retryCount, expressed)
    }

    /** The counters are not initialised by the source; they are taken as zero. */
    constructor (manifest: Manifest)
      ensures this.manifest == manifest && View() == INITIAL
    {
      this.manifest := manifest;
      segments, os, totalSize, currentSegment, retryCount, expressed := map[], [], 0, 0, 0, [];
    }

    method Fetch()
      modifies this`expressed
      ensures View() == Fetched(old(View()), manifest)
    {
      var repos := manifest.repos;
      var i := 0;
      while i < |repos|
        invariant 0 <= i <= |repos|
        invariant expressed == old(expressed) + Requests(repos[..i], manifest.name)
      {
        var repo := repos[i];
        ghost var before := expressed;
        var segment := repo.start;
        while segment <= repo.end
          invariant segment == repo.start || repo.start <= segment <= repo.end + 1
          invariant expressed == before + RepoRequests(repo, manifest.name)[..segment - repo.start]
        {
          expressed := expressed + [Interest(repo.name, manifest.name, segment)];
          segment := segment + 1;
        }
        assert RepoRequests(repo, manifest.name)[..segment - repo.start] == RepoRequests(repo, manifest.name);
        assert repos[..i + 1][..i] == repos[..i];
        i := i + 1;
      }
      assert repos[..|repos|] == repos;
    }

    method OnDataCommandResponse(no: int, endNo: nat, content: Bytes)
      modifies this`segments, this`os, this`totalSize, this`currentSegment
      ensures View() == AfterDelivery(old(View()), no, endNo, content)
    {
      if no !in segments {
        segments := segments[no := content];
      }
      if |segments| - 1 == endNo {
        WriteAll();
      }
    }

    method WriteAll()
      modifies this`os, this`totalSize, this`currentSegment
      ensures os == old(os) + InOrder(segments, segments.Keys)
      ensures totalSize == old(totalSize) + |InOrder(segments, segments.Keys)|
      ensures currentSegment == old(currentSegment) + |segments|
    {
      var rest := segments.Keys;
      ghost var written: Bytes := [];
      while rest != {}
        invariant rest <= segments.Keys
        invariant os == old(os) + written && totalSize == old(totalSize) + |written|
        invariant written + InOrder(segments, rest) == InOrder(segments, segments.Keys)
        invariant currentSegment + |rest| == old(currentSegment) + |segments|
        decreases |rest|
      {
        SmallestExists(rest);
        var k :| k in rest && forall j :: j in rest ==> k <= j;
        InOrderStep(segments, rest, k, written);
        Assoc(old(os), written, segments[k]);
        os := os + segments[k];
        totalSize := totalSize + |segments[k]|;
        currentSegment := currentSegment + 1;
        written := written + segments[k];
        rest := rest - {k};
      }
      assert written + [] == written;
    }

    method OnFailure()
      modifies this`retryCount, this`expressed
      ensures View() == AfterFailure(old(View()), manifest)
    {
      retryCount := retryCount + 1;
      if retryCount - 1 < 3 {
        Fetch();
      }
    }

    /** The timeout and Nack handlers do the same. */
    method OnDataCommandTimeout()
      modifies this`retryCount, this`expressed
      ensures View() == Step(old(View()), manifest, Timeout)
    {
      OnFailure();
    }

    method OnDataCommandNack()
      modifies this`retryCount, this`expressed
      ensures View() == Step(old(View()), manifest, Nacked)
    {
      OnFailure();
    }
  }
}
