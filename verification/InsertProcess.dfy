/**
 * src/handles/write-handle.cpp: insert processes. A response object per process carries status code, counter and
 * range; segments, checks and the clock drive it; the deadline matters only while no end block is known.
 */
module InsertProcess {
  import opened Options
  import opened Tlv
  import opened Ndn
  import opened Manifests
  import opened Storage
  import opened Keyspace
  import opened Routing
  import opened Encoding
  import R = CommandResponse

  const NOEND_TIMEOUT: nat := 10000

  /** `noEndTime` is a clock value in milliseconds; the clock's epoch, 0, until it is first set. */
  datatype Process = Process(response: R.Object, noEndTime: nat, manifestSent: bool, manifest: Option<Manifest>)

  /** What operator[] on m_processes creates; the response's fields count as absent. */
  const FRESH: Process := Process(R.Object(R.NO_FIELDS, None, None), 0, false, None)

  type Wire = Result<Bytes, DecodeError>

  // ---------- steps on one process ----------

  function WithCode(p: Process, code: R.Uint32): Process
  {
    p.(response := R.Perform(p.response, R.SetCode(code)))
  }

  /** done(response): the dispatcher encodes what it is given, through the cached wire. */
  function Encoded(p: Process): Process
  {
    p.(response := R.Perform(p.response, R.EncodeWire))
  }

  function InsertNum(p: Process): Uint64
  {
    if p.response.fields.insertNum.Some? then p.response.fields.insertNum.value else 0
  }

  function Started(p: Process, pid: Uint64): Process
  {
    var r0 := R.Perform(p.response, R.SetCode(100));
    var r1 := R.Perform(r0, R.SetProcessId(pid));
    p.(response := R.Perform(r1, R.SetInsertNum(0)))
  }

  function WithRange(p: Process, start: Uint64, end: Option<Uint64>): Process
  {
    var r := R.Perform(p.response, R.SetStartBlockId(start));
    p.(response := if end.Some? then R.Perform(r, R.SetEndBlockId(end.value)) else r)
  }

  /** segInit: without an end block the deadline starts to run. */
  function SegInitiated(p: Process, hasEnd: bool, now: nat): Process
  {
    if hasEnd then p else p.(noEndTime := now + NOEND_TIMEOUT)
  }

  /** A segmented insert: 100 goes out, then fetching starts under 300. */
  function Announced(p: Process, pid: Uint64, start: Uint64, end: Option<Uint64>): Process
  {
    Encoded(WithRange(Started(p, pid), start, end))
  }

  function Begun(p: Process, pid: Uint64, start: Uint64, end: Option<Uint64>, now: nat): Process
  {
    SegInitiated(WithCode(Announced(p, pid, start, end), 300), end.Some?, now)
  }

  /** The number of segments of the range, in 64-bit arithmetic. */
  function SegmentCount(start: Uint64, end: Uint64): Uint64
  {
    (end - start + 1) % 0x1_0000_0000_0000_0000
  }

  function Counted(p: Process, inserted: bool): Process
  {
    if inserted then
      p.(response := R.Perform(p.response, R.SetInsertNum(
           if InsertNum(p) + 1 == TWO_64 then 0 else InsertNum(p) + 1)))
    else p
  }

  function StartOf(p: Process): Uint64
  {
    if p.response.fields.startBlockId.Some? then p.response.fields.startBlockId.value else 0
  }

  /** onSegmentData's new code, if any; setting one also stops the fetcher and schedules the process's deletion. */
  function Verdict(p: Process, now: nat): Option<R.Uint32>
  {
    match p.response.fields.endBlockId
    case None => if now > p.noEndTime then Some(405) else None
    case Some(end) => if InsertNum(p) >= SegmentCount(StartOf(p), end) then Some(200) else None
  }

  function AfterSegment(p: Process, inserted: bool, now: nat): Process
  {
    var q := Counted(p, inserted);
    if Verdict(q, now).Some? then WithCode(q, Verdict(q, now).value) else q
  }

  function Extended(p: Process, now: nat): Process
  {
    if now > p.noEndTime then WithCode(p, 405) else p.(noEndTime := now + NOEND_TIMEOUT)
  }

  /** A check command: the process before its response is encoded, and after. */
  function Checked(p: Process, now: nat): Process
  {
    if p.response.fields.endBlockId.None? then Extended(p, now) else p
  }

  // ---------- runs of one process ----------

  /** `SegInit` is the manifest of a single insert arriving. */
  datatype Event = Segment(packet: Packet, now: nat) | Check(now: nat) | SegInit(now: nat)

  datatype Fetch = Fetch(process: Process, store: Store)

  function Step(f: Fetch, backend: Backend, e: Event): Fetch
  {
    match e
    case Segment(packet, now) =>
      Fetch(AfterSegment(f.process, InsertSucceeds(backend, f.store, packet), now),
            AfterInsert(backend, f.store, packet))
    case Check(now) => f.(process := Encoded(Checked(f.process, now)))
    case SegInit(now) => f.(process := SegInitiated(f.process, false, now))
  }

  function Run(f: Fetch, backend: Backend, es: seq<Event>): Fetch
  {
    if es == [] then f else Step(Run(f, backend, es[..|es| - 1]), backend, es[|es| - 1])
  }

  function Code(f: Fetch): Option<R.Uint32>
  {
    f.process.response.fields.statusCode
  }

  function Start(pid: Uint64, start: Uint64, end: Option<Uint64>, now: nat, store: Store): Fetch
  {
    Fetch(Begun(FRESH, pid, start, end, now), store)
  }

  ghost predicate Segmented(es: seq<Event>)
  {
    es != [] ==> Segmented(es[..|es| - 1]) && !es[|es| - 1].SegInit?
  }

  // ---------- the status machine ----------

  /** What the first reply and the process look like when a segmented insert begins. */
  lemma BeginsWith100Then300(pid: Uint64, start: Uint64, end: Option<Uint64>, now: nat, store: Store)
    ensures var fields := R.Fields(Some(pid), Some(100), Some(start), end, Some(0), None);
            var f := Start(pid, start, end, now, store);
            && R.Returned(Announced(FRESH, pid, start, end).response) == Ok(R.Encode(fields))
            && f.process.response == R.Object(fields.(statusCode := Some(300)), Some(R.Encode(fields)), Some(100))
            && R.Returned(f.process.response) == Ok(R.Encode(fields))
  {
  }

  /** The code a process may hold besides 300: 200 with an end block, 405 without one. */
  function FinalCode(f: Fetch): R.Uint32
  {
    if f.process.response.fields.endBlockId.Some? then 200 else 405
  }

  ghost predicate StatusOk(f: Fetch)
  {
    Code(f) == Some(300) || Code(f) == Some(FinalCode(f))
  }

  lemma StepKeepsStatus(f: Fetch, backend: Backend, e: Event)
    requires StatusOk(f)
    ensures var g := Step(f, backend, e);
            && StatusOk(g) && (Code(f) != Some(300) ==> Code(g) == Code(f))
            && g.process.response.fields.endBlockId == f.process.response.fields.endBlockId
            && g.process.response.fields.startBlockId == f.process.response.fields.startBlockId
  {
  }

  /**
   * Over every interleaving of segments and checks at any times: the code is 300, or the final one, which is 200
   * for a process with an end block and 405 for one without; and once final it stays.
   */
  lemma {:induction false} StatusMachine(f: Fetch, backend: Backend, es: seq<Event>, n: nat)
    requires StatusOk(f) && n <= |es|
    ensures var g, earlier := Run(f, backend, es), Run(f, backend, es[..n]);
            && StatusOk(g) && StatusOk(earlier)
            && (Code(earlier) != Some(300) ==> Code(g) == Code(earlier))
            && g.process.response.fields.endBlockId == f.process.response.fields.endBlockId
            && g.process.response.fields.startBlockId == f.process.response.fields.startBlockId
  {
    if n == |es| {
      assert es[..n] == es;
      if n > 0 {
        StatusMachine(f, backend, es[..n - 1], n - 1);
        StepKeepsStatus(Run(f, backend, es[..n - 1]), backend, es[n - 1]);
      }
    } else {
      var init := es[..|es| - 1];
      StatusMachine(f, backend, init, n);
      assert init[..n] == es[..n];
      StepKeepsStatus(Run(f, backend, init), backend, es[|es| - 1]);
    }
  }

  /** 200 needs an end block, 405 the lack of one. */
  lemma CodesByKind(pid: Uint64, start: Uint64, end: Option<Uint64>, now: nat, store: Store, backend: Backend,
                    es: seq<Event>)
    ensures var code := Code(Run(Start(pid, start, end, now, store), backend, es));
            && (code == Some(300) || code == Some(200) || code == Some(405))
            && (code == Some(200) ==> end.Some?) && (code == Some(405) ==> end.None?)
  {
    BeginsWith100Then300(pid, start, end, now, store);
    StatusMachine(Start(pid, start, end, now, store), backend, es, |es|);
  }

  /** The insert of a single name, as it waits for its manifest. */
  function StartSingle(pid: Uint64, store: Store): Fetch
  {
    Fetch(WithCode(Encoded(Started(FRESH, pid)), 300), store)
  }

  /** Whatever arrives, it never reports completion: no end block is ever recorded for it. */
  lemma SingleInsertNeverCompletes(pid: Uint64, store: Store, backend: Backend, es: seq<Event>)
    ensures Code(Run(StartSingle(pid, store), backend, es)) != Some(200)
  {
    StatusMachine(StartSingle(pid, store), backend, es, |es|);
  }

  // ---------- the deadline ----------

  ghost predicate NotBefore(es: seq<Event>, t: nat)
  {
    es != [] ==> NotBefore(es[..|es| - 1], t) && es[|es| - 1].now >= t
  }

  /**
   * Once the deadline has expired it stays as it is if and only if no manifest of a single insert arrives; checks and
   * segments never extend it, and the first of them fixes the code.
   */
  lemma {:induction false} ExpiredStaysIff(f: Fetch, backend: Backend, es: seq<Event>, t: nat)
    requires f.process.response.fields.endBlockId.None? && f.process.noEndTime < t && NotBefore(es, t)
    ensures var g := Run(f, backend, es);
            && g.process.response.fields.endBlockId.None?
            && (g.process.noEndTime == f.process.noEndTime <==> Segmented(es))
            && (!Segmented(es) ==> g.process.noEndTime >= t + NOEND_TIMEOUT)
            && (Segmented(es) && es != [] ==> Code(g) == Some(405))
  {
    if es != [] {
      var init, e := es[..|es| - 1], es[|es| - 1];
      ExpiredStaysIff(f, backend, init, t);
      ExpiredStep(Run(f, backend, init), backend, e);
    }
  }

  /** One event of a process without an end block. */
  lemma {:induction false} ExpiredStep(f: Fetch, backend: Backend, e: Event)
    requires f.process.response.fields.endBlockId.None?
    ensures var g := Step(f, backend, e);
            && g.process.response.fields.endBlockId.None?
            && g.process.noEndTime == (if e.SegInit? || (e.Check? && e.now <= f.process.noEndTime)
                                       then e.now + NOEND_TIMEOUT else f.process.noEndTime)
            && (!e.SegInit? && e.now > f.process.noEndTime ==> Code(g) == Some(405))
  {
  }

  /** The deadline after some events: a manifest sets it, a check in time extends it, a segment leaves it alone. */
  function Deadline(first: nat, es: seq<Event>): nat
  {
    if es == [] then first
    else
      var earlier := Deadline(first, es[..|es| - 1]);
      match es[|es| - 1]
      case Segment(_, _) => earlier
      case Check(now) => if now > earlier then earlier else now + 10000
      case SegInit(now) => now + 10000
  }

  /** Some segment or check came later than the deadline that was held just before it. */
  ghost predicate CameLate(first: nat, es: seq<Event>)
  {
    exists k :: 0 <= k < |es| && !es[k].SegInit? && es[k].now > Deadline(first, es[..k])
  }

  lemma {:induction false} CameLateIff(first: nat, es: seq<Event>)
    requires es != []
    ensures var init, e := es[..|es| - 1], es[|es| - 1];
            CameLate(first, es) <==> CameLate(first, init) || (!e.SegInit? && e.now > Deadline(first, init))
  {
    var init := es[..|es| - 1];
    if CameLate(first, es) {
      var k :| 0 <= k < |es| && !es[k].SegInit? && es[k].now > Deadline(first, es[..k]);
      if k < |init| {
        assert init[k] == es[k] && init[..k] == es[..k];
      }
    }
    if CameLate(first, init) {
      var k :| 0 <= k < |init| && !init[k].SegInit? && init[k].now > Deadline(first, init[..k]);
      assert init[k] == es[k] && init[..k] == es[..k];
    }
  }

  /** Without an end block the code is 405 if and only if something came too late, and 300 until then. */
  lemma {:induction false} TimedOutIff(f: Fetch, backend: Backend, es: seq<Event>)
    requires f.process.response.fields.endBlockId.None? && Code(f) == Some(300)
    ensures var g := Run(f, backend, es);
            && g.process.noEndTime == Deadline(f.process.noEndTime, es)
            && g.process.response.fields.endBlockId.None?
            && Code(g) == Some(if CameLate(f.process.noEndTime, es) then 405 else 300)
  {
    if es != [] {
      var init, e := es[..|es| - 1], es[|es| - 1];
      TimedOutIff(f, backend, init);
      CameLateIff(f.process.noEndTime, es);
      OneEventTimesOut(Run(f, backend, init), backend, e);
    }
  }

  lemma {:induction false} OneEventTimesOut(f: Fetch, backend: Backend, e: Event)
    requires f.process.response.fields.endBlockId.None?
    ensures var g := Step(f, backend, e);
            Code(g) == if !e.SegInit? && e.now > f.process.noEndTime then Some(405) else Code(f)
    ensures Step(f, backend, e).process.noEndTime == Deadline(f.process.noEndTime, [e])
    ensures Step(f, backend, e).process.response.fields.endBlockId.None?
  {
    assert Deadline(f.process.noEndTime, []) == f.process.noEndTime;
  }

  /** For a segmented insert the first deadline is ten seconds after its begin, for a single one the clock's epoch. */
  lemma {:induction false} InsertTimesOutIff(pid: Uint64, start: Uint64, begun: nat, store: Store, backend: Backend,
                                             es: seq<Event>)
    ensures var code := Code(Run(Start(pid, start, None, begun, store), backend, es));
            code == Some(if CameLate(begun + 10000, es) then 405 else 300)
    ensures var code := Code(Run(StartSingle(pid, store), backend, es));
            code == Some(if CameLate(0, es) then 405 else 300)
  {
    BeginsWith100Then300(pid, start, None, begun, store);
    TimedOutIff(Start(pid, start, None, begun, store), backend, es);
    TimedOutIff(StartSingle(pid, store), backend, es);
  }

  /** A segment ends the fetching if and only if it comes too late, or makes the range complete. */
  lemma {:induction false} FetchingEndsIff(p: Process, inserted: bool, now: nat)
    ensures var fields := p.response.fields;
            var start := if fields.startBlockId.Some? then fields.startBlockId.value else 0;
            var before := if fields.insertNum.Some? then fields.insertNum.value else 0;
            Verdict(Counted(p, inserted), now).Some? <==>
            match fields.endBlockId
            case None => now > p.noEndTime
            case Some(end) => (before + (if inserted then 1 else 0)) % TWO_64 >= (end - start + 1) % TWO_64
  {
  }

  /** A single insert: a check that comes before the manifest sets 405, then segInit sets a new deadline. */
  lemma SingleInsertRevives(store: Store, backend: Backend, pid: Uint64, now: nat)
    requires now > 0
    ensures var g := Run(StartSingle(pid, store), backend, [Check(now), SegInit(now)]);
            Code(g) == Some(405) && g.process.noEndTime == now + NOEND_TIMEOUT
  {
    var f := StartSingle(pid, store);
    assert [Check(now), SegInit(now)][..1] == [Check(now)];
    assert [Check(now)][..0] == [];
    assert Run(f, backend, [Check(now)]) == Step(f, backend, Check(now));
  }

  // ---------- what a client sees ----------

  /** Completion is visible: inserting a segment drops the cached wire, so the next reply carries the code 200. */
  lemma CompletionIsVisible(p: Process, now: nat)
    requires p.response.fields.endBlockId.Some? && Verdict(Counted(p, true), now).Some?
    ensures var q := AfterSegment(p, true, now);
            R.Returned(q.response) == Ok(R.Encode(q.response.fields)) && q.response.fields.statusCode == Some(200)
  {
  }

  /** Insertions, checks and deadlines act on the response through its operations only. */
  lemma {:induction false} HistoryIsKept(f: Fetch, backend: Backend, es: seq<Event>)
    requires R.WireMatchesHistory(f.process.response)
    ensures R.WireMatchesHistory(Run(f, backend, es).process.response)
  {
    if es != [] {
      HistoryIsKept(f, backend, es[..|es| - 1]);
      StepKeepsHistory(Run(f, backend, es[..|es| - 1]), backend, es[|es| - 1]);
    }
  }

  lemma {:induction false} StepKeepsHistory(f: Fetch, backend: Backend, e: Event)
    requires R.WireMatchesHistory(f.process.response)
    ensures R.WireMatchesHistory(Step(f, backend, e).process.response)
  {
    match e {
      case Segment(packet, now) =>
        var inserted := InsertSucceeds(backend, f.store, packet);
        assert R.WireMatchesHistory(Counted(f.process, inserted).response);
      case Check(now) =>
        assert R.WireMatchesHistory(Checked(f.process, now).response);
        R.PerformMatchesHistory(Checked(f.process, now).response, R.EncodeWire);
      case SegInit(_) =>
    }
  }

  /** A check sends the present code if and only if nothing is cached, or what is cached was built with that code. */
  lemma {:induction false} CheckIsCurrentIff(p: Process, now: nat)
    requires R.WireMatchesHistory(p.response) && p.response.fields.statusCode.Some?
    ensures var q := Checked(p, now).response;
            R.Returned(q) == Ok(R.Encode(q.fields)) <==>
            p.response.wire.None? || p.response.rebuiltWith == q.fields.statusCode
  {
    R.ReturnedIsCurrentIff(Checked(p, now).response);
  }

  /** A segment has been inserted since the last check; nothing else drops the cached reply. */
  predicate InsertedSinceCheck(f: Fetch, backend: Backend, es: seq<Event>)
  {
    es != [] &&
    match es[|es| - 1]
    case Segment(packet, _) =>
      InsertSucceeds(backend, Run(f, backend, es[..|es| - 1]).store, packet)
      || InsertedSinceCheck(f, backend, es[..|es| - 1])
    case Check(_) => false
    case SegInit(_) => InsertedSinceCheck(f, backend, es[..|es| - 1])
  }

  lemma {:induction false} WireDroppedIff(f: Fetch, backend: Backend, es: seq<Event>)
    requires StatusOk(f) && f.process.response.wire.Some?
    ensures Run(f, backend, es).process.response.wire.None? <==> InsertedSinceCheck(f, backend, es)
  {
    if es != [] {
      WireDroppedIff(f, backend, es[..|es| - 1]);
      StatusMachine(f, backend, es[..|es| - 1], |es| - 1);
    }
  }

  /**
   * An insert without an end block, after any events: a check that finds the deadline expired sets 405, and reports
   * it if and only if a segment has been inserted since the last check, or 405 had been sent before.
   */
  lemma {:induction false} TimeoutIsReportedIff(pid: Uint64, start: Uint64, begun: nat, store: Store, backend: Backend,
                                                es: seq<Event>, now: nat)
    requires now > Run(Start(pid, start, None, begun, store), backend, es).process.noEndTime
    ensures var f := Start(pid, start, None, begun, store);
            var p := Run(f, backend, es).process;
            var q := Checked(p, now).response;
            && q.fields.statusCode == Some(405)
            && (R.Returned(q) == Ok(R.Encode(q.fields)) <==>
                  InsertedSinceCheck(f, backend, es) || p.response.rebuiltWith == Some(405))
  {
    var f := Start(pid, start, None, begun, store);
    var p := Run(f, backend, es).process;
    BeginsWith100Then300(pid, start, None, begun, store);
    StatusMachine(f, backend, es, |es|);
    HistoryIsKept(f, backend, es);
    WireDroppedIff(f, backend, es);
    CheckIsCurrentIff(p, now);
  }

  // ---------- completion ----------

  function NumberOf(p: Packet): nat
  {
    if p.name != [] && p.name[|p.name| - 1].SegmentNo? then p.name[|p.name| - 1].no else 0
  }

  /** What a fetcher that asks for start..end of a name delivers: segments of the range, none of them twice. */
  ghost predicate DistinctSegments(es: seq<Event>, name: Name, start: nat, end: nat)
  {
    && Segmented(es)
    && (forall i :: 0 <= i < |es| && es[i].Segment? ==>
          start <= NumberOf(es[i].packet) <= end && es[i].packet.name == SegmentName(name, NumberOf(es[i].packet)))
    && (forall i, j :: 0 <= i < j < |es| && es[i].Segment? && es[j].Segment? ==>
          NumberOf(es[i].packet) != NumberOf(es[j].packet))
  }

  /** The numbers of the segments whose insertion succeeded. */
  function Inserted(f: Fetch, backend: Backend, es: seq<Event>): set<nat>
  {
    if es == [] then {}
    else
      var init, e := es[..|es| - 1], es[|es| - 1];
      Inserted(f, backend, init) +
      (if e.Segment? && InsertSucceeds(backend, Run(f, backend, init).store, e.packet)
       then {NumberOf(e.packet)} else {})
  }

  ghost predicate IsHeld(backend: Backend, st: Store, es: seq<Event>, no: nat)
  {
    exists i :: 0 <= i < |es| && es[i].Segment? && NumberOf(es[i].packet) == no && Holds(backend, st, es[i].packet)
  }

  lemma {:induction false} HoldsAfterAnother(backend: Backend, st: Store, p: Packet, q: Packet)
    requires Holds(backend, st, p) && p.name != q.name
    ensures Holds(backend, AfterInsert(backend, st, q), p)
  {
  }

  lemma {:induction false} HeldStaysHeld(f: Fetch, backend: Backend, es: seq<Event>, name: Name, start: nat, end: nat,
                                         no: nat)
    requires DistinctSegments(es, name, start, end)
    requires es != [] && IsHeld(backend, Run(f, backend, es[..|es| - 1]).store, es[..|es| - 1], no)
    ensures IsHeld(backend, Run(f, backend, es).store, es, no)
  {
    var init, e := es[..|es| - 1], es[|es| - 1];
    var i :| 0 <= i < |init| && init[i].Segment? && NumberOf(init[i].packet) == no
             && Holds(backend, Run(f, backend, init).store, init[i].packet);
    assert es[i] == init[i];
    if e.Segment? {
      HoldsAfterAnother(backend, Run(f, backend, init).store, es[i].packet, e.packet);
    }
    assert Holds(backend, Run(f, backend, es).store, es[i].packet);
  }

  lemma {:induction false} InsertedAreHeld(f: Fetch, backend: Backend, es: seq<Event>, name: Name, start: nat,
                                           end: nat)
    requires DistinctSegments(es, name, start, end)
    ensures forall no :: no in Inserted(f, backend, es) ==> IsHeld(backend, Run(f, backend, es).store, es, no)
  {
    if es != [] {
      var init, e := es[..|es| - 1], es[|es| - 1];
      InsertedAreHeld(f, backend, init, name, start, end);
      forall no | no in Inserted(f, backend, es) ensures IsHeld(backend, Run(f, backend, es).store, es, no) {
        if no in Inserted(f, backend, init) {
          HeldStaysHeld(f, backend, es, name, start, end, no);
        } else {
          assert es[|es| - 1].Segment? && Holds(backend, Run(f, backend, es).store, e.packet);
        }
      }
    }
  }

  lemma {:induction false} InsertedArrived(f: Fetch, backend: Backend, es: seq<Event>)
    ensures forall no :: no in Inserted(f, backend, es) ==>
              exists i :: 0 <= i < |es| && es[i].Segment? && NumberOf(es[i].packet) == no
  {
    if es != [] {
      var init := es[..|es| - 1];
      InsertedArrived(f, backend, init);
      forall no | no in Inserted(f, backend, es)
        ensures exists i :: 0 <= i < |es| && es[i].Segment? && NumberOf(es[i].packet) == no
      {
        if no in Inserted(f, backend, init) {
          var i :| 0 <= i < |init| && init[i].Segment? && NumberOf(init[i].packet) == no;
          assert es[i] == init[i];
        } else {
          assert NumberOf(es[|es| - 1].packet) == no;
        }
      }
    }
  }

  function Range(lo: nat, hi: nat): (r: set<nat>)
    ensures forall n :: n in r <==> lo <= n < hi
    decreases hi
  {
    if hi <= lo then {} else Range(lo, hi - 1) + {hi - 1}
  }

  lemma {:induction false} RangeSize(lo: nat, hi: nat)
    requires lo <= hi
    ensures |Range(lo, hi)| == hi - lo
    decreases hi
  {
    if lo < hi {
      RangeSize(lo, hi - 1);
    }
  }

  lemma FullSubset(a: set<nat>, b: set<nat>)
    requires a <= b
    ensures |a| <= |b| && (|a| >= |b| ==> a == b)
  {
    var rest := b - a;
    assert b == a + rest && |b| == |a| + |rest|;
  }

  lemma InsertedInRange(f: Fetch, backend: Backend, es: seq<Event>, name: Name, start: nat, end: nat)
    requires DistinctSegments(es, name, start, end) && start <= end
    ensures Inserted(f, backend, es) <= Range(start, end + 1)
    ensures |Inserted(f, backend, es)| <= end - start + 1
    ensures |Inserted(f, backend, es)| >= end - start + 1 ==> Inserted(f, backend, es) == Range(start, end + 1)
  {
    InsertedArrived(f, backend, es);
    RangeSize(start, end + 1);
    FullSubset(Inserted(f, backend, es), Range(start, end + 1));
  }

  /** How many insertions have succeeded, whatever was inserted. */
  function Successes(f: Fetch, backend: Backend, es: seq<Event>): (n: nat)
    ensures n <= |es|
  {
    if es == [] then 0
    else
      var init, e := es[..|es| - 1], es[|es| - 1];
      Successes(f, backend, init) +
      (if e.Segment? && InsertSucceeds(backend, Run(f, backend, init).store, e.packet) then 1 else 0)
  }

  /** The counter is the number of successes, and 200 is set exactly when it reaches the range's size. */
  ghost predicate CountOk(g: Fetch, n: nat, start: Uint64, end: Uint64)
  {
    && g.process.response.fields.startBlockId == Some(start) && g.process.response.fields.endBlockId == Some(end)
    && StatusOk(g) && InsertNum(g.process) == n
    && (Code(g) == Some(200) <==> n >= end - start + 1)
  }

  /** One arrival, on the numbers only. */
  lemma {:induction false} SegmentCounts(p: Process, inserted: bool, now: nat, start: Uint64, end: Uint64)
    requires p.response.fields.startBlockId == Some(start) && p.response.fields.endBlockId == Some(end)
    requires start <= end && end - start + 1 < TWO_64 && (inserted ==> InsertNum(p) + 1 < TWO_64)
    requires p.response.fields.statusCode == Some(200) <==> InsertNum(p) >= end - start + 1
    ensures var q := AfterSegment(p, inserted, now);
            && q.response.fields.startBlockId == Some(start) && q.response.fields.endBlockId == Some(end)
            && InsertNum(q) == InsertNum(p) + (if inserted then 1 else 0)
            && (q.response.fields.statusCode == Some(200) <==> InsertNum(q) >= end - start + 1)
  {
    assert SegmentCount(start, end) == end - start + 1;
  }

  lemma {:induction false} StepCounts(g: Fetch, backend: Backend, e: Event, n: nat, start: Uint64, end: Uint64)
    requires start <= end && end - start + 1 < TWO_64 && CountOk(g, n, start, end)
    requires e.Segment? && InsertSucceeds(backend, g.store, e.packet) ==> n + 1 < TWO_64
    ensures var inserted := e.Segment? && InsertSucceeds(backend, g.store, e.packet);
            CountOk(Step(g, backend, e), n + (if inserted then 1 else 0), start, end)
  {
    StepKeepsStatus(g, backend, e);
    if e.Segment? {
      SegmentCounts(g.process, InsertSucceeds(backend, g.store, e.packet), e.now, start, end);
    }
  }

  lemma {:induction false} StartCounts(pid: Uint64, start: Uint64, end: Uint64, now: nat, store: Store)
    requires start <= end
    ensures CountOk(Start(pid, start, Some(end), now, store), 0, start, end)
  {
    BeginsWith100Then300(pid, start, Some(end), now, store);
  }

  /**
   * Any run, with duplicates, strays and failed insertions in it, as long as the counter does not wrap: it is the
   * number of successful insertions, and the status is 200 if and only if they are as many as the range has segments.
   */
  lemma {:induction false} CompleteIffEnoughSuccesses(pid: Uint64, start: Uint64, end: Uint64, now: nat, store: Store,
                                                      backend: Backend, es: seq<Event>)
    requires start <= end && end - start + 1 < TWO_64
    requires Successes(Start(pid, start, Some(end), now, store), backend, es) < TWO_64
    ensures var f := Start(pid, start, Some(end), now, store);
            CountOk(Run(f, backend, es), Successes(f, backend, es), start, end)
  {
    var f := Start(pid, start, Some(end), now, store);
    if es == [] {
      StartCounts(pid, start, end, now, store);
    } else {
      var init := es[..|es| - 1];
      CompleteIffEnoughSuccesses(pid, start, end, now, store, backend, init);
      StepCounts(Run(f, backend, init), backend, es[|es| - 1], Successes(f, backend, init), start, end);
    }
  }

  /** A success that counts towards the range for the first time. */
  lemma {:induction false} NewNumber(f: Fetch, backend: Backend, es: seq<Event>, name: Name, start: nat, end: nat)
    requires DistinctSegments(es, name, start, end) && es != [] && es[|es| - 1].Segment?
    ensures NumberOf(es[|es| - 1].packet) !in Inserted(f, backend, es[..|es| - 1])
  {
    var init := es[..|es| - 1];
    InsertedArrived(f, backend, init);
    forall i | 0 <= i < |init| && init[i].Segment?
      ensures NumberOf(init[i].packet) != NumberOf(es[|es| - 1].packet)
    {
      assert init[i] == es[i];
    }
  }

  /** There are never fewer successes than numbers inserted, and as many when nothing arrives twice. */
  lemma {:induction false} SuccessesAndNumbers(f: Fetch, backend: Backend, es: seq<Event>)
    ensures |Inserted(f, backend, es)| <= Successes(f, backend, es)
  {
    if es != [] {
      SuccessesAndNumbers(f, backend, es[..|es| - 1]);
    }
  }

  lemma {:induction false} DistinctSuccesses(f: Fetch, backend: Backend, es: seq<Event>, name: Name, start: nat,
                                             end: nat)
    requires DistinctSegments(es, name, start, end)
    ensures |Inserted(f, backend, es)| == Successes(f, backend, es)
  {
    if es != [] {
      DistinctSuccesses(f, backend, es[..|es| - 1], name, start, end);
      if es[|es| - 1].Segment? {
        NewNumber(f, backend, es, name, start, end);
      }
    }
  }

  lemma {:induction false} EnoughOrMissing(got: set<nat>, n: nat, start: nat, end: nat)
    requires start <= end && |got| <= n
    ensures Range(start, end + 1) <= got ==> n >= end - start + 1
    ensures n >= end - start + 1 && !(Range(start, end + 1) <= got) ==> n > |got| || !(got <= Range(start, end + 1))
  {
    var range := Range(start, end + 1);
    RangeSize(start, end + 1);
    if got <= range {
      FullSubset(got, range);
    }
    if range <= got {
      FullSubset(range, got);
    }
  }

  /**
   * Completion comes too early, with a segment of the range not inserted, only when something was inserted twice, or
   * something outside the range; and it never comes too late.
   */
  lemma {:induction false} PrematureIff(pid: Uint64, start: Uint64, end: Uint64, now: nat, store: Store,
                                        backend: Backend, es: seq<Event>, got: set<nat>)
    requires start <= end && end - start + 1 < TWO_64
    requires Successes(Start(pid, start, Some(end), now, store), backend, es) < TWO_64
    requires got == Inserted(Start(pid, start, Some(end), now, store), backend, es)
    ensures var f := Start(pid, start, Some(end), now, store);
            var complete, n := Code(Run(f, backend, es)) == Some(200), Successes(f, backend, es);
            && (complete && !(Range(start, end + 1) <= got) ==> n > |got| || !(got <= Range(start, end + 1)))
            && (Range(start, end + 1) <= got ==> complete)
  {
    var f := Start(pid, start, Some(end), now, store);
    CompleteIffEnoughSuccesses(pid, start, end, now, store, backend, es);
    SuccessesAndNumbers(f, backend, es);
    EnoughOrMissing(got, Successes(f, backend, es), start, end);
  }

  lemma {:induction false} CountMeansAll(f: Fetch, backend: Backend, es: seq<Event>, name: Name, start: Uint64,
                                         end: Uint64)
    requires DistinctSegments(es, name, start, end) && start <= end
    requires CountOk(Run(f, backend, es), Successes(f, backend, es), start, end)
    ensures Code(Run(f, backend, es)) == Some(200) <==> Inserted(f, backend, es) == Range(start, end + 1)
    ensures Code(Run(f, backend, es)) == Some(200) ==>
              forall no: nat :: start <= no <= end ==> IsHeld(backend, Run(f, backend, es).store, es, no)
  {
    DistinctSuccesses(f, backend, es, name, start, end);
    InsertedInRange(f, backend, es, name, start, end);
    var got := Inserted(f, backend, es);
    EnoughIsAll(got, start, end);
    InsertedAreHeld(f, backend, es, name, start, end);
  }

  lemma {:induction false} EnoughIsAll(got: set<nat>, start: nat, end: nat)
    requires start <= end && got <= Range(start, end + 1)
    ensures |got| >= end - start + 1 <==> got == Range(start, end + 1)
  {
    RangeSize(start, end + 1);
    FullSubset(got, Range(start, end + 1));
  }

  /**
   * Completion: when the fetcher delivers distinct segments of start..end and the range's size fits 64 bits, the
   * status is 200 if and only if every segment of the range was inserted, and then every one is in the store.
   */
  lemma {:induction false} CompleteIffAllInserted(pid: Uint64, name: Name, start: Uint64, end: Uint64, now: nat,
                                                  store: Store, backend: Backend, es: seq<Event>)
    requires start <= end && end - start + 1 < TWO_64 && DistinctSegments(es, name, start, end)
    ensures var f := Start(pid, start, Some(end), now, store);
            && (Code(Run(f, backend, es)) == Some(200) <==> Inserted(f, backend, es) == Range(start, end + 1))
            && (Code(Run(f, backend, es)) == Some(200) ==>
                  forall no: nat :: start <= no <= end ==> IsHeld(backend, Run(f, backend, es).store, es, no))
  {
    var f := Start(pid, start, Some(end), now, store);
    DistinctSuccesses(f, backend, es, name, start, end);
    InsertedInRange(f, backend, es, name, start, end);
    CompleteIffEnoughSuccesses(pid, start, end, now, store, backend, es);
    CountMeansAll(f, backend, es, name, start, end);
  }

  /** One packet over and over again completes a range of any size; no segment but its own is then in the store. */
  lemma {:induction false} DuplicatesCompleteTooEarly(pid: Uint64, start: Uint64, end: Uint64, now: nat, store: Store,
                                                      backend: Backend, p: Packet, es: seq<Event>)
    requires start <= end && end - start + 1 < TWO_64 && backend.accepts(p)
    requires |es| == end - start + 1 && forall i :: 0 <= i < |es| ==> es[i].Segment? && es[i].packet == p
    ensures var f := Start(pid, start, Some(end), now, store);
            && Code(Run(f, backend, es)) == Some(200)
            && forall no :: no != NumberOf(p) ==> !IsHeld(backend, Run(f, backend, es).store, es, no)
  {
    var f := Start(pid, start, Some(end), now, store);
    AllSucceed(f, backend, es, p);
    CompleteIffEnoughSuccesses(pid, start, end, now, store, backend, es);
  }

  lemma {:induction false} AllSucceed(f: Fetch, backend: Backend, es: seq<Event>, p: Packet)
    requires backend.accepts(p) && forall i :: 0 <= i < |es| ==> es[i].Segment? && es[i].packet == p
    ensures Successes(f, backend, es) == |es|
  {
    if es != [] {
      AllSucceed(f, backend, es[..|es| - 1], p);
    }
  }

  /** And a range of all 2^64 block ids counts as zero segments: anything that arrives completes it. */
  lemma WholeIdSpaceCompletesAtOnce(pid: Uint64, now: nat, store: Store, backend: Backend, p: Packet)
    ensures var f := Start(pid, 0, Some(TWO_64 - 1), now, store);
            Code(Step(f, backend, Segment(p, now))) == Some(200)
  {
    assert SegmentCount(0, TWO_64 - 1) == 0;
  }

  // ---------- the object ----------

  /** The text after the last slash; the whole text when there is none. */
  function AfterLastSlash(text: string): string
  {
    if text == "" then ""
    else if text[|text| - 1] == '/' then ""
    else AfterLastSlash(text[..|text| - 1]) + [text[|text| - 1]]
  }

  function ManifestToWrite(info: InfoJson, repo: string): Manifest
  {
    var m := ManifestOfInfo(info);
    AppendRepo(Manifest("/" + AfterLastSlash(m.name), "", [], m.startBlockId, m.endBlockId),
               repo, m.startBlockId, m.endBlockId)
  }

  function NegativeReply(code: R.Uint32): Wire
  {
    Ok(R.Encode(R.NO_FIELDS.(statusCode := Some(code))))
  }

  /** A negative reply decodes to its code and nothing else. */
  lemma {:induction false} NegativeReplyDecodes(code: R.Uint32)
    ensures NegativeReply(code).Ok?
    ensures match ReadElement(NegativeReply(code).value)
            case None => false
            case Some((block, n)) =>
              n == |NegativeReply(code).value|
              && R.Decode(block) == Ok(R.Fields(None, Some(code), None, None, None, None))
  {
    R.RoundTripIff(R.NO_FIELDS.(statusCode := Some(code)), []);
    assert NegativeReply(code).value + [] == NegativeReply(code).value;
  }

  /** What follows the last slash: it has none itself, and it is the whole text or one stands before it. */
  lemma {:induction false} AfterLastSlashIff(text: string, last: string)
    ensures last == AfterLastSlash(text) <==>
            '/' !in last && (text == last || exists k :: 0 <= k < |text| && text[k] == '/' && text[k + 1..] == last)
  {
    LastComponent(text);
    if '/' !in last {
      if text == last {
        OneLastComponent(text, 0, last);
      } else if k :| 0 <= k < |text| && text[k] == '/' && text[k + 1..] == last {
        OneLastComponent(text, k + 1, last);
      }
    }
  }

  lemma {:induction false} LastComponent(text: string)
    ensures var last := AfterLastSlash(text);
            '/' !in last && (text == last || exists k :: 0 <= k < |text| && text[k] == '/' && text[k + 1..] == last)
  {
    if text != "" && text[|text| - 1] != '/' {
      var init := text[..|text| - 1];
      LastComponent(init);
      if k :| 0 <= k < |init| && init[k] == '/' && init[k + 1..] == AfterLastSlash(init) {
        assert text[k] == '/' && text[k + 1..] == AfterLastSlash(text);
      } else {
        assert text == AfterLastSlash(text);
      }
    } else if text != "" {
      assert text[|text|..] == "";
    }
  }

  lemma {:induction false} OneLastComponent(text: string, from: nat, last: string)
    requires from <= |text| && text[from..] == last && '/' !in last && (from == 0 || text[from - 1] == '/')
    ensures AfterLastSlash(text) == last
    decreases |text|
  {
    if from < |text| {
      var init := text[..|text| - 1];
      assert text[|text| - 1] == last[|last| - 1];
      assert init[from..] == last[..|last| - 1];
      OneLastComponent(init, from, last[..|last| - 1]);
    }
  }

  datatype InfoReply = NoReply | NullManifest | Info(json: Json)

  class WriteHandle {
    const storage: RepoStorage
    const repoPrefix: string
    var processes: map<Uint64, Process>

    constructor (storage: RepoStorage, repoPrefix: string)
      ensures this.storage == storage && this.repoPrefix == repoPrefix && processes == map[]
    {
      this.storage, this.repoPrefix := storage, repoPrefix;
      processes := map[];
    }

    /** operator[] on m_processes. */
    function ProcessOf(pid: Uint64): Process
      reads this
    {
      if pid in processes then processes[pid] else FRESH
    }

    method SegInit(pid: Uint64, hasEnd: bool, now: nat)
      modifies this`processes
      ensures processes == old(processes)[pid := SegInitiated(old(ProcessOf(pid)), hasEnd, now)]
    {
      var process := ProcessOf(pid);
      if !hasEnd {
        process := process.(noEndTime := now + NOEND_TIMEOUT);
      }
      processes := processes[pid := process];
    }

    method ProcessSegmentedInsertCommand(startBlockId: Option<Uint64>, endBlockId: Option<Uint64>, pid: Uint64,
                                         now: nat)
      returns (reply: Wire)
      modifies this`processes
      ensures var start := if startBlockId.Some? then startBlockId.value else 0;
              if endBlockId.Some? && start > endBlockId.value then
                reply == NegativeReply(403) && processes == old(processes)
              else
                && processes == old(processes)[pid := Begun(old(ProcessOf(pid)), pid, start, endBlockId, now)]
                && reply == R.Returned(Announced(old(ProcessOf(pid)), pid, start, endBlockId).response)
    {
      var start := if startBlockId.Some? then startBlockId.value else 0;
      if endBlockId.Some? && start > endBlockId.value {
        return NegativeReply(403);
      }
      var process := WithRange(Started(ProcessOf(pid), pid), start, endBlockId);
      process := Encoded(process);
      reply := R.Returned(process.response);
      process := WithCode(process, 300);
      processes := processes[pid := process];
      SegInit(pid, endBlockId.Some?, now);
    }

    /** The manifest is fetched next; no range is recorded in the response. */
    method ProcessSingleInsertCommand(pid: Uint64) returns (reply: Wire)
      modifies this`processes
      ensures processes == old(processes)[pid := WithCode(Encoded(Started(old(ProcessOf(pid)), pid)), 300)]
      ensures reply == R.Returned(Encoded(Started(old(ProcessOf(pid)), pid)).response)
    {
      var process := Encoded(Started(ProcessOf(pid), pid));
      reply := R.Returned(process.response);
      processes := processes[pid := WithCode(process, 300)];
    }

    /** A manifest that exists already is refused; otherwise the parameters decide the kind of insert. */
    method OnFindResponse(found: bool, startBlockId: Option<Uint64>, endBlockId: Option<Uint64>, pid: Uint64, now: nat)
      returns (reply: Wire)
      modifies this`processes
      ensures found ==> reply == NegativeReply(403) && processes == old(processes)
      ensures !found && startBlockId.None? && endBlockId.None? ==>
                processes == old(processes)[pid := WithCode(Encoded(Started(old(ProcessOf(pid)), pid)), 300)]
      ensures !found && (startBlockId.Some? || endBlockId.Some?) ==>
                var start := if startBlockId.Some? then startBlockId.value else 0;
                if endBlockId.Some? && start > endBlockId.value then
                  reply == NegativeReply(403) && processes == old(processes)
                else
                  && processes == old(processes)[pid := Begun(old(ProcessOf(pid)), pid, start, endBlockId, now)]
                  && reply == R.Returned(Announced(old(ProcessOf(pid)), pid, start, endBlockId).response)
    {
      if found {
        return NegativeReply(403);
      }
      if startBlockId.Some? || endBlockId.Some? {
        reply := ProcessSegmentedInsertCommand(startBlockId, endBlockId, pid, now);
      } else {
        reply := ProcessSingleInsertCommand(pid);
      }
    }

    /** The manifest of a single insert: announced once to the owner of its key, then the segments are fetched. */
    method OnDataValidated(pid: Uint64, info: InfoJson, table: Table, now: nat)
      returns (create: Option<(Result<string, RouteError>, string)>)
      modifies this`processes
      ensures pid !in old(processes) ==> create == None && processes == old(processes)
      ensures pid in old(processes) ==>
                var m := ManifestToWrite(info, repoPrefix);
                var key := KeyOfName(m.name, storage.backend.sha1);
                var p := old(processes)[pid];
                if p.manifestSent then
                  create == None && processes == old(processes)[pid := SegInitiated(p, false, now)]
                else
                  && create == Some((Route(table, key), key))
                  && processes == old(processes)[pid :=
                       SegInitiated(p.(manifestSent := true, manifest := Some(m)), false, now)]
    {
      create := None;
      if pid !in processes {
        return;
      }
      var process := processes[pid];
      if !process.manifestSent {
        var m := ManifestToWrite(info, repoPrefix);
        var hash := HashOfName(m.name, storage.backend.sha1);
        var to := GetManifestStorage(table, hash);
        create := Some((to, hash));
        process := process.(manifestSent := true, manifest := Some(m));
      }
      processes := processes[pid := process];
      SegInit(pid, false, now);
    }

    method OnSegmentData(packet: Packet, pid: Uint64, now: nat) returns (stop: bool, deletionScheduled: bool)
      modifies this`processes, storage
      ensures pid !in old(processes) ==>
                stop && !deletionScheduled && processes == old(processes) && storage.View() == old(storage.View())
      ensures pid in old(processes) ==>
                var inserted := InsertSucceeds(storage.backend, old(storage.View()), packet);
                && storage.View() == AfterInsert(storage.backend, old(storage.View()), packet)
                && processes == old(processes)[pid := AfterSegment(old(processes)[pid], inserted, now)]
                && stop == deletionScheduled == Verdict(Counted(old(processes)[pid], inserted), now).Some?
      ensures pid in old(processes) && old(processes)[pid].response.fields.endBlockId.None? ==>
                (stop <==> now > old(processes)[pid].noEndTime)
    {
      if pid !in processes {
        return true, false;
      }
      var process := processes[pid];
      var inserted := storage.InsertData(packet);
      if inserted {
        process := Counted(process, true);
      }
      stop, deletionScheduled := false, false;
      if process.response.fields.endBlockId.None? {
        if now > process.noEndTime {
          process := WithCode(process, 405);
          stop, deletionScheduled := true, true;
        }
      } else {
        var nSegments := SegmentCount(StartOf(process), process.response.fields.endBlockId.value);
        if InsertNum(process) >= nSegments {
          process := WithCode(process, 200);
          stop, deletionScheduled := true, true;
        }
      }
      processes := processes[pid := process];
    }

    method HandleCheckCommand(pid: Uint64, now: nat) returns (reply: Wire)
      modifies this`processes
      ensures pid !in old(processes) ==> reply == NegativeReply(404) && processes == old(processes)
      ensures pid in old(processes) ==>
                && reply == R.Returned(Checked(old(processes)[pid], now).response)
                && processes == old(processes)[pid := Encoded(Checked(old(processes)[pid], now))]
    {
      if pid !in processes {
        return NegativeReply(404);
      }
      var process := processes[pid];
      if process.response.fields.endBlockId.None? {
        process := ExtendNoEndTime(process, now);
      }
      reply := R.Returned(process.response);
      processes := processes[pid := Encoded(process)];
    }

    method ExtendNoEndTime(process: Process, now: nat) returns (p: Process)
      ensures p == Extended(process, now)
    {
      p := process;
      if now > p.noEndTime {
        p := WithCode(p, 405);
        return;
      }
      p := p.(noEndTime := now + NOEND_TIMEOUT);
    }

    /** Also what a timeout of the manifest fetch does. */
    method DeleteProcess(pid: Uint64)
      modifies this`processes
      ensures processes == old(processes) - {pid}
    {
      processes := processes - {pid};
    }

    /** write-info: the manifest that was announced; before that, the source follows a null pointer. */
    method HandleInfoCommand(pid: Uint64) returns (reply: InfoReply)
      ensures pid !in processes ==> reply == NoReply
      ensures pid in processes ==>
                reply == match processes[pid].manifest
                         case None => NullManifest
                         case Some(m) => Info(JsonOf(m, storage.backend.sha1))
    {
      if pid !in processes {
        return NoReply;
      }
      var manifest := processes[pid].manifest;
      if manifest.None? {
        return NullManifest;
      }
      var json := ToJson(manifest.value, storage.backend.sha1);
      reply := Info(json);
    }
  }
}
