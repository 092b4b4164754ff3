/** src/handles/tcp-bulk-insert-handle.cpp: reassembly of TLV elements from a byte stream in one fixed buffer. */
module TcpFraming {
  import opened Options
  import opened Tlv
  import opened Ndn
  import opened Storage

  const MAX_NDN_PACKET_SIZE: nat := 8800
  const DATA: nat := 6

  // ---------- what a stream means ----------

  /** The complete elements at the head of `s`, and what follows them. */
  function Drain(s: Bytes): (r: (seq<Element>, Bytes))
    decreases |s|
  {
    match ReadElement(s)
    case None => ([], s)
    case Some((e, n)) =>
      if n == 0 || n > |s| then ([], s)
      else var (es, rest) := Drain(s[n..]); ([e] + es, rest)
  }

  /** `es` is a framing of `s` with remainder `rest`: nothing is lost, and `rest` starts with no complete element. */
  ghost predicate IsFraming(s: Bytes, es: seq<Element>, rest: Bytes)
  {
    && AllOk(es)
    && s == Concat(es) + rest
    && forall e :: ElementOk(e) ==> !(EncodeElement(e) <= rest)
  }

  lemma NothingReadIff(rest: Bytes)
    ensures ReadElement(rest).None? <==> forall e :: ElementOk(e) ==> !(EncodeElement(e) <= rest)
  {
    if ReadElement(rest).Some? {
      ReadElementIsCanonical(rest);
      assert EncodeElement(ReadElement(rest).value.0) <= rest;
    } else {
      forall e | ElementOk(e) ensures !(EncodeElement(e) <= rest) {
        ReadElementIff(rest, e, |EncodeElement(e)|);
      }
    }
  }

  lemma FramingCons(e: Element, s: Bytes, es: seq<Element>, rest: Bytes)
    requires ElementOk(e) && IsFraming(s, es, rest)
    ensures IsFraming(EncodeElement(e) + s, [e] + es, rest)
  {
    ConcatCons(e, es);
    Assoc(EncodeElement(e), Concat(es), rest);
  }

  lemma {:induction false} FramingOfRest(s: Bytes, e: Element, n: nat, es: seq<Element>, rest: Bytes)
    requires ElementOk(e) && n <= |s| && s[..n] == EncodeElement(e) && IsFraming(s[n..], es, rest)
    ensures IsFraming(s, [e] + es, rest)
  {
    FramingCons(e, s[n..], es, rest);
    assert s == s[..n] + s[n..];
  }

  lemma DrainStep(rest: Bytes)
    requires ReadElement(rest).Some?
    ensures var (e, n) := ReadElement(rest).value;
            && ElementOk(e) && 0 < n <= |rest| && rest[..n] == EncodeElement(e)
            && Drain(rest) == ([e] + Drain(rest[n..]).0, Drain(rest[n..]).1)
  {
    ReadElementIsCanonical(rest);
  }

  lemma {:induction false} DrainIsFraming(s: Bytes)
    ensures IsFraming(s, Drain(s).0, Drain(s).1)
    decreases |s|
  {
    if ReadElement(s).None? {
      NothingReadIff(s);
      assert Concat([]) + s == s;
    } else {
      var (e, n) := ReadElement(s).value;
      DrainStep(s);
      DrainIsFraming(s[n..]);
      FramingOfRest(s, e, n, Drain(s[n..]).0, Drain(s[n..]).1);
    }
  }

  /** A stream has one framing only: the elements and the remainder are determined by the bytes. */
  lemma {:induction false} FramingIsDrain(s: Bytes, es: seq<Element>, rest: Bytes)
    requires IsFraming(s, es, rest)
    ensures Drain(s) == (es, rest)
  {
    if es == [] {
      assert s == rest;
      NothingReadIff(rest);
    } else {
      var e, tail := es[0], es[1..];
      assert es == [e] + tail;
      ConcatCons(e, tail);
      assert s == EncodeElement(e) + (Concat(tail) + rest);
      ReadElementOfEncoding(e, Concat(tail) + rest);
      assert s[|EncodeElement(e)|..] == Concat(tail) + rest;
      FramingIsDrain(Concat(tail) + rest, tail, rest);
    }
  }

  lemma FramingAppend(s: Bytes, es: seq<Element>, rest: Bytes, more: Bytes, fs: seq<Element>, rest': Bytes)
    requires IsFraming(s, es, rest) && IsFraming(rest + more, fs, rest')
    ensures IsFraming(s + more, es + fs, rest')
  {
    ConcatAppend(es, fs);
    Assoc(Concat(es), rest, more);
    Assoc(Concat(es), Concat(fs), rest');
  }

  /** Draining a stream in two parts: only the remainder of the first part matters for the second. */
  lemma {:induction false} DrainAppend(s: Bytes, more: Bytes)
    ensures var (es, rest) := Drain(s);
            var (fs, rest') := Drain(rest + more);
            Drain(s + more) == (es + fs, rest')
  {
    var (es, rest) := Drain(s);
    var (fs, rest') := Drain(rest + more);
    DrainIsFraming(s);
    DrainIsFraming(rest + more);
    FramingAppend(s, es, rest, more, fs, rest');
    FramingIsDrain(s + more, es + fs, rest');
  }

  /** The Data packets among the elements, in order; an element of type Data that does not decode is skipped. */
  function Decodable(es: seq<Element>, decode: Element -> Option<Packet>): seq<Packet>
  {
    if es == [] then []
    else
      var last := es[|es| - 1];
      Decodable(es[..|es| - 1], decode) +
      (if last.typ == DATA && decode(last).Some? then [decode(last).value] else [])
  }

  /** `parsed` has been taken off the front of `s`, and `rest` is still to be framed. */
  ghost predicate Parsed(s: Bytes, parsed: seq<Element>, rest: Bytes)
  {
    Drain(s).0 == parsed + Drain(rest).0 && Drain(s).1 == Drain(rest).1
  }

  lemma ParsedStep(s: Bytes, parsed: seq<Element>, rest: Bytes)
    requires Parsed(s, parsed, rest) && ReadElement(rest).Some?
    ensures var (e, n) := ReadElement(rest).value;
            0 < n <= |rest| && Parsed(s, parsed + [e], rest[n..])
  {
    var (e, n) := ReadElement(rest).value;
    DrainStep(rest);
    var tail := Drain(rest[n..]).0;
    assert parsed + ([e] + tail) == (parsed + [e]) + tail;
  }

  lemma ParsedEnd(s: Bytes, parsed: seq<Element>, rest: Bytes)
    requires Parsed(s, parsed, rest) && ReadElement(rest).None?
    ensures Drain(s) == (parsed, rest)
  {
    assert parsed + [] == parsed;
  }

  lemma DrainLeavesSuffix(s: Bytes)
    ensures |Drain(s).1| <= |s| && Drain(s).1 == s[|s| - |Drain(s).1|..]
  {
    DrainIsFraming(s);
  }

  /** What one complete element does to the store. */
  function AfterElement(backend: Backend, st: Store, e: Element, decode: Element -> Option<Packet>): Store
  {
    if e.typ == DATA && decode(e).Some? then AfterInsert(backend, st, decode(e).value) else st
  }

  function AfterElements(backend: Backend, st: Store, es: seq<Element>, decode: Element -> Option<Packet>): Store
  {
    if es == [] then st
    else AfterElement(backend, AfterElements(backend, st, es[..|es| - 1], decode), es[|es| - 1], decode)
  }

  lemma {:induction false} AfterElementsAppend(backend: Backend, st: Store, es: seq<Element>, fs: seq<Element>,
                                               decode: Element -> Option<Packet>)
    ensures AfterElements(backend, st, es + fs, decode) ==
            AfterElements(backend, AfterElements(backend, st, es, decode), fs, decode)
  {
    if fs == [] {
      assert es + fs == es;
    } else {
      AfterElementsAppend(backend, st, es, fs[..|fs| - 1], decode);
      assert (es + fs)[..|es + fs| - 1] == es + fs[..|fs| - 1];
    }
  }

  /** Handling elements one by one inserts the decodable Data packets among them, in order. */
  lemma {:induction false} ElementsInsertDecodable(backend: Backend, st: Store, es: seq<Element>,
                                                   decode: Element -> Option<Packet>)
    ensures AfterElements(backend, st, es, decode) == InsertAll(backend, st, Decodable(es, decode))
  {
    if es != [] {
      var init, last := es[..|es| - 1], es[|es| - 1];
      ElementsInsertDecodable(backend, st, init, decode);
      var d := Decodable(init, decode);
      if last.typ == DATA && decode(last).Some? {
        var p := decode(last).value;
        assert Decodable(es, decode) == d + [p];
        assert (d + [p])[..|d|] == d;
      } else {
        assert Decodable(es, decode) == d + [] == d;
      }
    }
  }

  // ---------- one receive, as a step on values ----------

  datatype Status = Receiving | Closed | Cancelled

  datatype Conn = Conn(status: Status, pending: Bytes, store: Store)

  /** handleReceive without an error, after `fragment` was placed behind the pending bytes. */
  function Receive(c: Conn, fragment: Bytes, backend: Backend, decode: Element -> Option<Packet>): Conn
  {
    if c.status != Receiving then c
    else
      var s := c.pending + fragment;
      var (es, rest) := Drain(s);
      Conn(if es == [] && |s| == MAX_NDN_PACKET_SIZE then Closed else Receiving,
           rest, AfterElements(backend, c.store, es, decode))
  }

  function ReceiveAll(c: Conn, fragments: seq<Bytes>, backend: Backend, decode: Element -> Option<Packet>): Conn
  {
    if fragments == [] then c
    else Receive(ReceiveAll(c, fragments[..|fragments| - 1], backend, decode), fragments[|fragments| - 1],
                 backend, decode)
  }

  function Flatten(fragments: seq<Bytes>): Bytes
  {
    if fragments == [] then [] else Flatten(fragments[..|fragments| - 1]) + fragments[|fragments| - 1]
  }

  function NewConnection(store: Store): Conn
  {
    Conn(Receiving, [], store)
  }

  /**
   * Fragmentation independence: while the connection is open, the buffer and the store are functions of the
   * bytes received so far, whatever the cutting.
   */
  lemma {:induction false} FragmentationIndependence(store: Store, fragments: seq<Bytes>, backend: Backend,
                                                     decode: Element -> Option<Packet>)
    ensures var c := ReceiveAll(NewConnection(store), fragments, backend, decode);
            var (es, rest) := Drain(Flatten(fragments));
            c.status == Receiving ==>
              c.pending == rest && c.store == InsertAll(backend, store, Decodable(es, decode))
  {
    if fragments == [] {
      assert Drain([]) == ([], []);
    } else {
      var init, last := fragments[..|fragments| - 1], fragments[|fragments| - 1];
      FragmentationIndependence(store, init, backend, decode);
      var c := ReceiveAll(NewConnection(store), init, backend, decode);
      if c.status == Receiving {
        var (es, rest) := Drain(Flatten(init));
        var (fs, rest') := Drain(rest + last);
        DrainAppend(Flatten(init), last);
        ElementsInsertDecodable(backend, store, es, decode);
        AfterElementsAppend(backend, store, es, fs, decode);
        ElementsInsertDecodable(backend, store, es + fs, decode);
      }
    }
  }

  lemma {:induction false} DecodableIff(es: seq<Element>, decode: Element -> Option<Packet>, p: Packet)
    ensures p in Decodable(es, decode) <==> exists i :: 0 <= i < |es| && es[i].typ == 6 && decode(es[i]) == Some(p)
  {
    if es != [] {
      var init := es[..|es| - 1];
      DecodableIff(init, decode, p);
      assert forall i :: 0 <= i < |init| ==> init[i] == es[i];
    }
  }

  /**
   * What a stream leaves in the store: each packet was there before or is one of the Data packets received, and of the
   * insertions that went through the last one under each name is held, unchanged.
   */
  lemma {:induction false} StreamIsStoredUnchanged(store: Store, fragments: seq<Bytes>, backend: Backend,
                                                   decode: Element -> Option<Packet>)
    requires ReceiveAll(NewConnection(store), fragments, backend, decode).status == Receiving
    ensures var st := ReceiveAll(NewConnection(store), fragments, backend, decode).store;
            var es := Drain(Flatten(fragments)).0;
            var ps := Decodable(es, decode);
            && (forall name :: name in st.packets ==>
                  || (name in store.packets && st.packets[name] == store.packets[name])
                  || (st.packets[name].name == name && exists i ::
                        0 <= i < |es| && es[i].typ == 6 && decode(es[i]) == Some(st.packets[name])))
            && (forall i :: 0 <= i < |ps| && IsLast(backend, store, ps, i) ==>
                  ps[i].name in st.packets && st.packets[ps[i].name] == ps[i])
            && st.signals == store.signals + KeptNames(backend, store, ps)
  {
    FragmentationIndependence(store, fragments, backend, decode);
    var es := Drain(Flatten(fragments)).0;
    var ps := Decodable(es, decode);
    LastInsertionIsHeld(backend, store, ps);
    forall name | name in InsertAll(backend, store, ps).packets
      ensures var p := InsertAll(backend, store, ps).packets[name];
              (name in store.packets && p == store.packets[name])
              || (p.name == name && exists i :: 0 <= i < |es| && es[i].typ == 6 && decode(es[i]) == Some(p))
    {
      OnlyInsertedIsNew(backend, store, ps, name);
      DecodableIff(es, decode, InsertAll(backend, store, ps).packets[name]);
    }
  }

  /** Two cuttings of one stream that both stay open end in the same state. */
  lemma SameStreamSameState(store: Store, xs: seq<Bytes>, ys: seq<Bytes>, backend: Backend,
                            decode: Element -> Option<Packet>)
    requires Flatten(xs) == Flatten(ys)
    requires ReceiveAll(NewConnection(store), xs, backend, decode).status == Receiving
    requires ReceiveAll(NewConnection(store), ys, backend, decode).status == Receiving
    ensures ReceiveAll(NewConnection(store), xs, backend, decode) ==
            ReceiveAll(NewConnection(store), ys, backend, decode)
  {
    FragmentationIndependence(store, xs, backend, decode);
    FragmentationIndependence(store, ys, backend, decode);
  }

  lemma PrefixWithin(p: Bytes, s: Bytes, more: Bytes)
    requires p <= s + more
    ensures |p| <= |s| ==> p <= s
  {
  }

  /** No continuation of `s` completes the element at its head within the buffer's size. */
  ghost predicate HeadCannotFit(s: Bytes)
  {
    forall e, more :: ElementOk(e) && EncodeElement(e) <= s + more ==> |EncodeElement(e)| > MAX_NDN_PACKET_SIZE
  }

  lemma HeadCannotFitIff(s: Bytes)
    requires |s| == MAX_NDN_PACKET_SIZE
    ensures HeadCannotFit(s) <==> Drain(s).0 == []
  {
    if Drain(s).0 == [] {
      NothingReadIff(s);
      forall e, more | ElementOk(e) && EncodeElement(e) <= s + more
        ensures |EncodeElement(e)| > MAX_NDN_PACKET_SIZE
      {
        PrefixWithin(EncodeElement(e), s, more);
      }
    } else {
      var e := ReadElement(s).value.0;
      ReadElementIsCanonical(s);
      assert EncodeElement(e) <= s + [];
    }
  }

  lemma DrainShortens(s: Bytes)
    ensures if Drain(s).0 == [] then Drain(s).1 == s else |Drain(s).1| < |s|
  {
    DrainIsFraming(s);
    if Drain(s).0 != [] {
      assert |EncodeElement(Drain(s).0[0])| > 0;
    }
  }

  /**
   * The size check closes a connection exactly when the buffer is full and its head element cannot fit in it;
   * otherwise the re-armed receive has room for at least one byte.
   */
  lemma ClosesExactlyWhenHeadCannotFit(c: Conn, fragment: Bytes, backend: Backend, decode: Element -> Option<Packet>)
    requires c.status == Receiving && |c.pending| + |fragment| <= MAX_NDN_PACKET_SIZE
    ensures var c' := Receive(c, fragment, backend, decode);
            && (c'.status == Closed <==>
                  |c.pending + fragment| == MAX_NDN_PACKET_SIZE && HeadCannotFit(c.pending + fragment))
            && (c'.status == Receiving <==> |c'.pending| < MAX_NDN_PACKET_SIZE)
  {
    var s := c.pending + fragment;
    DrainShortens(s);
    if |s| == MAX_NDN_PACKET_SIZE {
      HeadCannotFitIff(s);
    }
  }

  ghost predicate AllFit(es: seq<Element>)
  {
    AllOk(es) && forall i :: 0 <= i < |es| ==> |EncodeElement(es[i])| <= MAX_NDN_PACKET_SIZE
  }

  lemma SameHead(es: seq<Element>, done: seq<Element>, tail: Bytes)
    requires es != [] && done != [] && AllOk(es) && AllOk(done) && Concat(es) == Concat(done) + tail
    ensures Concat(es[1..]) == Concat(done[1..]) + tail
  {
    var e, d := es[0], done[0];
    assert es == [e] + es[1..] && done == [d] + done[1..];
    ConcatCons(e, es[1..]);
    ConcatCons(d, done[1..]);
    Assoc(EncodeElement(d), Concat(done[1..]), tail);
    HeadIsUnique(e, Concat(es[1..]), d, Concat(done[1..]) + tail);
  }

  lemma FirstFits(es: seq<Element>, rest: Bytes, after: Bytes)
    requires es != [] && AllFit(es) && Concat(es) == rest + after
    requires forall e :: ElementOk(e) ==> !(EncodeElement(e) <= rest)
    ensures |rest| < MAX_NDN_PACKET_SIZE
  {
    assert es == [es[0]] + es[1..];
    ConcatCons(es[0], es[1..]);
    PrefixWithin(EncodeElement(es[0]), rest, after);
  }

  /** Bytes that begin inside the encoding of a list of fitting elements never look like an oversized head. */
  lemma {:induction false} PartialHeadIsSmall(es: seq<Element>, done: seq<Element>, rest: Bytes, after: Bytes)
    requires AllFit(es) && AllOk(done)
    requires Concat(es) == Concat(done) + (rest + after)
    requires forall e :: ElementOk(e) ==> !(EncodeElement(e) <= rest)
    ensures |rest| < MAX_NDN_PACKET_SIZE
    decreases |done|
  {
    if es == [] {
      assert |rest| == 0;
    } else if done == [] {
      assert Concat(done) + (rest + after) == rest + after;
      FirstFits(es, rest, after);
    } else {
      SameHead(es, done, rest + after);
      PartialHeadIsSmall(es[1..], done[1..], rest, after);
    }
  }

  /** A stream made of elements that each fit in the buffer never closes the connection, however it is cut. */
  lemma {:induction false} FittingStreamStaysOpen(store: Store, fragments: seq<Bytes>, es: seq<Element>, after: Bytes,
                                                  backend: Backend, decode: Element -> Option<Packet>)
    requires AllFit(es) && Concat(es) == Flatten(fragments) + after
    ensures ReceiveAll(NewConnection(store), fragments, backend, decode).status == Receiving
  {
    if fragments != [] {
      var init, last := fragments[..|fragments| - 1], fragments[|fragments| - 1];
      Assoc(Flatten(init), last, after);
      FittingStreamStaysOpen(store, init, es, last + after, backend, decode);
      FragmentationIndependence(store, init, backend, decode);
      FittingRemainder(Flatten(init), last, es, after);
    }
  }

  lemma FittingRemainder(before: Bytes, last: Bytes, es: seq<Element>, after: Bytes)
    requires AllFit(es) && Concat(es) == (before + last) + after
    ensures |Drain(Drain(before).1 + last).1| < MAX_NDN_PACKET_SIZE
  {
    var (done, rest) := Drain(before);
    var (fs, rest') := Drain(rest + last);
    DrainAppend(before, last);
    DrainIsFraming(before + last);
    Assoc(Concat(done + fs), rest', after);
    PartialHeadIsSmall(es, done + fs, rest', after);
  }

  /** Once such a stream has arrived completely, all its decodable Data packets are inserted and nothing is pending. */
  lemma FittingStreamIsDelivered(store: Store, fragments: seq<Bytes>, es: seq<Element>, backend: Backend,
                                 decode: Element -> Option<Packet>)
    requires AllFit(es) && Concat(es) == Flatten(fragments)
    ensures ReceiveAll(NewConnection(store), fragments, backend, decode) ==
            Conn(Receiving, [], InsertAll(backend, store, Decodable(es, decode)))
  {
    assert Flatten(fragments) == Flatten(fragments) + [];
    FittingStreamStaysOpen(store, fragments, es, [], backend, decode);
    FragmentationIndependence(store, fragments, backend, decode);
    forall e | ElementOk(e) ensures !(EncodeElement(e) <= []) {
      assert |EncodeElement(e)| > 0;
    }
    FramingIsDrain(Flatten(fragments), es, []);
  }

  /** The step in terms of where the parse loop stopped. */
  lemma {:induction false} ReceiveEffect(c: Conn, fragment: Bytes, s: Bytes, offset: nat, isOk: bool,
                                         backend: Backend, decode: Element -> Option<Packet>)
    requires c.status == Receiving && s == c.pending + fragment
    requires offset == |s| - |Drain(s).1| && (offset == 0 <==> Drain(s).0 == []) && (isOk <==> offset == |s|)
    ensures offset <= |s| && Receive(c, fragment, backend, decode) ==
            Conn(if offset == 0 && !isOk && |s| == MAX_NDN_PACKET_SIZE then Closed else Receiving, s[offset..],
                 AfterElements(backend, c.store, Drain(s).0, decode))
  {
    DrainLeavesSuffix(s);
  }

  // ---------- the client object ----------

  datatype ReceiveError = NoError | OperationCanceled | OtherError

  class TcpBulkInsertClient {
    const storage: RepoStorage
    const decode: Element -> Option<Packet>
    const inputBuffer: array<Byte>
    var inputBufferSize: nat
    var status: Status

    ghost predicate Valid()
      reads this
    {
      && inputBuffer.Length == MAX_NDN_PACKET_SIZE
      && inputBufferSize <= MAX_NDN_PACKET_SIZE
      && (status == Receiving ==> inputBufferSize < MAX_NDN_PACKET_SIZE)
    }

    function View(): Conn
      requires inputBufferSize <= inputBuffer.Length
      reads this, inputBuffer, storage
    {
      Conn(status, inputBuffer[..inputBufferSize], storage.View())
    }

    constructor (storage: RepoStorage, decode: Element -> Option<Packet>)
      ensures Valid() && this.storage == storage && this.decode == decode && fresh(inputBuffer)
      ensures View() == NewConnection(storage.View())
    {
      this.storage, this.decode := storage, decode;
      inputBuffer := new Byte[MAX_NDN_PACKET_SIZE];
      inputBufferSize, status := 0, Receiving;
    }

    /** The socket writing `fragment` behind the pending bytes. */
    method Fill(fragment: Bytes)
      requires inputBufferSize + |fragment| <= inputBuffer.Length
      modifies inputBuffer
      ensures inputBuffer[..inputBufferSize] == old(inputBuffer[..inputBufferSize])
      ensures inputBuffer[inputBufferSize..inputBufferSize + |fragment|] == fragment
    {
      var i := 0;
      while i < |fragment|
        invariant 0 <= i <= |fragment|
        invariant inputBuffer[..inputBufferSize] == old(inputBuffer[..inputBufferSize])
        invariant inputBuffer[inputBufferSize..inputBufferSize + i] == fragment[..i]
      {
        inputBuffer[inputBufferSize + i] := fragment[i];
        i := i + 1;
      }
      assert fragment[..|fragment|] == fragment;
    }

    /** async_receive completing with `fragment`, then its handler. */
    method Deliver(fragment: Bytes)
      requires Valid() && status == Receiving
      requires |fragment| <= inputBuffer.Length - inputBufferSize
      modifies this, inputBuffer, storage
      ensures Valid()
      ensures View() == Receive(old(View()), fragment, storage.backend, decode)
    {
      Fill(fragment);
      HandleReceive(NoError, |fragment|);
    }

    /** std::copy of the unparsed suffix to the front of the buffer. */
    method CopyToFront(offset: nat, size: nat)
      requires 0 < offset <= size <= inputBuffer.Length
      modifies inputBuffer
      ensures inputBuffer[..size - offset] == old(inputBuffer[offset..size])
    {
      var i := offset;
      while i < size
        invariant offset <= i <= size
        invariant inputBuffer[..i - offset] == old(inputBuffer[offset..i])
        invariant inputBuffer[i..size] == old(inputBuffer[i..size])
      {
        assert inputBuffer[i] == inputBuffer[i..size][0];
        inputBuffer[i - offset] := inputBuffer[i];
        i := i + 1;
      }
    }

    method HandleElement(element: Element)
      modifies storage
      ensures storage.View() == AfterElement(storage.backend, old(storage.View()), element, decode)
    {
      if element.typ == DATA {
        var data := decode(element);
        if data.Some? {
          var isInserted := storage.InsertData(data.value);
        }
      }
    }

    /** The parse loop over the filled part of the buffer: how far it gets, and the insertions it makes. */
    method ParseLoop(filled: Bytes) returns (offset: nat, isOk: bool)
      modifies storage
      ensures offset == |filled| - |Drain(filled).1|
      ensures offset == 0 <==> Drain(filled).0 == []
      ensures isOk <==> offset == |filled|
      ensures storage.View() == AfterElements(storage.backend, old(storage.View()), Drain(filled).0, decode)
    {
      ghost var store0 := storage.View();
      ghost var parsed: seq<Element> := [];
      var rest := filled;
      offset, isOk := 0, true;
      while |rest| > 0
        invariant offset + |rest| == |filled| && isOk && Parsed(filled, parsed, rest)
        invariant offset == 0 <==> parsed == []
        invariant storage.View() == AfterElements(storage.backend, store0, parsed, decode)
        decreases |rest|
      {
        var block := ReadElement(rest);
        if block.None? {
          isOk := false;
          break;
        }
        var (element, size) := block.value;
        ParsedStep(filled, parsed, rest);
        assert (parsed + [element])[..|parsed|] == parsed;
        offset, rest, parsed := offset + size, rest[size..], parsed + [element];
        HandleElement(element);
      }
      ParsedEnd(filled, parsed, rest);
    }

    /** Drop the first `offset` bytes. */
    method Compact(offset: nat)
      requires offset <= inputBufferSize <= inputBuffer.Length
      modifies this`inputBufferSize, inputBuffer
      ensures inputBufferSize == old(inputBufferSize) - offset
      ensures inputBuffer[..inputBufferSize] == old(inputBuffer[..inputBufferSize])[offset..]
    {
      assert inputBuffer[offset..inputBufferSize] == inputBuffer[..inputBufferSize][offset..];
      if offset > 0 {
        if offset != inputBufferSize {
          CopyToFront(offset, inputBufferSize);
          inputBufferSize := inputBufferSize - offset;
        } else {
          inputBufferSize := 0;
        }
      }
    }

    /** The connection is given up for size, or what was parsed is dropped and receiving goes on. */
    method CloseOrCompact(offset: nat, isOk: bool)
      requires offset <= inputBufferSize <= inputBuffer.Length && (isOk <==> offset == inputBufferSize)
      modifies this`inputBufferSize, this`status, inputBuffer
      ensures status ==
              if offset == 0 && !isOk && old(inputBufferSize) == MAX_NDN_PACKET_SIZE then Closed else old(status)
      ensures inputBufferSize == old(inputBufferSize) - offset
      ensures inputBuffer[..inputBufferSize] == old(inputBuffer[..inputBufferSize])[offset..]
    {
      if !isOk && inputBufferSize == MAX_NDN_PACKET_SIZE && offset == 0 {
        status := Closed;
        return;
      }
      Compact(offset);
    }

    method HandleReceive(error: ReceiveError, nBytesReceived: nat)
      requires Valid() && status == Receiving
      requires inputBufferSize + nBytesReceived <= inputBuffer.Length
      modifies this, inputBuffer, storage
      ensures Valid()
      ensures error != NoError ==>
                View() == old(View()).(status := if error == OperationCanceled then Cancelled else Closed)
      ensures error == NoError ==>
                View() == Receive(old(View()), old(inputBuffer[inputBufferSize..inputBufferSize + nBytesReceived]),
                                  storage.backend, decode)
    {
      if error != NoError {
        status := if error == OperationCanceled then Cancelled else Closed;
        return;
      }
      ghost var fragment := inputBuffer[inputBufferSize..inputBufferSize + nBytesReceived];
      ghost var before := View();
      assert inputBuffer[..inputBufferSize + nBytesReceived] == before.pending + fragment;
      inputBufferSize := inputBufferSize + nBytesReceived;
      ParseReceived(before, fragment);
    }

    /** The rest of the handler, with the fragment counted in. */
    method ParseReceived(ghost before: Conn, ghost fragment: Bytes)
      requires inputBufferSize <= inputBuffer.Length == MAX_NDN_PACKET_SIZE && status == Receiving
      requires before.status == Receiving && inputBuffer[..inputBufferSize] == before.pending + fragment
      requires storage.View() == before.store
      modifies this`inputBufferSize, this`status, inputBuffer, storage
      ensures Valid() && View() == Receive(before, fragment, storage.backend, decode)
    {
      ghost var s := inputBuffer[..inputBufferSize];
      var offset, isOk := ParseLoop(inputBuffer[..inputBufferSize]);
      ReceiveEffect(before, fragment, s, offset, isOk, storage.backend, decode);
      CloseOrCompact(offset, isOk);
    }
  }
}
