/** src/repo-command-parameter.cpp: the command parameter block, its setters, both encoding passes, its cached wire. */
module CommandParameter {
  import opened Options
  import opened Tlv
  import opened Encoding

  // type numbers of src/repo-tlv.hpp and of the NDN Packet Format Specification
  const NAME: nat := 7
  const INTEREST_LIFETIME: nat := 12
  const FORWARDING_HINT: nat := 30
  const REPO_COMMAND_PARAMETER: nat := 201
  const FROM: nat := 202
  const TO: nat := 203
  const START_BLOCK_ID: nat := 204
  const END_BLOCK_ID: nat := 205
  const PROCESS_ID: nat := 206
  const CLUSTER_PREFIX: nat := 211

  /** The sub-element types in wire order. */
  const TYPES: seq<nat> := [FORWARDING_HINT, TO, FROM, NAME, INTEREST_LIFETIME,
                            START_BLOCK_ID, END_BLOCK_ID, PROCESS_ID, CLUSTER_PREFIX]

  type Value = v: Bytes | |v| < TWO_64
  type Int64 = n: int | -0x8000_0000_0000_0000 <= n < 0x8000_0000_0000_0000

  /** A field is Some exactly when its m_hasFields flag is set. Name and forwarding hint are their TLV-VALUEs. */
  datatype Fields = Fields(nodePrefix: Option<Value>, name: Option<Value>, from: Option<Block>, to: Option<Block>,
                           startBlockId: Option<Uint64>, endBlockId: Option<Uint64>, processId: Option<Uint64>,
                           interestLifetime: Option<Int64>, clusterPrefix: Option<Block>)

  const NO_FIELDS: Fields := Fields(None, None, None, None, None, None, None, None, None)

  /** The millisecond count is signed, the encoded number is not: conversions wrap. */
  function ToUnsigned(n: Int64): Uint64
  {
    if n >= 0 then n else n + TWO_64
  }

  function ToSigned(n: Uint64): Int64
  {
    if n < 0x8000_0000_0000_0000 then n else n - TWO_64
  }

  // ---------- encoding ----------

  function LifetimeNumber(f: Fields): Option<Uint64>
  {
    if f.interestLifetime.Some? then Some(ToUnsigned(f.interestLifetime.value)) else None
  }

  function HintSlot(f: Fields): Option<Block>
  {
    if f.nodePrefix.Some? then Some(Element(FORWARDING_HINT, f.nodePrefix.value)) else None
  }

  function NameSlot(f: Fields): Option<Block>
  {
    if f.name.Some? then Some(Element(NAME, f.name.value)) else None
  }

  /** The optional sub-elements in wire order. */
  function Slots(f: Fields): (s: seq<Option<Block>>)
    ensures |s| == 9
  {
    [HintSlot(f),
     f.to,
     f.from,
     NameSlot(f),
     NumberSlot(INTEREST_LIFETIME, LifetimeNumber(f)),
     NumberSlot(START_BLOCK_ID, f.startBlockId),
     NumberSlot(END_BLOCK_ID, f.endBlockId),
     NumberSlot(PROCESS_ID, f.processId),
     f.clusterPrefix]
  }

  function Elements(f: Fields): seq<Block>
  {
    Present(Slots(f))
  }

  /** What the encoder leaves after its last optional field. */
  ghost function Body(f: Fields): Bytes
  {
    Tail(Slots(f), 0)
  }

  /** size_t can count the encoding. */
  ghost predicate Encodable(f: Fields)
  {
    |Body(f)| < TWO_64
  }

  ghost function BlockOf(f: Fields): Block
    requires Encodable(f)
  {
    Element(REPO_COMMAND_PARAMETER, Body(f))
  }

  ghost function Encode(f: Fields): Bytes
    requires Encodable(f)
  {
    EncodeElement(BlockOf(f))
  }

  // ---------- decoding ----------

  function OrElse<T>(found: Option<T>, before: Option<T>): Option<T>
  {
    if found.Some? then found else before
  }

  function FindValue(es: seq<Block>, typ: nat): Option<Value>
  {
    match Find(es, typ)
    case None => None
    case Some(e) => Some(e.value)
  }

  /** Absent fields keep what the object held before: only a fresh object is really restored. */
  function DecodeElements(f: Fields, es: seq<Block>): Result<Fields, DecodeError>
  {
    var start, end := ReadNumber(es, START_BLOCK_ID), ReadNumber(es, END_BLOCK_ID);
    var process, lifetime := ReadNumber(es, PROCESS_ID), ReadNumber(es, INTEREST_LIFETIME);
    if start.Err? || end.Err? || process.Err? || lifetime.Err? then Err(BadInteger)
    else Ok(Fields(
      OrElse(FindValue(es, FORWARDING_HINT), f.nodePrefix),
      OrElse(FindValue(es, NAME), f.name),
      OrElse(Find(es, FROM), f.from),
      OrElse(Find(es, TO), f.to),
      OrElse(start.value, f.startBlockId),
      OrElse(end.value, f.endBlockId),
      OrElse(process.value, f.processId),
      if lifetime.value.Some? then Some(ToSigned(lifetime.value.value)) else f.interestLifetime,
      OrElse(Find(es, CLUSTER_PREFIX), f.clusterPrefix)))
  }

  function DecodeInto(f: Fields, wire: Block): Result<Fields, DecodeError>
  {
    match SubElements(wire.value)
    case None => Err(Malformed)
    case Some(es) => if wire.typ != REPO_COMMAND_PARAMETER then Err(WrongType) else DecodeElements(f, es)
  }

  // ---------- round trip ----------

  /** The three fields that are set as whole blocks carry their own type number; the setters do not check it. */
  predicate WellTyped(f: Fields)
  {
    && (f.from.Some? ==> f.from.value.typ == FROM)
    && (f.to.Some? ==> f.to.value.typ == TO)
    && (f.clusterPrefix.Some? ==> f.clusterPrefix.value.typ == CLUSTER_PREFIX)
  }

  lemma TypesDiffer()
    ensures forall i, j :: 0 <= i < j < 9 ==> TYPES[i] != TYPES[j]
  {
  }

  lemma {:induction false} SlotTypes(f: Fields, i: nat)
    requires WellTyped(f) && i < 9 && Slots(f)[i].Some?
    ensures Slots(f)[i].value.typ == TYPES[i]
  {
    if i < 4 {
      assert i == 0 || i == 1 || i == 2 || i == 3;
    } else {
      assert i == 4 || i == 5 || i == 6 || i == 7 || i == 8;
    }
  }

  lemma {:induction false} SlotsHaveTheirTypes(f: Fields)
    requires WellTyped(f)
    ensures SlotsTyped(Slots(f), TYPES)
  {
    TypesDiffer();
    forall i | 0 <= i < 9 && Slots(f)[i].Some? ensures Slots(f)[i].value.typ == TYPES[i] {
      SlotTypes(f, i);
    }
  }

  lemma SlotsByName(f: Fields, es: seq<Block>)
    requires forall i :: 0 <= i < 9 ==> Find(es, TYPES[i]) == Slots(f)[i]
    ensures Find(es, FORWARDING_HINT) == HintSlot(f) && Find(es, NAME) == NameSlot(f)
    ensures Find(es, TO) == f.to && Find(es, FROM) == f.from && Find(es, CLUSTER_PREFIX) == f.clusterPrefix
    ensures Find(es, INTEREST_LIFETIME) == NumberSlot(INTEREST_LIFETIME, LifetimeNumber(f))
    ensures Find(es, START_BLOCK_ID) == NumberSlot(START_BLOCK_ID, f.startBlockId)
    ensures Find(es, END_BLOCK_ID) == NumberSlot(END_BLOCK_ID, f.endBlockId)
    ensures Find(es, PROCESS_ID) == NumberSlot(PROCESS_ID, f.processId)
  {
    assert Find(es, TYPES[0]) == Slots(f)[0] && Find(es, TYPES[1]) == Slots(f)[1] && Find(es, TYPES[2]) == Slots(f)[2];
    assert Find(es, TYPES[3]) == Slots(f)[3] && Find(es, TYPES[4]) == Slots(f)[4] && Find(es, TYPES[5]) == Slots(f)[5];
    assert Find(es, TYPES[6]) == Slots(f)[6] && Find(es, TYPES[7]) == Slots(f)[7] && Find(es, TYPES[8]) == Slots(f)[8];
  }

  lemma {:induction false} NumbersRead(f: Fields, es: seq<Block>)
    requires Find(es, INTEREST_LIFETIME) == NumberSlot(INTEREST_LIFETIME, LifetimeNumber(f))
    requires Find(es, START_BLOCK_ID) == NumberSlot(START_BLOCK_ID, f.startBlockId)
    requires Find(es, END_BLOCK_ID) == NumberSlot(END_BLOCK_ID, f.endBlockId)
    requires Find(es, PROCESS_ID) == NumberSlot(PROCESS_ID, f.processId)
    ensures ReadNumber(es, INTEREST_LIFETIME) == Ok(LifetimeNumber(f))
    ensures ReadNumber(es, START_BLOCK_ID) == Ok(f.startBlockId)
    ensures ReadNumber(es, END_BLOCK_ID) == Ok(f.endBlockId)
    ensures ReadNumber(es, PROCESS_ID) == Ok(f.processId)
  {
    ReadsNumber(es, START_BLOCK_ID, f.startBlockId);
    ReadsNumber(es, END_BLOCK_ID, f.endBlockId);
    ReadsNumber(es, PROCESS_ID, f.processId);
    ReadsNumber(es, INTEREST_LIFETIME, LifetimeNumber(f));
  }

  /** The place of a type number on the wire. */
  function Rank(typ: nat): int
  {
    match typ
    case 30 => 0
    case 203 => 1
    case 202 => 2
    case 7 => 3
    case 12 => 4
    case 204 => 5
    case 205 => 6
    case 206 => 7
    case 211 => 8
    case _ => -1
  }

  ghost predicate IsNumber(e: Block, typ: Uint64, n: Option<Uint64>)
  {
    n.Some? && e.typ == typ && e.value == NonNegativeInteger(n.value)
  }

  ghost predicate IsValue(e: Block, typ: Uint64, v: Option<Value>)
  {
    v.Some? && e.typ == typ && e.value == v.value
  }

  /** Exactly the fields that are set, under their type numbers; the three kept as blocks as they are. */
  ghost predicate IsField(f: Fields, e: Block)
  {
    || IsValue(e, 30, f.nodePrefix) || Some(e) == f.to || Some(e) == f.from || IsValue(e, 7, f.name)
    || (f.interestLifetime.Some? && IsNumber(e, 12, Some(ToUnsigned(f.interestLifetime.value))))
    || IsNumber(e, 204, f.startBlockId) || IsNumber(e, 205, f.endBlockId) || IsNumber(e, 206, f.processId)
    || Some(e) == f.clusterPrefix
  }

  lemma {:induction false} InSlotsIff(f: Fields, e: Block)
    ensures Some(e) in Slots(f) <==> IsField(f, e)
  {
    assert Some(e) in Slots(f) <==>
           || Some(e) == HintSlot(f) || Some(e) == f.to || Some(e) == f.from || Some(e) == NameSlot(f)
           || Some(e) == NumberSlot(INTEREST_LIFETIME, LifetimeNumber(f))
           || Some(e) == NumberSlot(START_BLOCK_ID, f.startBlockId) || Some(e) == NumberSlot(END_BLOCK_ID, f.endBlockId)
           || Some(e) == NumberSlot(PROCESS_ID, f.processId) || Some(e) == f.clusterPrefix;
  }

  /** What is on the wire: the fields that are set, in this order, in one block. */
  lemma {:induction false} WireForm(f: Fields)
    requires Encodable(f) && WellTyped(f)
    ensures BlockOf(f) == Element(201, Concat(Elements(f)))
    ensures forall e :: e in Elements(f) <==> IsField(f, e)
    ensures forall i, j :: 0 <= i < j < |Elements(f)| ==> Rank(Elements(f)[i].typ) < Rank(Elements(f)[j].typ)
  {
    WholeTailIsConcat(Slots(f));
    forall e: Block ensures e in Elements(f) <==> IsField(f, e) {
      InPresent(Slots(f), e);
      InSlotsIff(f, e);
    }
    forall k | 0 <= k < 9 && Slots(f)[k].Some? ensures Rank(Slots(f)[k].value.typ) == 0 + k {
      SlotTypes(f, k);
      RankOfType(k);
    }
    PresentInOrder(Slots(f), Rank, 0);
  }

  lemma {:induction false} RankOfType(k: nat)
    requires k < 9
    ensures Rank(TYPES[k]) == k
  {
    if k < 4 {
      assert k == 0 || k == 1 || k == 2 || k == 3;
    } else {
      assert k == 4 || k == 5 || k == 6 || k == 7 || k == 8;
    }
  }

  /** Decoding fails on a number of a width that no number has, and on nothing else. */
  lemma {:induction false} DecodesIff(g: Fields, es: seq<Block>)
    ensures DecodeElements(g, es).Ok? <==> forall typ :: typ in {12, 204, 205, 206} ==> !BadWidth(es, typ)
  {
    forall typ ensures ReadNumber(es, typ).Err? <==> BadWidth(es, typ) {
      ReadsUnlessBadWidth(es, typ);
    }
  }

  /** Decoding does not depend on the order of the sub-elements or on unknown extra ones. */
  lemma DecodingIgnoresOrderAndExtras(f: Fields, es: seq<Block>)
    requires WellTyped(f) && SameKnown(TYPES, es, Elements(f))
    ensures DecodeElements(NO_FIELDS, es) == Ok(f)
  {
    ElementsFound(f, es);
    DecodeElementsIntoUsedIff(f, NO_FIELDS, es);
  }

  /** The same for what a receiver sees: one block whose value is such a list. */
  lemma {:induction false} WireDecodingIgnoresOrderAndExtras(f: Fields, es: seq<Block>)
    requires WellTyped(f) && SameKnown(TYPES, es, Elements(f)) && AllOk(es) && |Concat(es)| < TWO_64
    ensures DecodeInto(NO_FIELDS, Element(REPO_COMMAND_PARAMETER, Concat(es))) == Ok(f)
  {
    SubElementsOfConcat(es);
    DecodingIgnoresOrderAndExtras(f, es);
  }

  /** Whatever block field is decoded carries the type number it was looked up under. */
  lemma DecodedIsWellTyped(es: seq<Block>)
    requires DecodeElements(NO_FIELDS, es).Ok?
    ensures WellTyped(DecodeElements(NO_FIELDS, es).value)
  {
    FindIsFirst(es, FROM);
    FindIsFirst(es, TO);
    FindIsFirst(es, CLUSTER_PREFIX);
  }

  /**
   * Round trip, for every subset of fields and all their values: the encoding is one block, whatever follows it,
   * and decoding that block into a fresh object restores the fields if and only if the block-valued ones carry
   * their own type numbers.
   */
  lemma {:induction false} RoundTripIff(f: Fields, rest: Bytes)
    requires Encodable(f)
    ensures ReadElement(Encode(f) + rest) == Some((BlockOf(f), |Encode(f)|))
    ensures DecodeInto(NO_FIELDS, BlockOf(f)) == Ok(f) <==> WellTyped(f)
  {
    WholeTailIsConcat(Slots(f));
    ReadElementOfEncoding(BlockOf(f), rest);
    SubElementsOfConcat(Elements(f));
    if WellTyped(f) {
      DecodingIgnoresOrderAndExtras(f, Elements(f));
    }
    if DecodeElements(NO_FIELDS, Elements(f)).Ok? {
      DecodedIsWellTyped(Elements(f));
    }
  }

  /** Every field that `f` lacks is absent in `g` as well. */
  predicate LacksNoLess(f: Fields, g: Fields)
  {
    && (f.nodePrefix.None? ==> g.nodePrefix.None?) && (f.name.None? ==> g.name.None?)
    && (f.from.None? ==> g.from.None?) && (f.to.None? ==> g.to.None?)
    && (f.startBlockId.None? ==> g.startBlockId.None?) && (f.endBlockId.None? ==> g.endBlockId.None?)
    && (f.processId.None? ==> g.processId.None?) && (f.interestLifetime.None? ==> g.interestLifetime.None?)
    && (f.clusterPrefix.None? ==> g.clusterPrefix.None?)
  }

  /** What the decoder finds is laid over what the object holds. */
  lemma {:induction false} FoundOverOldIff(f: Fields, g: Fields, es: seq<Block>)
    requires Find(es, FORWARDING_HINT) == HintSlot(f) && Find(es, NAME) == NameSlot(f)
    requires Find(es, TO) == f.to && Find(es, FROM) == f.from && Find(es, CLUSTER_PREFIX) == f.clusterPrefix
    requires ReadNumber(es, INTEREST_LIFETIME) == Ok(LifetimeNumber(f)) && ReadNumber(es, PROCESS_ID) == Ok(f.processId)
    requires ReadNumber(es, START_BLOCK_ID) == Ok(f.startBlockId) && ReadNumber(es, END_BLOCK_ID) == Ok(f.endBlockId)
    ensures DecodeElements(g, es) == Ok(f) <==> LacksNoLess(f, g)
  {
  }

  lemma {:induction false} ElementsFound(f: Fields, es: seq<Block>)
    requires WellTyped(f) && SameKnown(TYPES, es, Elements(f))
    ensures forall i :: 0 <= i < 9 ==> Find(es, TYPES[i]) == Slots(f)[i]
  {
    SlotsHaveTheirTypes(f);
    var slots := Slots(f);
    forall i | 0 <= i < 9 ensures Find(es, TYPES[i]) == slots[i] {
      FindsSlot(slots, TYPES, es, i);
    }
  }

  lemma {:induction false} DecodeElementsIntoUsedIff(f: Fields, g: Fields, es: seq<Block>)
    requires forall i :: 0 <= i < 9 ==> Find(es, TYPES[i]) == Slots(f)[i]
    ensures DecodeElements(g, es) == Ok(f) <==> LacksNoLess(f, g)
  {
    SlotsByName(f, es);
    NumbersRead(f, es);
    FoundOverOldIff(f, g, es);
  }

  /**
   * Decoding an encoding into an object that is not fresh restores the fields if and only if the object had none of
   * the fields that were not encoded: each of those keeps its old value.
   */
  lemma {:induction false} DecodeIntoUsedIff(f: Fields, g: Fields)
    requires Encodable(f) && WellTyped(f)
    ensures DecodeInto(g, BlockOf(f)) == Ok(f) <==> LacksNoLess(f, g)
  {
    WholeTailIsConcat(Slots(f));
    SubElementsOfConcat(Elements(f));
    ElementsFound(f, Elements(f));
    DecodeElementsIntoUsedIff(f, g, Elements(f));
  }

  // ---------- the cached wire, over operation sequences ----------

  datatype Operation =
    | SetNodePrefix(v: Value) | SetName(v: Value)
    | SetFrom(b: Block) | SetTo(b: Block) | SetClusterPrefix(b: Block)
    | SetStartBlockId(n: Uint64) | SetEndBlockId(n: Uint64) | SetProcessId(n: Uint64) | SetInterestLifetime(t: Int64)
    | EncodeWire

  datatype Object = Object(fields: Fields, wire: Option<Bytes>)

  function SetField(f: Fields, op: Operation): Fields
  {
    match op
    case SetNodePrefix(v) => f.(nodePrefix := Some(v))
    case SetName(v) => f.(name := Some(v))
    case SetFrom(b) => f.(from := Some(b))
    case SetTo(b) => f.(to := Some(b))
    case SetClusterPrefix(b) => f.(clusterPrefix := Some(b))
    case SetStartBlockId(n) => f.(startBlockId := Some(n))
    case SetEndBlockId(n) => f.(endBlockId := Some(n))
    case SetProcessId(n) => f.(processId := Some(n))
    case SetInterestLifetime(t) => f.(interestLifetime := Some(t))
    case EncodeWire => f
  }

  /** wireEncode() returns the cached bytes when there are any. */
  ghost function Returned(o: Object): Bytes
    requires Encodable(o.fields)
  {
    if o.wire.Some? then o.wire.value else Encode(o.fields)
  }

  ghost function Perform(o: Object, op: Operation): Object
  {
    if op == EncodeWire then (if Encodable(o.fields) then o.(wire := Some(Returned(o))) else o)
    else Object(SetField(o.fields, op), None)
  }

  ghost function PerformAll(o: Object, ops: seq<Operation>): Object
  {
    if ops == [] then o else Perform(PerformAll(o, ops[..|ops| - 1]), ops[|ops| - 1])
  }

  /** After any setters and encodings on a fresh object, what wireEncode returns is the encoding of the fields. */
  lemma {:induction false} CachedWireIsCoherent(ops: seq<Operation>)
    ensures var o := PerformAll(Object(NO_FIELDS, None), ops);
            && (o.wire.Some? ==> Encodable(o.fields) && o.wire.value == Encode(o.fields))
            && (Encodable(o.fields) ==> Returned(o) == Encode(o.fields))
  {
    if ops != [] {
      CachedWireIsCoherent(ops[..|ops| - 1]);
    }
  }

  /** The field that this setter sets has the value it was given. */
  predicate Carries(f: Fields, op: Operation)
  {
    match op
    case SetNodePrefix(v) => f.nodePrefix == Some(v)
    case SetName(v) => f.name == Some(v)
    case SetFrom(b) => f.from == Some(b)
    case SetTo(b) => f.to == Some(b)
    case SetClusterPrefix(b) => f.clusterPrefix == Some(b)
    case SetStartBlockId(n) => f.startBlockId == Some(n)
    case SetEndBlockId(n) => f.endBlockId == Some(n)
    case SetProcessId(n) => f.processId == Some(n)
    case SetInterestLifetime(t) => f.interestLifetime == Some(t)
    case EncodeWire => true
  }

  predicate SameField(x: Operation, y: Operation)
  {
    || (x.SetNodePrefix? && y.SetNodePrefix?) || (x.SetName? && y.SetName?) || (x.SetFrom? && y.SetFrom?)
    || (x.SetTo? && y.SetTo?) || (x.SetClusterPrefix? && y.SetClusterPrefix?)
    || (x.SetStartBlockId? && y.SetStartBlockId?) || (x.SetEndBlockId? && y.SetEndBlockId?)
    || (x.SetProcessId? && y.SetProcessId?) || (x.SetInterestLifetime? && y.SetInterestLifetime?)
  }

  lemma {:induction false} SetsItsField(f: Fields, op: Operation)
    ensures Carries(SetField(f, op), op)
    ensures forall other :: !SameField(other, op) ==> (Carries(SetField(f, op), other) <==> Carries(f, other))
  {
  }

  predicate SetAtAll(ops: seq<Operation>, op: Operation)
  {
    ops != [] && (SameField(ops[|ops| - 1], op) || SetAtAll(ops[..|ops| - 1], op))
  }

  /** The last of the operations on this setter's field is this one. */
  predicate IsLastSetter(ops: seq<Operation>, op: Operation)
  {
    ops != [] && if SameField(ops[|ops| - 1], op) then ops[|ops| - 1] == op else IsLastSetter(ops[..|ops| - 1], op)
  }

  /** After any setters and encodings each field has the value of its last setter, or the one it started with. */
  lemma {:induction false} LastSetterCounts(o: Object, ops: seq<Operation>, op: Operation)
    ensures Carries(PerformAll(o, ops).fields, op) <==>
            if SetAtAll(ops, op) then IsLastSetter(ops, op) else Carries(o.fields, op)
  {
    if ops != [] {
      var init, last := ops[..|ops| - 1], ops[|ops| - 1];
      LastSetterCounts(o, init, op);
      SetsItsField(PerformAll(o, init).fields, last);
    }
  }

  // ---------- the object ----------

  class RepoCommandParameter {
    var nodePrefix: Option<Value>
    var name: Option<Value>
    var from: Option<Block>
    var to: Option<Block>
    var startBlockId: Option<Uint64>
    var endBlockId: Option<Uint64>
    var processId: Option<Uint64>
    var interestLifetime: Option<Int64>
    var clusterPrefix: Option<Block>
    var wire: Option<Bytes>

    function FieldsView(): Fields
      reads this
    {
      Fields(nodePrefix, name, from, to, startBlockId, endBlockId, processId, interestLifetime, clusterPrefix)
    }

    function View(): Object
      reads this
    {
      Object(FieldsView(), wire)
    }

    constructor ()
      ensures View() == Object(NO_FIELDS, None)
    {
      nodePrefix, name, from, to, startBlockId := None, None, None, None, None;
      endBlockId, processId, interestLifetime, clusterPrefix, wire := None, None, None, None, None;
    }

    /** The nine setters. */
    method Set(op: Operation)
      requires op != EncodeWire
      modifies this
      ensures View() == Perform(old(View()), op)
    {
      match op {
        case SetNodePrefix(v) => nodePrefix := Some(v);
        case SetName(v) => name := Some(v);
        case SetFrom(b) => from := Some(b);
        case SetTo(b) => to := Some(b);
        case SetClusterPrefix(b) => clusterPrefix := Some(b);
        case SetStartBlockId(n) => startBlockId := Some(n);
        case SetEndBlockId(n) => endBlockId := Some(n);
        case SetProcessId(n) => processId := Some(n);
        case SetInterestLifetime(t) => interestLifetime := Some(t);
        case EncodeWire => assert false;
      }
      wire := None;
    }

    /** The optional fields, last one first: cluster prefix and numbers, then the name and the blocks before it. */
    method PrependNumbers(encoder: Encoder, f: Fields) returns (totalLength: nat)
      modifies encoder
      ensures encoder.Done(Slots(f), totalLength, 4, old(encoder.bytes))
    {
      ghost var before, slots := encoder.bytes, Slots(f);
      totalLength := 0;
      totalLength := encoder.PrependOptionalBlock(f.clusterPrefix, totalLength, slots, 8, before);
      totalLength := encoder.PrependOptionalNumber(PROCESS_ID, f.processId, totalLength, slots, 7, before);
      totalLength := encoder.PrependOptionalNumber(END_BLOCK_ID, f.endBlockId, totalLength, slots, 6, before);
      totalLength := encoder.PrependOptionalNumber(START_BLOCK_ID, f.startBlockId, totalLength, slots, 5, before);
      totalLength := encoder.PrependOptionalNumber(INTEREST_LIFETIME, LifetimeNumber(f), totalLength, slots, 4, before);
    }

    method PrependBlocks(encoder: Encoder, f: Fields, total: nat, ghost before: Bytes) returns (totalLength: nat)
      requires encoder.Done(Slots(f), total, 4, before)
      modifies encoder
      ensures encoder.Done(Slots(f), totalLength, 0, before)
    {
      ghost var slots := Slots(f);
      totalLength := total;
      totalLength := encoder.PrependOptionalBlock(NameSlot(f), totalLength, slots, 3, before);
      totalLength := encoder.PrependOptionalBlock(f.from, totalLength, slots, 2, before);
      totalLength := encoder.PrependOptionalBlock(f.to, totalLength, slots, 1, before);
      totalLength := encoder.PrependOptionalBlock(HintSlot(f), totalLength, slots, 0, before);
    }

    /** wireEncode(encoder): both passes return the exact size; the buffer pass also writes it. */
    method WireEncodeInto(encoder: Encoder) returns (totalLength: nat)
      requires Encodable(FieldsView())
      modifies encoder
      ensures totalLength == |Encode(FieldsView())|
      ensures encoder.bytes == encoder.Grown(old(encoder.bytes), Encode(FieldsView()))
    {
      var f := FieldsView();
      ghost var before := encoder.bytes;
      totalLength := PrependNumbers(encoder, f);
      totalLength := PrependBlocks(encoder, f, totalLength, before);
      var header := encoder.PrependHeader(REPO_COMMAND_PARAMETER, totalLength, Body(f), before);
      totalLength := totalLength + header;
    }

    method WireEncode() returns (block: Bytes)
      requires Encodable(FieldsView())
      modifies this`wire
      ensures block == Returned(old(View()))
      ensures View() == Perform(old(View()), EncodeWire)
    {
      if wire.Some? {
        return wire.value;
      }
      var estimator := new Encoder(Estimator);
      var estimatedSize := WireEncodeInto(estimator);
      var buffer := new Encoder(Buffer);
      var size := WireEncodeInto(buffer);
      assert size == estimatedSize == |buffer.bytes|;
      wire := Some(buffer.bytes);
      block := buffer.bytes;
    }

    method WireDecode(block: Block) returns (r: Result<(), DecodeError>)
      modifies this
      ensures wire == Some(EncodeElement(block))
      ensures match DecodeInto(old(FieldsView()), block)
              case Ok(f) => r == Ok(()) && FieldsView() == f
              case Err(e) => r == Err(e)
    {
      wire := Some(EncodeElement(block));
      var parsed := SubElements(block.value);
      if parsed.None? {
        return Err(Malformed);
      }
      var es := parsed.value;
      if block.typ != REPO_COMMAND_PARAMETER {
        return Err(WrongType);
      }
      r := DecodeFields(es);
    }

    /** The fields found replace the old ones, the numbers last; one of a bad width throws. */
    method DecodeFields(es: seq<Block>) returns (r: Result<(), DecodeError>)
      modifies this
      ensures wire == old(wire)
      ensures match DecodeElements(old(FieldsView()), es)
              case Ok(f) => r == Ok(()) && FieldsView() == f
              case Err(e) => r == Err(e)
    {
      name := OrElse(FindValue(es, NAME), name);
      from := OrElse(Find(es, FROM), from);
      to := OrElse(Find(es, TO), to);
      nodePrefix := OrElse(FindValue(es, FORWARDING_HINT), nodePrefix);
      var start := ReadNumber(es, START_BLOCK_ID);
      if start.Err? {
        return Err(BadInteger);
      }
      startBlockId := OrElse(start.value, startBlockId);
      var end := ReadNumber(es, END_BLOCK_ID);
      if end.Err? {
        return Err(BadInteger);
      }
      endBlockId := OrElse(end.value, endBlockId);
      var process := ReadNumber(es, PROCESS_ID);
      if process.Err? {
        return Err(BadInteger);
      }
      processId := OrElse(process.value, processId);
      var lifetime := ReadNumber(es, INTEREST_LIFETIME);
      if lifetime.Err? {
        return Err(BadInteger);
      }
      if lifetime.value.Some? {
        interestLifetime := Some(ToSigned(lifetime.value.value));
      }
      clusterPrefix := OrElse(Find(es, CLUSTER_PREFIX), clusterPrefix);
      r := Ok(());
    }
  }
}
