/**
 * src/repo-command-response.cpp: the response block, its setters and its two passes, with the one setter that
 * does not reset the cached wire.
 */
module CommandResponse {
  import opened Options
  import opened Tlv
  import opened Encoding

  // type numbers of src/repo-tlv.hpp
  const START_BLOCK_ID: nat := 204
  const END_BLOCK_ID: nat := 205
  const PROCESS_ID: nat := 206
  const REPO_COMMAND_RESPONSE: nat := 207
  const STATUS_CODE: nat := 208
  const INSERT_NUM: nat := 209
  const DELETE_NUM: nat := 210

  /** The sub-element types in wire order. */
  const TYPES: seq<nat> := [PROCESS_ID, STATUS_CODE, START_BLOCK_ID, END_BLOCK_ID, INSERT_NUM, DELETE_NUM]

  type Uint32 = n: nat | n < TWO_32

  /** A field is Some exactly when its m_has... flag is set. */
  datatype Fields = Fields(processId: Option<Uint64>, statusCode: Option<Uint32>, startBlockId: Option<Uint64>,
                           endBlockId: Option<Uint64>, insertNum: Option<Uint64>, deleteNum: Option<Uint64>)

  const NO_FIELDS: Fields := Fields(None, None, None, None, None, None)

  // ---------- encoding ----------

  function CodeNumber(f: Fields): Option<Uint64>
  {
    if f.statusCode.Some? then Some(f.statusCode.value) else None
  }

  /** The optional sub-elements in wire order. */
  function Slots(f: Fields): (s: seq<Option<Block>>)
    ensures |s| == 6
  {
    [NumberSlot(PROCESS_ID, f.processId),
     NumberSlot(STATUS_CODE, CodeNumber(f)),
     NumberSlot(START_BLOCK_ID, f.startBlockId),
     NumberSlot(END_BLOCK_ID, f.endBlockId),
     NumberSlot(INSERT_NUM, f.insertNum),
     NumberSlot(DELETE_NUM, f.deleteNum)]
  }

  function Elements(f: Fields): seq<Block>
  {
    Present(Slots(f))
  }

  /** What the encoder leaves after its last optional field. */
  function Body(f: Fields): Bytes
  {
    Tail(Slots(f), 0)
  }

  lemma {:induction false} TailIsShort(slots: seq<Option<Block>>, i: nat)
    requires i <= |slots|
    requires forall k :: 0 <= k < |slots| && slots[k].Some? ==> |slots[k].value.value| <= 8
    ensures |Tail(slots, i)| <= 26 * (|slots| - i)
    decreases |slots| - i
  {
    if i < |slots| {
      TailIsShort(slots, i + 1);
    }
  }

  /** Every response can be counted by size_t. */
  lemma {:induction false} BodyIsShort(f: Fields)
    ensures |Body(f)| <= 156
  {
    TailIsShort(Slots(f), 0);
  }

  function BlockOf(f: Fields): Block
  {
    BodyIsShort(f);
    Element(REPO_COMMAND_RESPONSE, Body(f))
  }

  function Encode(f: Fields): Bytes
  {
    EncodeElement(BlockOf(f))
  }

  // ---------- decoding ----------

  /** setCode takes 32 bits of the decoded 64. */
  function Truncate(n: Uint64): Uint32
  {
    n % 0x1_0000_0000
  }

  /** All flags are cleared first, so nothing of the object's earlier state can come back. */
  function DecodeElements(es: seq<Block>): Result<Fields, DecodeError>
  {
    var start, end := ReadNumber(es, START_BLOCK_ID), ReadNumber(es, END_BLOCK_ID);
    var process, code := ReadNumber(es, PROCESS_ID), ReadNumber(es, STATUS_CODE);
    var inserted, deleted := ReadNumber(es, INSERT_NUM), ReadNumber(es, DELETE_NUM);
    if start.Err? || end.Err? || process.Err? || code.Err? then Err(BadInteger)
    else if code.value.None? then Err(MissingStatusCode)
    else if inserted.Err? || deleted.Err? then Err(BadInteger)
    else Ok(Fields(process.value, Some(Truncate(code.value.value)), start.value, end.value,
                   inserted.value, deleted.value))
  }

  function Decode(wire: Block): Result<Fields, DecodeError>
  {
    match SubElements(wire.value)
    case None => Err(Malformed)
    case Some(es) => if wire.typ != REPO_COMMAND_RESPONSE then Err(WrongType) else DecodeElements(es)
  }

  // ---------- round trip ----------

  lemma SlotsHaveTheirTypes(f: Fields)
    ensures SlotsTyped(Slots(f), TYPES)
  {
  }

  lemma SlotsByName(f: Fields, es: seq<Block>)
    requires forall i :: 0 <= i < 6 ==> Find(es, TYPES[i]) == Slots(f)[i]
    ensures Find(es, PROCESS_ID) == NumberSlot(PROCESS_ID, f.processId)
    ensures Find(es, STATUS_CODE) == NumberSlot(STATUS_CODE, CodeNumber(f))
    ensures Find(es, START_BLOCK_ID) == NumberSlot(START_BLOCK_ID, f.startBlockId)
    ensures Find(es, END_BLOCK_ID) == NumberSlot(END_BLOCK_ID, f.endBlockId)
    ensures Find(es, INSERT_NUM) == NumberSlot(INSERT_NUM, f.insertNum)
    ensures Find(es, DELETE_NUM) == NumberSlot(DELETE_NUM, f.deleteNum)
  {
    assert Find(es, TYPES[0]) == Slots(f)[0] && Find(es, TYPES[1]) == Slots(f)[1] && Find(es, TYPES[2]) == Slots(f)[2];
    assert Find(es, TYPES[3]) == Slots(f)[3] && Find(es, TYPES[4]) == Slots(f)[4] && Find(es, TYPES[5]) == Slots(f)[5];
  }

  lemma {:induction false} NumbersRead(f: Fields, es: seq<Block>)
    requires Find(es, PROCESS_ID) == NumberSlot(PROCESS_ID, f.processId)
    requires Find(es, STATUS_CODE) == NumberSlot(STATUS_CODE, CodeNumber(f))
    requires Find(es, START_BLOCK_ID) == NumberSlot(START_BLOCK_ID, f.startBlockId)
    requires Find(es, END_BLOCK_ID) == NumberSlot(END_BLOCK_ID, f.endBlockId)
    requires Find(es, INSERT_NUM) == NumberSlot(INSERT_NUM, f.insertNum)
    requires Find(es, DELETE_NUM) == NumberSlot(DELETE_NUM, f.deleteNum)
    ensures ReadNumber(es, PROCESS_ID) == Ok(f.processId) && ReadNumber(es, STATUS_CODE) == Ok(CodeNumber(f))
    ensures ReadNumber(es, START_BLOCK_ID) == Ok(f.startBlockId) && ReadNumber(es, END_BLOCK_ID) == Ok(f.endBlockId)
    ensures ReadNumber(es, INSERT_NUM) == Ok(f.insertNum) && ReadNumber(es, DELETE_NUM) == Ok(f.deleteNum)
  {
    ReadsNumber(es, PROCESS_ID, f.processId);
    ReadsNumber(es, STATUS_CODE, CodeNumber(f));
    ReadsNumber(es, START_BLOCK_ID, f.startBlockId);
    ReadsNumber(es, END_BLOCK_ID, f.endBlockId);
    ReadsNumber(es, INSERT_NUM, f.insertNum);
    ReadsNumber(es, DELETE_NUM, f.deleteNum);
  }

  lemma SlotsFound(f: Fields, es: seq<Block>)
    requires SameKnown(TYPES, es, Elements(f))
    ensures forall i :: 0 <= i < 6 ==> Find(es, TYPES[i]) == Slots(f)[i]
  {
    SlotsHaveTheirTypes(f);
    var slots := Slots(f);
    forall i | 0 <= i < 6 ensures Find(es, TYPES[i]) == slots[i] {
      FindsSlot(slots, TYPES, es, i);
    }
  }

  /** The place of a type number on the wire. */
  function Rank(typ: nat): int
  {
    match typ
    case 206 => 0
    case 208 => 1
    case 204 => 2
    case 205 => 3
    case 209 => 4
    case 210 => 5
    case _ => -1
  }

  ghost predicate IsNumber(e: Block, typ: Uint64, n: Option<Uint64>)
  {
    n.Some? && e.typ == typ && e.value == NonNegativeInteger(n.value)
  }

  /** Exactly the fields that are set, under their type numbers. */
  ghost predicate IsField(f: Fields, e: Block)
  {
    || IsNumber(e, 206, f.processId) || (f.statusCode.Some? && IsNumber(e, 208, Some(f.statusCode.value)))
    || IsNumber(e, 204, f.startBlockId) || IsNumber(e, 205, f.endBlockId)
    || IsNumber(e, 209, f.insertNum) || IsNumber(e, 210, f.deleteNum)
  }

  lemma {:induction false} InSlotsIff(f: Fields, e: Block)
    ensures Some(e) in Slots(f) <==> IsField(f, e)
  {
    assert Some(e) in Slots(f) <==>
           || Some(e) == NumberSlot(PROCESS_ID, f.processId) || Some(e) == NumberSlot(STATUS_CODE, CodeNumber(f))
           || Some(e) == NumberSlot(START_BLOCK_ID, f.startBlockId) || Some(e) == NumberSlot(END_BLOCK_ID, f.endBlockId)
           || Some(e) == NumberSlot(INSERT_NUM, f.insertNum) || Some(e) == NumberSlot(DELETE_NUM, f.deleteNum);
  }

  lemma {:induction false} SlotRank(f: Fields, k: nat)
    requires k < 6 && Slots(f)[k].Some?
    ensures Rank(Slots(f)[k].value.typ) == k
  {
    assert k == 0 || k == 1 || k == 2 || k == 3 || k == 4 || k == 5;
  }

  /** What is on the wire: the fields that are set, in this order, in one block. */
  lemma {:induction false} WireForm(f: Fields)
    ensures BlockOf(f) == Element(207, Concat(Elements(f)))
    ensures forall e :: e in Elements(f) <==> IsField(f, e)
    ensures forall i, j :: 0 <= i < j < |Elements(f)| ==> Rank(Elements(f)[i].typ) < Rank(Elements(f)[j].typ)
  {
    WholeTailIsConcat(Slots(f));
    forall e: Block ensures e in Elements(f) <==> IsField(f, e) {
      InPresent(Slots(f), e);
      InSlotsIff(f, e);
    }
    forall k | 0 <= k < 6 && Slots(f)[k].Some? ensures Rank(Slots(f)[k].value.typ) == 0 + k {
      SlotRank(f, k);
    }
    PresentInOrder(Slots(f), Rank, 0);
  }

  /** Decoding fails on a number of a width that no number has, and without a status code; on nothing else. */
  lemma {:induction false} DecodesIff(es: seq<Block>)
    ensures DecodeElements(es).Ok? <==>
            Find(es, 208).Some? && forall typ :: typ in {204, 205, 206, 208, 209, 210} ==> !BadWidth(es, typ)
  {
    forall typ ensures ReadNumber(es, typ).Err? <==> BadWidth(es, typ) {
      ReadsUnlessBadWidth(es, typ);
    }
    ReadsUnlessBadWidth(es, 208);
  }

  lemma NumbersDecode(f: Fields, es: seq<Block>)
    requires ReadNumber(es, PROCESS_ID) == Ok(f.processId) && ReadNumber(es, STATUS_CODE) == Ok(CodeNumber(f))
    requires ReadNumber(es, START_BLOCK_ID) == Ok(f.startBlockId) && ReadNumber(es, END_BLOCK_ID) == Ok(f.endBlockId)
    requires ReadNumber(es, INSERT_NUM) == Ok(f.insertNum) && ReadNumber(es, DELETE_NUM) == Ok(f.deleteNum)
    ensures DecodeElements(es) == if f.statusCode.Some? then Ok(f) else Err(MissingStatusCode)
  {
  }

  /** Order and unknown extra elements do not matter; a list without a status code is refused. */
  lemma DecodingIgnoresOrderAndExtras(f: Fields, es: seq<Block>)
    requires SameKnown(TYPES, es, Elements(f))
    ensures DecodeElements(es) == if f.statusCode.Some? then Ok(f) else Err(MissingStatusCode)
  {
    SlotsFound(f, es);
    SlotsByName(f, es);
    NumbersRead(f, es);
    NumbersDecode(f, es);
  }

  /** The same for what a receiver sees: one block whose value is such a list. */
  lemma {:induction false} WireDecodingIgnoresOrderAndExtras(f: Fields, es: seq<Block>)
    requires SameKnown(TYPES, es, Elements(f)) && AllOk(es) && |Concat(es)| < TWO_64
    ensures Decode(Element(REPO_COMMAND_RESPONSE, Concat(es))) ==
            if f.statusCode.Some? then Ok(f) else Err(MissingStatusCode)
  {
    SubElementsOfConcat(es);
    DecodingIgnoresOrderAndExtras(f, es);
  }

  lemma PermutationsDecodeAlike(f: Fields, es: seq<Block>, extras: seq<Block>)
    requires f.statusCode.Some? && multiset(es) == multiset(Elements(f)) + multiset(extras)
    requires forall e :: e in extras ==> e.typ !in TYPES
    ensures DecodeElements(es) == Ok(f)
  {
    PermutationIsSameKnown(TYPES, es, Elements(f), extras);
    DecodingIgnoresOrderAndExtras(f, es);
  }

  /** The encoding reads back as one block, whatever follows it, and that block decodes to the fields encoded. */
  lemma {:induction false} RoundTripIff(f: Fields, rest: Bytes)
    ensures ReadElement(Encode(f) + rest) == Some((BlockOf(f), |Encode(f)|))
    ensures Decode(BlockOf(f)) == Ok(f) <==> f.statusCode.Some?
  {
    WholeTailIsConcat(Slots(f));
    ReadElementOfEncoding(BlockOf(f), rest);
    SubElementsOfConcat(Elements(f));
    DecodingIgnoresOrderAndExtras(f, Elements(f));
  }

  /** Different responses have different wires. */
  lemma EncodeIsInjective(f: Fields, g: Fields)
    requires f.statusCode.Some? && g.statusCode.Some? && Encode(f) == Encode(g)
    ensures f == g
  {
    RoundTripIff(f, []);
    RoundTripIff(g, []);
  }

  // ---------- the cached wire, over operation sequences ----------

  datatype Operation =
    | SetStartBlockId(n: Uint64) | SetEndBlockId(n: Uint64) | SetProcessId(n: Uint64)
    | SetInsertNum(n: Uint64) | SetDeleteNum(n: Uint64)
    | SetCode(code: Uint32)
    | EncodeWire

  /** `rebuiltWith` is history: the status code held when the wire was last rebuilt. */
  datatype Object = Object(fields: Fields, wire: Option<Bytes>, rebuiltWith: Option<Uint32>)

  function SetField(f: Fields, op: Operation): Fields
  {
    match op
    case SetStartBlockId(n) => f.(startBlockId := Some(n))
    case SetEndBlockId(n) => f.(endBlockId := Some(n))
    case SetProcessId(n) => f.(processId := Some(n))
    case SetInsertNum(n) => f.(insertNum := Some(n))
    case SetDeleteNum(n) => f.(deleteNum := Some(n))
    case SetCode(code) => f.(statusCode := Some(code))
    case EncodeWire => f
  }

  function Returned(o: Object): Result<Bytes, DecodeError>
  {
    if o.wire.Some? then Ok(o.wire.value)
    else if o.fields.statusCode.None? then Err(MissingStatusCode)
    else Ok(Encode(o.fields))
  }

  /** setCode is inherited apart from the flag: it resets the base class's wire, not the one that is returned. */
  function Perform(o: Object, op: Operation): Object
  {
    match op
    case EncodeWire =>
      if o.wire.None? && Returned(o).Ok? then Object(o.fields, Some(Returned(o).value), o.fields.statusCode) else o
    case SetCode(code) => o.(fields := SetField(o.fields, op))
    case _ => o.(fields := SetField(o.fields, op), wire := None)
  }

  function PerformAll(o: Object, ops: seq<Operation>): Object
  {
    if ops == [] then o else Perform(PerformAll(o, ops[..|ops| - 1]), ops[|ops| - 1])
  }

  ghost predicate WireMatchesHistory(o: Object)
  {
    o.wire.Some? ==>
      o.fields.statusCode.Some? && o.rebuiltWith.Some?
      && o.wire.value == Encode(o.fields.(statusCode := o.rebuiltWith))
  }

  lemma PerformMatchesHistory(o: Object, op: Operation)
    requires WireMatchesHistory(o)
    ensures WireMatchesHistory(Perform(o, op))
  {
  }

  /** A cached wire is right exactly when it was rebuilt with the status code held now. */
  lemma {:induction false} ReturnedIsCurrentIff(o: Object)
    requires WireMatchesHistory(o) && o.fields.statusCode.Some?
    ensures Returned(o) == Ok(Encode(o.fields)) <==> o.wire.None? || o.rebuiltWith == o.fields.statusCode
  {
    if o.wire.Some? && o.wire.value == Encode(o.fields) {
      EncodeIsInjective(o.fields, o.fields.(statusCode := o.rebuiltWith));
    }
  }

  lemma {:induction false} PerformAllMatchesHistory(o: Object, ops: seq<Operation>)
    requires WireMatchesHistory(o)
    ensures WireMatchesHistory(PerformAll(o, ops))
  {
    if ops != [] {
      PerformAllMatchesHistory(o, ops[..|ops| - 1]);
    }
  }

  /**
   * After any setters and encodings on a new object, the returned wire encodes every field but the status code as
   * it is now, and the status code as it was when the wire was last rebuilt; it is the encoding of the fields
   * if and only if no different code was set since then.
   */
  lemma CachedWireIsStaleOnlyInStatusCode(initial: Fields, ops: seq<Operation>)
    ensures var o := PerformAll(Object(initial, None, None), ops);
            && WireMatchesHistory(o)
            && (Returned(o).Ok? <==> o.fields.statusCode.Some?)
            && (Returned(o).Ok? ==>
                  (Returned(o).value == Encode(o.fields) <==> o.wire.None? || o.rebuiltWith == o.fields.statusCode))
  {
    PerformAllMatchesHistory(Object(initial, None, None), ops);
    var o := PerformAll(Object(initial, None, None), ops);
    if o.fields.statusCode.Some? {
      ReturnedIsCurrentIff(o);
    }
  }

  /** The field that this setter sets has the value it was given. */
  predicate Carries(f: Fields, op: Operation)
  {
    match op
    case SetStartBlockId(n) => f.startBlockId == Some(n)
    case SetEndBlockId(n) => f.endBlockId == Some(n)
    case SetProcessId(n) => f.processId == Some(n)
    case SetInsertNum(n) => f.insertNum == Some(n)
    case SetDeleteNum(n) => f.deleteNum == Some(n)
    case SetCode(code) => f.statusCode == Some(code)
    case EncodeWire => true
  }

  predicate SameField(x: Operation, y: Operation)
  {
    || (x.SetStartBlockId? && y.SetStartBlockId?) || (x.SetEndBlockId? && y.SetEndBlockId?)
    || (x.SetProcessId? && y.SetProcessId?) || (x.SetInsertNum? && y.SetInsertNum?)
    || (x.SetDeleteNum? && y.SetDeleteNum?) || (x.SetCode? && y.SetCode?)
  }

  lemma {:induction false} SetsItsField(f: Fields, op: Operation)
    ensures Carries(SetField(f, op), op)
    ensures forall other :: !SameField(other, op) ==> (Carries(SetField(f, op), other) <==> Carries(f, other))
  {
  }

  /** The last of the operations on this setter's field is this one. */
  predicate IsLastSetter(ops: seq<Operation>, op: Operation)
  {
    ops != [] && if SameField(ops[|ops| - 1], op) then ops[|ops| - 1] == op else IsLastSetter(ops[..|ops| - 1], op)
  }

  predicate SetAtAll(ops: seq<Operation>, op: Operation)
  {
    ops != [] && (SameField(ops[|ops| - 1], op) || SetAtAll(ops[..|ops| - 1], op))
  }

  /** After any setters and encodings each field has the value of its last setter, or the one it started with. */
  lemma {:induction false} LastSetterCounts(o: Object, ops: seq<Operation>, op: Operation)
    ensures Carries(PerformAll(o, ops).fields, op) <==>
            if SetAtAll(ops, op) then IsLastSetter(ops, op) else Carries(o.fields, op)
  {
    if ops != [] {
      var init, last := ops[..|ops| - 1], ops[|ops| - 1];
      LastSetterCounts(o, init, op);
      SetsItsField(PerformAll(o, init).fields, last);
    }
  }

  ghost predicate OnlyCodes(ops: seq<Operation>)
  {
    forall i :: 0 <= i < |ops| ==> ops[i].SetCode? || ops[i].EncodeWire?
  }

  lemma {:induction false} CodesKeepTheWire(o: Object, ops: seq<Operation>)
    requires o.wire.Some? && OnlyCodes(ops)
    ensures PerformAll(o, ops).wire == o.wire
  {
    if ops != [] {
      CodesKeepTheWire(o, ops[..|ops| - 1]);
    }
  }

  /** Once encoded, a response keeps decoding to its old status code, whatever codes are set afterwards. */
  lemma StatusCodeSticksOnTheWire(f: Fields, ops: seq<Operation>)
    requires f.statusCode.Some? && OnlyCodes(ops)
    ensures Returned(PerformAll(Perform(Object(f, None, None), EncodeWire), ops)) == Ok(Encode(f))
    ensures ReadElement(Encode(f)) == Some((BlockOf(f), |Encode(f)|)) && Decode(BlockOf(f)) == Ok(f)
  {
    var o := Perform(Object(f, None, None), EncodeWire);
    assert o.wire == Some(Encode(f));
    CodesKeepTheWire(o, ops);
    RoundTripIff(f, []);
    assert Encode(f) + [] == Encode(f);
  }

  // ---------- the object ----------

  class RepoCommandResponse {
    var startBlockId: Option<Uint64>
    var endBlockId: Option<Uint64>
    var processId: Option<Uint64>
    var insertNum: Option<Uint64>
    var deleteNum: Option<Uint64>
    var statusCode: Option<Uint32>
    var wire: Option<Bytes>
    ghost var rebuiltWith: Option<Uint32>

    function FieldsView(): Fields
      reads this
    {
      Fields(processId, statusCode, startBlockId, endBlockId, insertNum, deleteNum)
    }

    ghost function View(): Object
      reads this
    {
      Object(FieldsView(), wire, rebuiltWith)
    }

    constructor ()
      ensures View() == Object(NO_FIELDS, None, None)
    {
      startBlockId, endBlockId, processId, insertNum, deleteNum := None, None, None, None, None;
      statusCode, wire, rebuiltWith := None, None, None;
    }

    constructor WithCode(code: Uint32)
      ensures View() == Object(NO_FIELDS.(statusCode := Some(code)), None, None)
    {
      startBlockId, endBlockId, processId, insertNum, deleteNum := None, None, None, None, None;
      statusCode, wire, rebuiltWith := Some(code), None, None;
    }

    /** The six setters. */
    method Set(op: Operation)
      requires op != EncodeWire
      modifies this
      ensures View() == Perform(old(View()), op)
    {
      match op {
        case SetStartBlockId(n) =>
          startBlockId := Some(n);
          wire := None;
        case SetEndBlockId(n) =>
          endBlockId := Some(n);
          wire := None;
        case SetProcessId(n) =>
          processId := Some(n);
          wire := None;
        case SetInsertNum(n) =>
          insertNum := Some(n);
          wire := None;
        case SetDeleteNum(n) =>
          deleteNum := Some(n);
          wire := None;
        case SetCode(code) =>
          statusCode := Some(code);
        case EncodeWire =>
          assert false;
      }
    }

    /** Last field first; without a status code it throws and leaves the fields after it in the encoder. */
    method PrependFields(encoder: Encoder, f: Fields) returns (r: Result<nat, DecodeError>)
      modifies encoder
      ensures match r
              case Ok(totalLength) => f.statusCode.Some? && encoder.Done(Slots(f), totalLength, 0, old(encoder.bytes))
              case Err(e) =>
                f.statusCode.None? && e == MissingStatusCode
                && encoder.bytes == encoder.Grown(old(encoder.bytes), Tail(Slots(f), 2))
    {
      ghost var before, slots := encoder.bytes, Slots(f);
      var totalLength := 0;
      totalLength := encoder.PrependOptionalNumber(DELETE_NUM, f.deleteNum, totalLength, slots, 5, before);
      totalLength := encoder.PrependOptionalNumber(INSERT_NUM, f.insertNum, totalLength, slots, 4, before);
      totalLength := encoder.PrependOptionalNumber(END_BLOCK_ID, f.endBlockId, totalLength, slots, 3, before);
      totalLength := encoder.PrependOptionalNumber(START_BLOCK_ID, f.startBlockId, totalLength, slots, 2, before);
      if f.statusCode.None? {
        return Err(MissingStatusCode);
      }
      totalLength := encoder.PrependOptionalNumber(STATUS_CODE, CodeNumber(f), totalLength, slots, 1, before);
      totalLength := encoder.PrependOptionalNumber(PROCESS_ID, f.processId, totalLength, slots, 0, before);
      return Ok(totalLength);
    }

    method WireEncodeInto(encoder: Encoder) returns (r: Result<nat, DecodeError>)
      modifies encoder
      ensures r == if statusCode.Some? then Ok(|Encode(FieldsView())|) else Err(MissingStatusCode)
      ensures r.Ok? ==> encoder.bytes == encoder.Grown(old(encoder.bytes), Encode(FieldsView()))
    {
      var f := FieldsView();
      ghost var before := encoder.bytes;
      var fields := PrependFields(encoder, f);
      if fields.Err? {
        return fields;
      }
      BodyIsShort(f);
      var header := encoder.PrependHeader(REPO_COMMAND_RESPONSE, fields.value, Body(f), before);
      return Ok(fields.value + header);
    }

    method WireEncode() returns (r: Result<Bytes, DecodeError>)
      modifies this`wire, this`rebuiltWith
      ensures r == Returned(old(View()))
      ensures View() == Perform(old(View()), EncodeWire)
    {
      if wire.Some? {
        return Ok(wire.value);
      }
      var estimator := new Encoder(Estimator);
      var estimatedSize := WireEncodeInto(estimator);
      if estimatedSize.Err? {
        return Err(estimatedSize.error);
      }
      var buffer := new Encoder(Buffer);
      var size := WireEncodeInto(buffer);
      assert buffer.bytes == Encode(FieldsView());
      assert size == estimatedSize == Ok(|buffer.bytes|);
      wire := Some(buffer.bytes);
      rebuiltWith := statusCode;
      return Ok(buffer.bytes);
    }

    /** The result does not depend on what the object held before. */
    method WireDecode(block: Block) returns (r: Result<(), DecodeError>)
      modifies this
      ensures wire == Some(EncodeElement(block))
      ensures match Decode(block)
              case Ok(f) => r == Ok(()) && FieldsView() == f
              case Err(e) => r == Err(e)
    {
      startBlockId, endBlockId, processId := None, None, None;
      statusCode, insertNum, deleteNum := None, None, None;
      wire := Some(EncodeElement(block));
      var parsed := SubElements(block.value);
      if parsed.None? {
        return Err(Malformed);
      }
      var es := parsed.value;
      if block.typ != REPO_COMMAND_RESPONSE {
        return Err(WrongType);
      }
      var start := ReadNumber(es, START_BLOCK_ID);
      if start.Err? {
        return Err(BadInteger);
      }
      startBlockId := start.value;
      var end := ReadNumber(es, END_BLOCK_ID);
      if end.Err? {
        return Err(BadInteger);
      }
      endBlockId := end.value;
      var process := ReadNumber(es, PROCESS_ID);
      if process.Err? {
        return Err(BadInteger);
      }
      processId := process.value;
      var code := ReadNumber(es, STATUS_CODE);
      if code.Err? {
        return Err(BadInteger);
      }
      if code.value.None? {
        return Err(MissingStatusCode);
      }
      Set(SetCode(Truncate(code.value.value)));
      var inserted := ReadNumber(es, INSERT_NUM);
      if inserted.Err? {
        return Err(BadInteger);
      }
      insertNum := inserted.value;
      var deleted := ReadNumber(es, DELETE_NUM);
      if deleted.Err? {
        return Err(BadInteger);
      }
      deleteNum := deleted.value;
      r := Ok(());
    }
  }
}
