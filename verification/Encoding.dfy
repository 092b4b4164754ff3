/**
 * ndn-cxx's prepend encoder in its two forms: the estimator only adds up sizes, the buffer also stores the bytes,
 * back to front. Blocks and numbers are measured and written by the same calls.
 */
module Encoding {
  import opened Options
  import opened Tlv

  /** sizeOfVarNumber: what the estimator adds for a VAR-NUMBER. */
  function SizeOfVarNumber(n: nat): nat
  {
    if n < 253 then 1 else if n < TWO_16 then 3 else if n < TWO_32 then 5 else 9
  }

  lemma SizeOfVarNumberIsRight(n: nat)
    requires n < TWO_64
    ensures SizeOfVarNumber(n) == |VarNumber(n)|
  {
  }

  function NumberElement(typ: Uint64, n: Uint64): Block
    requires 1 <= typ < TWO_32
  {
    Element(typ, NonNegativeInteger(n))
  }

  // ---------- optional fields in wire order ----------

  type Block = e: Element | ElementOk(e) witness Element(1, [])

  function Present(slots: seq<Option<Block>>): seq<Block>
  {
    if slots == [] then []
    else (if slots[0].Some? then [slots[0].value] else []) + Present(slots[1..])
  }

  lemma {:induction false} InPresent(slots: seq<Option<Block>>, e: Block)
    ensures e in Present(slots) <==> Some(e) in slots
  {
    if slots != [] {
      InPresent(slots[1..], e);
      assert Some(e) in slots <==> slots[0] == Some(e) || Some(e) in slots[1..];
    }
  }

  /** When each slot's type has the slot's place as its rank, the elements present come in the order of their ranks. */
  lemma {:induction false} PresentInOrder(slots: seq<Option<Block>>, rank: nat -> int, base: int)
    requires forall k :: 0 <= k < |slots| && slots[k].Some? ==> rank(slots[k].value.typ) == base + k
    ensures forall i :: 0 <= i < |Present(slots)| ==> base <= rank(Present(slots)[i].typ)
    ensures forall i, j :: 0 <= i < j < |Present(slots)| ==> rank(Present(slots)[i].typ) < rank(Present(slots)[j].typ)
  {
    if slots != [] {
      PresentInOrder(slots[1..], rank, base + 1);
    }
  }

  /** The encodings of the slots from `i` on. */
  function Tail(slots: seq<Option<Block>>, i: nat): (s: Bytes)
    requires i <= |slots|
    decreases |slots| - i
  {
    if i == |slots| then []
    else (if slots[i].Some? then EncodeElement(slots[i].value) else []) + Tail(slots, i + 1)
  }

  lemma {:induction false} TailIsConcat(slots: seq<Option<Block>>, i: nat)
    requires i <= |slots|
    ensures AllOk(Present(slots[i..])) && Tail(slots, i) == Concat(Present(slots[i..]))
    decreases |slots| - i
  {
    if i < |slots| {
      TailIsConcat(slots, i + 1);
      assert slots[i..][1..] == slots[i + 1..];
      if slots[i].Some? {
        ConcatCons(slots[i].value, Present(slots[i + 1..]));
      } else {
        assert [] + Present(slots[i + 1..]) == Present(slots[i + 1..]);
      }
    }
  }

  /** Everything the encoder leaves is the concatenation of the fields that are present. */
  lemma WholeTailIsConcat(slots: seq<Option<Block>>)
    ensures AllOk(Present(slots)) && Tail(slots, 0) == Concat(Present(slots))
  {
    TailIsConcat(slots, 0);
    assert slots[0..] == slots;
  }

  /** Block::find: the first sub-element of a type. */
  function Find(es: seq<Block>, typ: nat): Option<Block>
  {
    if es == [] then None else if es[0].typ == typ then Some(es[0]) else Find(es[1..], typ)
  }

  /** The element found is of the type, and no earlier one is; nothing is found only if there is none. */
  lemma {:induction false} FindIsFirst(es: seq<Block>, typ: nat)
    ensures match Find(es, typ)
            case Some(e) =>
              exists i :: 0 <= i < |es| && es[i] == e && e.typ == typ && forall j :: 0 <= j < i ==> es[j].typ != typ
            case None => forall e :: e in es ==> e.typ != typ
  {
    if es != [] && es[0].typ != typ {
      FindIsFirst(es[1..], typ);
      if Find(es, typ).Some? {
        var i :| 0 <= i < |es[1..]| && es[1..][i] == Find(es, typ).value
                 && forall j :: 0 <= j < i ==> es[1..][j].typ != typ;
        assert es[i + 1] == es[1..][i];
        forall j | 0 <= j < i + 1 ensures es[j].typ != typ {
          assert j > 0 ==> es[j] == es[1..][j - 1];
        }
      }
    }
  }

  /** Every slot has its own type number, the one at the same place in `types`. */
  ghost predicate SlotsTyped(slots: seq<Option<Block>>, types: seq<nat>)
  {
    && |slots| == |types|
    && (forall i :: 0 <= i < |slots| && slots[i].Some? ==> slots[i].value.typ == types[i])
    && (forall i, j :: 0 <= i < j < |types| ==> types[i] != types[j])
  }

  predicate Known(types: seq<nat>, e: Block)
  {
    e.typ in types
  }

  /** Two lists hold the same elements of the given types, in any order and with any repetition. */
  ghost predicate SameKnown(types: seq<nat>, es: seq<Block>, fs: seq<Block>)
  {
    forall e: Block {:trigger Known(types, e)} :: Known(types, e) ==> (e in es <==> e in fs)
  }

  /** Looking a type up in any list that agrees with the slots on the known types gives that type's slot. */
  lemma FindsSlot(slots: seq<Option<Block>>, types: seq<nat>, es: seq<Block>, i: nat)
    requires SlotsTyped(slots, types) && SameKnown(types, es, Present(slots)) && i < |slots|
    ensures Find(es, types[i]) == slots[i]
  {
    FindIsFirst(es, types[i]);
    if Find(es, types[i]).Some? {
      var e := Find(es, types[i]).value;
      assert Known(types, e);
      InPresent(slots, e);
    } else if slots[i].Some? {
      var e := slots[i].value;
      assert Known(types, e);
      InPresent(slots, e);
    }
  }

  /** A permutation of the encoded list mixed with elements of other types agrees with it on the known types. */
  lemma PermutationIsSameKnown(types: seq<nat>, es: seq<Block>, fs: seq<Block>, extras: seq<Block>)
    requires multiset(es) == multiset(fs) + multiset(extras)
    requires forall e :: e in extras ==> e.typ !in types
    ensures SameKnown(types, es, fs)
  {
    forall e: Block {:trigger Known(types, e)} | Known(types, e) ensures e in es <==> e in fs {
      assert e in es <==> e in multiset(es);
      assert e in fs <==> e in multiset(fs);
      assert e in extras <==> e in multiset(extras);
    }
  }

  datatype DecodeError = Malformed | WrongType | BadInteger | MissingStatusCode

  /** An optional number as the decoders read it: absent, present, or with a width that throws. */
  function ReadNumber(es: seq<Block>, typ: nat): Result<Option<Uint64>, DecodeError>
  {
    match Find(es, typ)
    case None => Ok(None)
    case Some(e) =>
      match ReadNonNegativeInteger(e.value)
      case None => Err(BadInteger)
      case Some(n) => Ok(Some(n))
  }

  /** The first element of this type has a width that no number has. */
  ghost predicate BadWidth(es: seq<Block>, typ: nat)
  {
    Find(es, typ).Some? && |Find(es, typ).value.value| !in {1, 2, 4, 8}
  }

  lemma ReadsUnlessBadWidth(es: seq<Block>, typ: nat)
    ensures ReadNumber(es, typ) ==
            if BadWidth(es, typ) then Err(BadInteger)
            else if Find(es, typ).None? then Ok(None)
            else Ok(Some(FromBigEndian(Find(es, typ).value.value)))
  {
    Pow256Values();
  }

  function NumberSlot(typ: Uint64, n: Option<Uint64>): Option<Block>
    requires 1 <= typ < TWO_32
  {
    if n.Some? then Some(NumberElement(typ, n.value)) else None
  }

  lemma ReadsNumber(es: seq<Block>, typ: Uint64, n: Option<Uint64>)
    requires 1 <= typ < TWO_32 && Find(es, typ) == NumberSlot(typ, n)
    ensures ReadNumber(es, typ) == Ok(n)
  {
    if n.Some? {
      NonNegativeIntegerRoundTrip(n.value);
    }
  }

  /** Block::parse on a value, as a list of well-formed blocks. */
  function SubElements(value: Bytes): (r: Option<seq<Block>>)
    ensures r.Some? ==> AllOk(r.value) && value == Concat(r.value)
  {
    match ParseElements(value)
    case None => None
    case Some(es) =>
      ParseElementsIsCanonical(value);
      Some(es)
  }

  lemma SubElementsOfConcat(es: seq<Block>)
    ensures AllOk(es) && SubElements(Concat(es)) == Some(es)
  {
    ParseElementsOfConcat(es);
  }

  // ---------- the encoder ----------

  datatype Tag = Estimator | Buffer

  class Encoder {
    const tag: Tag
    var bytes: Bytes

    constructor (tag: Tag)
      ensures this.tag == tag && bytes == []
    {
      this.tag := tag;
      bytes := [];
    }

    /** The bytes after prepending `s`; an estimator never holds any. */
    function Grown(before: Bytes, s: Bytes): Bytes
    {
      if tag == Buffer then s + before else before
    }

    method PrependVarNumber(n: Uint64) returns (size: nat)
      modifies this
      ensures size == |VarNumber(n)| && bytes == Grown(old(bytes), VarNumber(n))
    {
      SizeOfVarNumberIsRight(n);
      if tag == Buffer {
        bytes := VarNumber(n) + bytes;
      }
      size := SizeOfVarNumber(n);
    }

    method PrependNonNegativeInteger(n: Uint64) returns (size: nat)
      modifies this
      ensures size == |NonNegativeInteger(n)| && bytes == Grown(old(bytes), NonNegativeInteger(n))
    {
      if tag == Buffer {
        bytes := NonNegativeInteger(n) + bytes;
      }
      size := NonNegativeWidth(n);
    }

    method PrependBlock(e: Element) returns (size: nat)
      requires ElementOk(e)
      modifies this
      ensures size == |EncodeElement(e)| && bytes == Grown(old(bytes), EncodeElement(e))
    {
      SizeOfVarNumberIsRight(e.typ);
      SizeOfVarNumberIsRight(|e.value|);
      if tag == Buffer {
        bytes := EncodeElement(e) + bytes;
      }
      size := SizeOfVarNumber(e.typ) + SizeOfVarNumber(|e.value|) + |e.value|;
    }

    /** The three prepends of every optional number: value, length, type. */
    method PrependNumber(typ: Uint64, n: Uint64) returns (size: nat)
      requires 1 <= typ < TWO_32
      modifies this
      ensures ElementOk(NumberElement(typ, n))
      ensures size == |EncodeElement(NumberElement(typ, n))|
      ensures bytes == Grown(old(bytes), EncodeElement(NumberElement(typ, n)))
    {
      var variableLength := PrependNonNegativeInteger(n);
      size := variableLength;
      var lengthSize := PrependVarNumber(variableLength);
      size := size + lengthSize;
      var typeSize := PrependVarNumber(typ);
      size := size + typeSize;
      Assoc(VarNumber(typ), VarNumber(variableLength), NonNegativeInteger(n) + old(bytes));
      Assoc(VarNumber(typ) + VarNumber(variableLength), NonNegativeInteger(n), old(bytes));
    }

    /** The closing prepends: the length of everything so far, then the outer type. */
    method PrependHeader(typ: Uint64, totalLength: Uint64, ghost body: Bytes, ghost after: Bytes) returns (size: nat)
      requires 1 <= typ < TWO_32 && |body| == totalLength && bytes == Grown(after, body)
      modifies this
      ensures size + totalLength == |EncodeElement(Element(typ, body))|
      ensures bytes == Grown(after, EncodeElement(Element(typ, body)))
    {
      size := PrependVarNumber(totalLength);
      var typeSize := PrependVarNumber(typ);
      size := size + typeSize;
      Assoc(VarNumber(typ), VarNumber(totalLength), body + after);
      Assoc(VarNumber(typ) + VarNumber(totalLength), body, after);
    }

    /** The slots from `i` on have been prepended to `before`. */
    ghost predicate Done(slots: seq<Option<Block>>, totalLength: nat, i: nat, before: Bytes)
      requires i <= |slots|
      reads this
    {
      && totalLength == |Tail(slots, i)|
      && bytes == Grown(before, Tail(slots, i))
    }

    /** An optional field that is kept as a whole block. */
    method PrependOptionalBlock(block: Option<Block>, total: nat,
                                ghost slots: seq<Option<Block>>, ghost i: nat, ghost before: Bytes)
      returns (totalLength: nat)
      requires i < |slots| && slots[i] == block && Done(slots, total, i + 1, before)
      modifies this
      ensures Done(slots, totalLength, i, before)
    {
      totalLength := total;
      if block.Some? {
        var size := PrependBlock(block.value);
        totalLength := totalLength + size;
        Assoc(EncodeElement(block.value), Tail(slots, i + 1), before);
      }
    }

    /** An optional number, written as value, length and type. */
    method PrependOptionalNumber(typ: Uint64, n: Option<Uint64>, total: nat,
                                 ghost slots: seq<Option<Block>>, ghost i: nat, ghost before: Bytes)
      returns (totalLength: nat)
      requires i < |slots| && 1 <= typ < TWO_32 && slots[i] == NumberSlot(typ, n)
      requires Done(slots, total, i + 1, before)
      modifies this
      ensures Done(slots, totalLength, i, before)
    {
      totalLength := total;
      if n.Some? {
        var size := PrependNumber(typ, n.value);
        totalLength := totalLength + size;
        Assoc(EncodeElement(NumberElement(typ, n.value)), Tail(slots, i + 1), before);
      }
    }
  }
}
