/**
 * The Type-Length-Value wire format of the NDN Packet Format Specification 0.3,
 * section "Type-Length-Value (TLV) Encoding": VAR-NUMBER, NonNegativeInteger,
 * and the element reader that stands for ndn-cxx's Block::fromBuffer and Block::parse.
 */
module Tlv {
  import opened Options

  type Byte = b: nat | b < 256
  type Bytes = seq<Byte>

  lemma Assoc(a: Bytes, b: Bytes, c: Bytes)
    ensures (a + b) + c == a + (b + c)
  {
  }

  const TWO_8: nat := 0x100
  const TWO_16: nat := 0x1_0000
  const TWO_32: nat := 0x1_0000_0000
  const TWO_64: nat := 0x1_0000_0000_0000_0000

  type Uint64 = n: nat | n < TWO_64

  // ---------- fixed-width big-endian numbers ----------

  function Pow256(width: nat): (p: nat)
    ensures p > 0
  {
    if width == 0 then 1 else 256 * Pow256(width - 1)
  }

  function BigEndian(n: nat, width: nat): (s: Bytes)
    ensures |s| == width
  {
    if width == 0 then [] else BigEndian(n / 256, width - 1) + [n % 256]
  }

  function FromBigEndian(s: Bytes): (n: nat)
    ensures n < Pow256(|s|)
  {
    if s == [] then 0 else FromBigEndian(s[..|s| - 1]) * 256 + s[|s| - 1]
  }

  lemma {:induction false} BigEndianRoundTrip(n: nat, width: nat)
    requires n < Pow256(width)
    ensures FromBigEndian(BigEndian(n, width)) == n
  {
    if width > 0 {
      BigEndianRoundTrip(n / 256, width - 1);
      var s := BigEndian(n, width);
      assert s[..|s| - 1] == BigEndian(n / 256, width - 1);
    }
  }

  lemma {:induction false} BigEndianCanonical(s: Bytes)
    ensures BigEndian(FromBigEndian(s), |s|) == s
  {
    if s != [] {
      BigEndianCanonical(s[..|s| - 1]);
      var hi, lo := FromBigEndian(s[..|s| - 1]), s[|s| - 1];
      assert (hi * 256 + lo) / 256 == hi && (hi * 256 + lo) % 256 == lo;
    }
  }

  /** `n` without its last `k` bytes. */
  function DropBytes(n: nat, k: nat): nat
  {
    if k == 0 then n else DropBytes(n / 256, k - 1)
  }

  /** The most significant byte comes first. */
  lemma {:induction false} BigEndianAt(n: nat, width: nat, i: nat)
    requires i < width
    ensures BigEndian(n, width)[i] == DropBytes(n, width - 1 - i) % 256
  {
    if i < width - 1 {
      BigEndianAt(n / 256, width - 1, i);
      assert DropBytes(n, width - 1 - i) == DropBytes(n / 256, width - 2 - i);
    }
  }

  lemma Pow256Values()
    ensures Pow256(1) == TWO_8 && Pow256(2) == TWO_16
    ensures Pow256(4) == TWO_32 && Pow256(8) == TWO_64
  {
    assert Pow256(2) == 256 * Pow256(1);
    assert Pow256(4) == 256 * 256 * Pow256(2);
    assert Pow256(6) == 256 * 256 * Pow256(4);
    assert Pow256(8) == 256 * 256 * Pow256(6);
  }

  // ---------- VAR-NUMBER ----------

  /** The shortest VAR-NUMBER form, which the specification makes mandatory. */
  function VarNumber(n: nat): (s: Bytes)
    requires n < TWO_64
    ensures 1 <= |s| <= 9
  {
    if n < 253 then [n]
    else if n < TWO_16 then [253] + BigEndian(n, 2)
    else if n < TWO_32 then [254] + BigEndian(n, 4)
    else [255] + BigEndian(n, 8)
  }

  function VarNumberWidth(first: Byte): (w: nat)
  {
    if first < 253 then 0 else if first == 253 then 2 else if first == 254 then 4 else 8
  }

  /** The least number that needs a tail of the given width. */
  function VarNumberFloor(width: nat): nat
  {
    if width == 0 then 0 else if width == 2 then 253 else if width == 4 then TWO_16 else TWO_32
  }

  /** The number at the head of `s` and how many bytes it takes; None when `s` is too short or not shortest-form. */
  function ReadVarNumber(s: Bytes): Option<(nat, nat)>
  {
    if s == [] then None
    else if s[0] < 253 then Some((s[0], 1))
    else
      var w := VarNumberWidth(s[0]);
      if |s| < 1 + w then None
      else
        var n := FromBigEndian(s[1..1 + w]);
        if n < VarNumberFloor(w) then None else Some((n, 1 + w))
  }

  /** The four forms: a single byte, or 253, 254 or 255 and the number in two, four or eight bytes. */
  lemma {:induction false} VarNumberForm(n: nat)
    requires n < TWO_64
    ensures var s := VarNumber(n);
            if n <= 252 then s == [n]
            else
              && |s| == (if n <= 0xffff then 3 else if n <= 0xffff_ffff then 5 else 9)
              && s[0] == (if |s| == 3 then 253 else if |s| == 5 then 254 else 255)
              && FromBigEndian(s[1..]) == n
  {
    Pow256Values();
    var s := VarNumber(n);
    if n >= 253 {
      assert s[1..] == BigEndian(n, |s| - 1);
      BigEndianRoundTrip(n, |s| - 1);
    }
  }

  lemma ReadVarNumberOfEncoding(n: nat, rest: Bytes)
    requires n < TWO_64
    ensures ReadVarNumber(VarNumber(n) + rest) == Some((n, |VarNumber(n)|))
  {
    Pow256Values();
    var s := VarNumber(n) + rest;
    var w := VarNumberWidth(s[0]);
    if n >= 253 {
      assert s[1..1 + w] == BigEndian(n, w);
      BigEndianRoundTrip(n, w);
    }
  }

  lemma ReadVarNumberIsCanonical(s: Bytes)
    requires ReadVarNumber(s).Some?
    ensures var (n, k) := ReadVarNumber(s).value;
            n < TWO_64 && k <= |s| && k == |VarNumber(n)| && s[..k] == VarNumber(n)
  {
    Pow256Values();
    var w := VarNumberWidth(s[0]);
    if s[0] >= 253 {
      BigEndianCanonical(s[1..1 + w]);
      assert s[..1 + w] == [s[0]] + s[1..1 + w];
    } else {
      assert s[..1] == [s[0]];
    }
  }

  // ---------- elements ----------

  datatype Element = Element(typ: nat, value: Bytes)

  /** TLV-TYPE is a non-zero 32-bit number and TLV-LENGTH a 64-bit one. */
  predicate ElementOk(e: Element)
  {
    1 <= e.typ < TWO_32 && |e.value| < TWO_64
  }

  function EncodeElement(e: Element): (s: Bytes)
    requires ElementOk(e)
    ensures |s| >= 2 + |e.value|
  {
    VarNumber(e.typ) + VarNumber(|e.value|) + e.value
  }

  /** Block::fromBuffer: the element at the head of `s` and its size, or None when there is no complete one. */
  function ReadElement(s: Bytes): (r: Option<(Element, nat)>)
  {
    match ReadVarNumber(s)
    case None => None
    case Some((typ, a)) =>
      if typ == 0 || typ >= TWO_32 || a > |s| then None
      else
        match ReadVarNumber(s[a..])
        case None => None
        case Some((len, b)) =>
          if a + b + len > |s| then None
          else Some((Element(typ, s[a + b..a + b + len]), a + b + len))
  }

  /** Every encoded element is read back, whatever follows it. */
  lemma ReadElementOfEncoding(e: Element, rest: Bytes)
    requires ElementOk(e)
    ensures ReadElement(EncodeElement(e) + rest) == Some((e, |EncodeElement(e)|))
  {
    var t, l := VarNumber(e.typ), VarNumber(|e.value|);
    var s := EncodeElement(e) + rest;
    assert s == t + (l + (e.value + rest));
    ReadVarNumberOfEncoding(e.typ, l + (e.value + rest));
    assert s[|t|..] == l + (e.value + rest);
    ReadVarNumberOfEncoding(|e.value|, e.value + rest);
    assert s[|t| + |l|..|t| + |l| + |e.value|] == e.value;
  }

  lemma TakeInThree(s: Bytes, a: nat, b: nat, c: nat, t: Bytes, l: Bytes)
    requires a + b + c <= |s| && s[..a] == t && s[a..][..b] == l
    ensures s[..a + b + c] == t + l + s[a + b..a + b + c]
  {
  }

  lemma {:induction false} ElementAtHead(s: Bytes, e: Element, a: nat, b: nat)
    requires ElementOk(e) && a + b + |e.value| <= |s| && e.value == s[a + b..a + b + |e.value|]
    requires a == |VarNumber(e.typ)| && s[..a] == VarNumber(e.typ)
    requires b == |VarNumber(|e.value|)| && s[a..][..b] == VarNumber(|e.value|)
    ensures a + b + |e.value| == |EncodeElement(e)| && s[..a + b + |e.value|] == EncodeElement(e)
  {
    TakeInThree(s, a, b, |e.value|, VarNumber(e.typ), VarNumber(|e.value|));
  }

  /** The reader's steps: a type, a length, and the value behind them. */
  lemma {:induction false} ReadHeader(s: Bytes) returns (typ: nat, a: nat, len: nat, b: nat)
    requires ReadElement(s).Some?
    ensures 1 <= typ < TWO_32 && len < TWO_64 && a + b + len <= |s|
    ensures ReadVarNumber(s) == Some((typ, a)) && ReadVarNumber(s[a..]) == Some((len, b))
    ensures ReadElement(s) == Some((Element(typ, s[a + b..a + b + len]), a + b + len))
  {
    var (x, k) := ReadVarNumber(s).value;
    ReadVarNumberIsCanonical(s);
    var (y, l) := ReadVarNumber(s[k..]).value;
    ReadVarNumberIsCanonical(s[k..]);
    typ, a, len, b := x, k, y, l;
  }

  lemma {:induction false} NumberAtHead(s: Bytes, n: nat, k: nat)
    requires ReadVarNumber(s) == Some((n, k))
    ensures n < TWO_64 && k <= |s| && k == |VarNumber(n)| && s[..k] == VarNumber(n)
  {
    ReadVarNumberIsCanonical(s);
  }

  /** Whatever is read is exactly an encoding at the head of the input. */
  lemma {:induction false} ReadElementIsCanonical(s: Bytes)
    requires ReadElement(s).Some?
    ensures var (e, n) := ReadElement(s).value;
            ElementOk(e) && n == |EncodeElement(e)| && n <= |s| && s[..n] == EncodeElement(e)
  {
    var typ, a, len, b := ReadHeader(s);
    NumberAtHead(s, typ, a);
    NumberAtHead(s[a..], len, b);
    ElementAtHead(s, Element(typ, s[a + b..a + b + len]), a, b);
  }

  /** The reader is determined by the encoder: it succeeds exactly on the inputs that start with an encoding. */
  lemma ReadElementIff(s: Bytes, e: Element, n: nat)
    ensures ReadElement(s) == Some((e, n)) <==>
            ElementOk(e) && n == |EncodeElement(e)| && n <= |s| && s[..n] == EncodeElement(e)
  {
    if ReadElement(s) == Some((e, n)) {
      ReadElementIsCanonical(s);
    }
    if ElementOk(e) && n == |EncodeElement(e)| && n <= |s| && s[..n] == EncodeElement(e) {
      ReadElementOfEncoding(e, s[n..]);
      assert s == EncodeElement(e) + s[n..];
    }
  }

  /** Prefix stability: more bytes after a complete element never change what is read. */
  lemma ReadElementStable(s: Bytes, more: Bytes)
    requires ReadElement(s).Some?
    ensures ReadElement(s + more) == ReadElement(s)
  {
    var (e, n) := ReadElement(s).value;
    ReadElementIff(s, e, n);
    assert (s + more)[..n] == s[..n];
    ReadElementIff(s + more, e, n);
  }

  /** Encodings form a prefix code: a stream that starts with one of them starts with no other. */
  lemma HeadIsUnique(e: Element, x: Bytes, d: Element, y: Bytes)
    requires ElementOk(e) && ElementOk(d) && EncodeElement(e) + x == EncodeElement(d) + y
    ensures e == d && x == y
  {
    ReadElementOfEncoding(e, x);
    ReadElementOfEncoding(d, y);
    assert (EncodeElement(e) + x)[|EncodeElement(e)|..] == x;
    assert (EncodeElement(d) + y)[|EncodeElement(d)|..] == y;
  }

  // ---------- element sequences (Block::parse) ----------

  ghost predicate AllOk(es: seq<Element>)
  {
    forall i :: 0 <= i < |es| ==> ElementOk(es[i])
  }

  ghost function Concat(es: seq<Element>): Bytes
    requires AllOk(es)
  {
    if es == [] then [] else EncodeElement(es[0]) + Concat(es[1..])
  }

  lemma {:induction false} ConcatAppend(es: seq<Element>, fs: seq<Element>)
    requires AllOk(es) && AllOk(fs)
    ensures AllOk(es + fs) && Concat(es + fs) == Concat(es) + Concat(fs)
  {
    if es == [] {
      assert es + fs == fs;
    } else {
      var first, tail := EncodeElement(es[0]), es[1..];
      ConcatAppend(tail, fs);
      assert (es + fs)[0] == es[0] && (es + fs)[1..] == tail + fs;
      Assoc(first, Concat(tail), Concat(fs));
    }
  }

  /** Block::parse on a TLV-VALUE: all sub-elements, or None when it does not end on an element boundary. */
  function ParseElements(s: Bytes): (r: Option<seq<Element>>)
    decreases |s|
  {
    if s == [] then Some([])
    else
      match ReadElement(s)
      case None => None
      case Some((e, n)) =>
        if n == 0 || n > |s| then None
        else
          match ParseElements(s[n..])
          case None => None
          case Some(es) => Some([e] + es)
  }

  lemma ParseElementsStep(e: Element, rest: Bytes)
    requires ElementOk(e)
    ensures ParseElements(EncodeElement(e) + rest) ==
            match ParseElements(rest) { case None => None case Some(es) => Some([e] + es) }
  {
    ReadElementOfEncoding(e, rest);
    assert (EncodeElement(e) + rest)[|EncodeElement(e)|..] == rest;
  }

  lemma ConcatCons(e: Element, es: seq<Element>)
    requires ElementOk(e) && AllOk(es)
    ensures AllOk([e] + es) && Concat([e] + es) == EncodeElement(e) + Concat(es)
  {
    assert ([e] + es)[1..] == es;
  }

  lemma {:induction false} ParseElementsOfConcat(es: seq<Element>)
    requires AllOk(es)
    ensures ParseElements(Concat(es)) == Some(es)
  {
    if es != [] {
      var e, tail := es[0], es[1..];
      ParseElementsOfConcat(tail);
      ParseElementsStep(e, Concat(tail));
      assert es == [e] + tail;
      ConcatCons(e, tail);
    }
  }

  lemma {:induction false} ParseElementsIsCanonical(s: Bytes)
    requires ParseElements(s).Some?
    ensures AllOk(ParseElements(s).value) && s == Concat(ParseElements(s).value)
    decreases |s|
  {
    if s != [] {
      var (e, n) := ReadElement(s).value;
      ReadElementIsCanonical(s);
      ParseElementsIsCanonical(s[n..]);
      ConcatCons(e, ParseElements(s[n..]).value);
      assert s == s[..n] + s[n..];
    }
  }

  /** Block::parse succeeds exactly on concatenations of encodings, and returns the encoded list. */
  lemma ParseElementsIff(s: Bytes, es: seq<Element>)
    ensures ParseElements(s) == Some(es) <==> AllOk(es) && s == Concat(es)
  {
    if ParseElements(s) == Some(es) {
      ParseElementsIsCanonical(s);
    }
    if AllOk(es) && s == Concat(es) {
      ParseElementsOfConcat(es);
    }
  }

  // ---------- NonNegativeInteger ----------

  function NonNegativeWidth(n: nat): nat
  {
    if n < TWO_8 then 1 else if n < TWO_16 then 2 else if n < TWO_32 then 4 else 8
  }

  function NonNegativeInteger(n: nat): (s: Bytes)
    requires n < TWO_64
    ensures 1 <= |s| <= 8
  {
    BigEndian(n, NonNegativeWidth(n))
  }

  /** readNonNegativeInteger: only widths 1, 2, 4 and 8 are accepted. */
  function ReadNonNegativeInteger(s: Bytes): (r: Option<Uint64>)
  {
    Pow256Values();
    if |s| == 1 || |s| == 2 || |s| == 4 || |s| == 8 then Some(FromBigEndian(s)) else None
  }

  /** The shortest of the widths 1, 2, 4 and 8 that the number fits in. */
  lemma {:induction false} NonNegativeIntegerForm(n: nat)
    requires n < TWO_64
    ensures var s := NonNegativeInteger(n);
            && |s| == (if n <= 0xff then 1 else if n <= 0xffff then 2 else if n <= 0xffff_ffff then 4 else 8)
            && FromBigEndian(s) == n
  {
    Pow256Values();
    BigEndianRoundTrip(n, NonNegativeWidth(n));
  }

  lemma NonNegativeIntegerRoundTrip(n: nat)
    requires n < TWO_64
    ensures ReadNonNegativeInteger(NonNegativeInteger(n)) == Some(n)
  {
    Pow256Values();
    BigEndianRoundTrip(n, NonNegativeWidth(n));
  }
}
