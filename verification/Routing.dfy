/**
 * Two ways in which src/handles/keyspace-handle.cpp compares a hash with a range: routing (getManifestStorage)
 * zero-fills each byte to two digits, the migration filter does not.
 */
module Routing {
  import opened Options
  import opened HexText
  import opened Keyspace

  // ---------- routing ----------

  /** The first node whose range contains the byte. */
  function OwnerOf(t: Table, b: nat): (o: Option<string>)
    ensures o.Some? <==> IsCovered(t, b)
  {
    if t == [] then None
    else if Covers(t[0], b) then
      assert IsCovered(t, b);
      Some(t[0].node)
    else
      assert IsCovered(t[1..], b) ==> IsCovered(t, b) by {
        if IsCovered(t[1..], b) {
          var i :| 0 <= i < |t[1..]| && Covers(t[1..][i], b);
          assert Covers(t[i + 1], b);
        }
      }
      assert IsCovered(t, b) ==> IsCovered(t[1..], b) by {
        if IsCovered(t, b) {
          var i :| 0 <= i < |t| && Covers(t[i], b);
          assert Covers(t[1..][i - 1], b);
        }
      }
      OwnerOf(t[1..], b)
  }

  /** On disjoint ranges the owner is the node of the only range that contains the byte. */
  lemma {:induction false} OwnerIsUnique(t: Table, i: nat, b: nat)
    requires Disjoint(t) && i < |t| && Covers(t[i], b)
    ensures OwnerOf(t, b) == Some(t[i].node)
  {
    if i > 0 {
      ApartEither(t, 0, i);
      forall j, k | 0 <= j < k < |t[1..]| ensures Apart(t[1..][j], t[1..][k]) {
        assert Apart(t[j + 1], t[k + 1]);
      }
      OwnerIsUnique(t[1..], i - 1, b);
    }
  }

  lemma OwnerIsANode(t: Table, b: nat)
    requires OwnerOf(t, b).Some?
    ensures exists i :: 0 <= i < |t| && Covers(t[i], b) && OwnerOf(t, b) == Some(t[i].node)
  {
    if !Covers(t[0], b) {
      OwnerIsANode(t[1..], b);
      var i :| 0 <= i < |t[1..]| && Covers(t[1..][i], b) && OwnerOf(t[1..], b) == Some(t[1..][i].node);
      assert Covers(t[i + 1], b) && t[i + 1] == t[1..][i];
    }
  }

  datatype RouteError = OutOfRange

  /** One entry takes the hash when some value of its range, zero-filled to two digits, is a prefix of it. */
  ghost predicate Takes(e: Entry, hash: string)
  {
    exists k: nat :: e.start <= k <= e.end && HasPrefix(hash, ZeroFill(Hex(k), 2))
  }

  ghost function Route(t: Table, hash: string): Result<string, RouteError>
  {
    if t == [] then Ok("")
    else if !Parsable(t[0].start) || !Parsable(t[0].end) then Err(OutOfRange)
    else if Takes(t[0], hash) then Ok(t[0].node)
    else Route(t[1..], hash)
  }

  /** The entry's numbers parse, and it does not take the hash. */
  ghost predicate PassesOn(e: Entry, hash: string)
  {
    e.start <= 0x7fff_ffff && e.end <= 0x7fff_ffff && !Takes(e, hash)
  }

  /** For any table: the first entry that does not pass the hash on takes it or, with an unparsable number, throws. */
  lemma {:induction false} RouteIs(t: Table, hash: string, i: nat)
    requires i <= |t| && (forall j :: 0 <= j < i ==> PassesOn(t[j], hash)) && (i < |t| ==> !PassesOn(t[i], hash))
    ensures Route(t, hash) ==
            if i == |t| then Ok("")
            else if t[i].start > 0x7fff_ffff || t[i].end > 0x7fff_ffff then Err(OutOfRange)
            else Ok(t[i].node)
  {
    if i > 0 {
      assert PassesOn(t[0], hash);
      forall j | 0 <= j < i - 1 ensures PassesOn(t[1..][j], hash) {
        assert PassesOn(t[j + 1], hash);
      }
      RouteIs(t[1..], hash, i - 1);
    }
  }

  /** getManifestStorage: the empty name when no entry matches. */
  method GetManifestStorage(keySpaceFile: Table, hash: string) returns (r: Result<string, RouteError>)
    ensures r == Route(keySpaceFile, hash)
  {
    var i := 0;
    while i < |keySpaceFile|
      invariant 0 <= i <= |keySpaceFile|
      invariant Route(keySpaceFile, hash) == Route(keySpaceFile[i..], hash)
    {
      var e := keySpaceFile[i];
      assert keySpaceFile[i..][0] == e && keySpaceFile[i..][1..] == keySpaceFile[i + 1..];
      if !Parsable(e.start) || !Parsable(e.end) {
        return Err(OutOfRange);
      }
      var start := e.start;
      while start <= e.end
        invariant e.start <= start
        invariant forall k: nat :: e.start <= k < start ==> !HasPrefix(hash, ZeroFill(Hex(k), 2))
      {
        if HasPrefix(hash, ZeroFill(Hex(start), 2)) {
          return Ok(e.node);
        }
        start := start + 1;
      }
      i := i + 1;
    }
    r := Ok("");
  }

  lemma TakesIff(e: Entry, hash: string)
    requires e.end <= 0xff
    ensures Takes(e, hash) <==> TopByte(hash).Some? && Covers(e, TopByte(hash).value)
  {
    if Takes(e, hash) {
      var k: nat :| e.start <= k <= e.end && HasPrefix(hash, ZeroFill(Hex(k), 2));
      TwoDigitPrefix(hash, k);
    }
    if TopByte(hash).Some? && Covers(e, TopByte(hash).value) {
      TwoDigitPrefix(hash, TopByte(hash).value);
    }
  }

  lemma {:induction false} RouteIsOwner(t: Table, hash: string)
    requires NonEmptyBytes(t)
    ensures Route(t, hash) ==
            Ok(if TopByte(hash).Some? && IsCovered(t, TopByte(hash).value)
               then OwnerOf(t, TopByte(hash).value).value else "")
  {
    if t != [] {
      TakesIff(t[0], hash);
      RouteIsOwner(t[1..], hash);
    }
  }

  /**
   * Routing refinement: on a partition, the hex-prefix loops find the node of the unique range that contains
   * the hash's top byte, and they fail exactly when the hash does not start with two hexadecimal digits.
   */
  lemma RoutingRefinesOwnership(t: Table, hash: string)
    requires IsPartition(t)
    ensures TopByte(hash).None? ==> Route(t, hash) == Ok("")
    ensures TopByte(hash).Some? ==>
              exists i :: 0 <= i < |t| && Covers(t[i], TopByte(hash).value) && Route(t, hash) == Ok(t[i].node)
                          && forall j :: 0 <= j < |t| && Covers(t[j], TopByte(hash).value) ==> j == i
  {
    RouteIsOwner(t, hash);
    if TopByte(hash).Some? {
      var b := TopByte(hash).value;
      assert IsCovered(t, b);
      OwnerIsANode(t, b);
      var i :| 0 <= i < |t| && Covers(t[i], b) && OwnerOf(t, b) == Some(t[i].node);
      forall j | 0 <= j < |t| && Covers(t[j], b) ensures j == i {
        if j != i {
          ApartEither(t, i, j);
        }
      }
    }
  }

  // ---------- the migration filter ----------

  /** How often the filter's inner loop matches a key over the values lo, lo+1, ..., hi; negative ones print wrapped. */
  function MatchCount(key: string, lo: Int32, hi: int): (n: nat)
    requires hi <= 0x7fff_ffff
    decreases hi - lo + 1
  {
    if lo > hi then 0 else (if HasPrefix(key, Hex(Printed(hi))) then 1 else 0) + MatchCount(key, lo, hi - 1)
  }

  function Repeat(key: string, n: nat): (r: seq<string>)
  {
    if n == 0 then [] else Repeat(key, n - 1) + [key]
  }

  /** The commands the double loop sends, in order: every key once per match. */
  function Selected(keys: seq<string>, lo: Int32, hi: Int32): (r: seq<string>)
  {
    if keys == [] then []
    else Selected(keys[..|keys| - 1], lo, hi) + Repeat(keys[|keys| - 1], MatchCount(keys[|keys| - 1], lo, hi))
  }

  /** The inner loop: one command for each value of the range whose text is a prefix of the key. */
  method SelectKey(key: string, lo: Int32, hi: Int32) returns (commands: seq<string>)
    ensures commands == Repeat(key, MatchCount(key, lo, hi))
  {
    commands := [];
    var start: int := lo;
    while start <= hi
      invariant start >= lo && (start == lo || start <= hi + 1)
      invariant commands == Repeat(key, MatchCount(key, lo, start - 1))
    {
      if HasPrefix(key, Hex(Printed(start))) {
        commands := commands + [key];
      }
      start := start + 1;
    }
    if lo > hi {
      assert MatchCount(key, lo, hi) == 0;
    }
  }

  /** The double loop shared by onManifestListCommandResponse and onCompleteCommandResponse. */
  method SelectKeys(keys: seq<string>, lo: Int32, hi: Int32) returns (commands: seq<string>)
    ensures commands == Selected(keys, lo, hi)
  {
    commands := [];
    var i := 0;
    while i < |keys|
      invariant 0 <= i <= |keys|
      invariant commands == Selected(keys[..i], lo, hi)
    {
      var matches := SelectKey(keys[i], lo, hi);
      commands := commands + matches;
      assert keys[..i + 1][..i] == keys[..i];
      i := i + 1;
    }
    assert keys[..i] == keys;
  }

  lemma {:induction false} MatchCountFromSixteen(key: string, lo: Int32, hi: int)
    requires TopByte(key).Some? && 0x10 <= lo && hi <= 0xff
    ensures MatchCount(key, lo, hi) == if lo <= TopByte(key).value <= hi then 1 else 0
    decreases hi - lo + 1
  {
    if lo <= hi {
      UnpaddedPrefix(key, hi);
      MatchCountFromSixteen(key, lo, hi - 1);
    }
  }

  lemma {:induction false} MatchCountNone(key: string, lo: Int32, hi: int)
    requires hi <= 0x7fff_ffff && forall k: Int32 :: lo <= k <= hi ==> !HasPrefix(key, Hex(Printed(k)))
    ensures MatchCount(key, lo, hi) == 0
    decreases hi - lo + 1
  {
    if lo <= hi {
      MatchCountNone(key, lo, hi - 1);
    }
  }

  lemma {:induction false} MatchCountSome(key: string, lo: Int32, hi: int, k: Int32)
    requires lo <= k <= hi <= 0x7fff_ffff && HasPrefix(key, Hex(Printed(k)))
    ensures MatchCount(key, lo, hi) >= 1
    ensures k < hi && HasPrefix(key, Hex(Printed(hi))) ==> MatchCount(key, lo, hi) >= 2
    decreases hi - lo + 1
  {
    if k < hi {
      MatchCountSome(key, lo, hi - 1, k);
    }
  }

  lemma {:induction false} MatchCountTwo(key: string, lo: Int32, hi: int, k: Int32, l: Int32)
    requires lo <= k < l <= hi <= 0x7fff_ffff && HasPrefix(key, Hex(Printed(k))) && HasPrefix(key, Hex(Printed(l)))
    ensures MatchCount(key, lo, hi) >= 2
    decreases hi - lo + 1
  {
    if l < hi {
      MatchCountTwo(key, lo, hi - 1, k, l);
    } else {
      MatchCountSome(key, lo, hi, k);
    }
  }

  /** The filter is right for a key when it matches once for the keys of the range and never for the others. */
  ghost predicate FilterIsExact(key: string, lo: Int32, hi: Int32)
    requires TopByte(key).Some?
  {
    MatchCount(key, lo, hi) == if lo <= TopByte(key).value <= hi then 1 else 0
  }

  /** A two-character key with a given top byte. */
  function KeyFor(b: nat): (key: string)
    requires b <= 0xff
    ensures TopByte(key) == Some(b)
  {
    PairPrefix([HexDigit(b / 16), HexDigit(b % 16)], b / 16, b % 16);
    [HexDigit(b / 16), HexDigit(b % 16)]
  }

  /** A range that starts below 0x10 mishandles some key. */
  lemma LowRangeMishandles(lo: Int32, hi: Int32) returns (key: string)
    requires 0 <= lo < 0x10 && lo <= hi <= 0xff
    ensures TopByte(key).Some? && !FilterIsExact(key, lo, hi)
  {
    if lo > 0 {
      key := KeyFor(lo);
      forall k: Int32 | lo <= k <= hi ensures !HasPrefix(key, Hex(Printed(k))) {
        UnpaddedPrefix(key, k);
      }
      MatchCountNone(key, lo, hi);
    } else if hi == 0 {
      key := KeyFor(1);
      UnpaddedPrefix(key, 0);
      MatchCountSome(key, 0, 0, 0);
    } else {
      key := KeyFor(0x10);
      UnpaddedPrefix(key, 1);
      MatchCountSome(key, 0, hi, 1);
      if hi >= 0x10 {
        UnpaddedPrefix(key, 0x10);
        MatchCountTwo(key, 0, hi, 1, 0x10);
      }
    }
  }

  /** The filter selects exactly the keys of a range, each once, if and only if the range starts at 0x10 or above. */
  lemma FilterIsExactIff(lo: Int32, hi: Int32)
    requires 0 <= lo <= hi <= 0xff
    ensures (forall key: string :: TopByte(key).Some? ==> FilterIsExact(key, lo, hi)) <==> lo >= 0x10
  {
    if lo >= 0x10 {
      forall key: string | TopByte(key).Some? ensures FilterIsExact(key, lo, hi) {
        MatchCountFromSixteen(key, lo, hi);
      }
    } else {
      var key := LowRangeMishandles(lo, hi);
    }
  }

  lemma InRepeat(key: string, n: nat)
    ensures forall x :: x in Repeat(key, n) ==> x == key
    ensures n > 0 ==> key in Repeat(key, n)
  {
  }

  /** Which keys are selected at all. */
  lemma {:induction false} SelectedIff(keys: seq<string>, lo: Int32, hi: Int32, key: string)
    ensures key in Selected(keys, lo, hi) <==> key in keys && MatchCount(key, lo, hi) > 0
  {
    if keys != [] {
      var last := keys[|keys| - 1];
      SelectedIff(keys[..|keys| - 1], lo, hi, key);
      InRepeat(last, MatchCount(last, lo, hi));
      assert key in keys <==> key in keys[..|keys| - 1] || key == last;
    }
  }
}
