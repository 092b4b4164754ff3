/** src/handles/read-handle.cpp: the reference counts of registered data prefixes. */
module PrefixCounts {
  import opened Tlv
  import opened Ndn

  /** Name::getPrefix(-n): all but the last n components, except that 0 gives nothing and a short name all of itself. */
  function GetPrefix(name: Name, n: nat): (p: Name)
    ensures p <= name
  {
    if n == 0 then []
    else if n <= |name| then name[..|name| - n]
    else name
  }

  function InsertPrefix(name: Name, subsetLength: nat): Name
  {
    GetPrefix(name, subsetLength)
  }

  /** Deletion is told the full name, with the digest at its end. */
  function DeletePrefix(fullName: Name, subsetLength: nat): Name
  {
    GetPrefix(fullName, subsetLength + 1)
  }

  function WithDigest(name: Name, digest: Bytes): Name
  {
    name + [ImplicitDigest(digest)]
  }

  predicate Usable(name: Name, subsetLength: nat)
  {
    1 <= subsetLength <= |name| || (subsetLength == 0 && name == [])
  }

  /** Insertion and deletion touch the same prefix exactly for the subset lengths the name is long enough for. */
  lemma SamePrefixIff(name: Name, digest: Bytes, subsetLength: nat)
    ensures DeletePrefix(WithDigest(name, digest), subsetLength) == InsertPrefix(name, subsetLength) <==>
            Usable(name, subsetLength)
  {
    var full := WithDigest(name, digest);
    if 1 <= subsetLength <= |name| {
      assert full[..|full| - (subsetLength + 1)] == name[..|name| - subsetLength];
    } else if subsetLength == 0 {
      assert full[..|full| - 1] == name;
    } else {
      assert |DeletePrefix(full, subsetLength)| == |name| + 1;
    }
  }

  /** The prefix of a usable name is the name without its last components, as many as the subset length says. */
  lemma {:induction false} PrefixIff(name: Name, subsetLength: nat, prefix: Name)
    requires Usable(name, subsetLength)
    ensures prefix == InsertPrefix(name, subsetLength) <==>
            exists rest: Name :: |rest| == subsetLength && prefix + rest == name
  {
    var n := |name| - subsetLength;
    assert name[..n] + name[n..] == name;
    forall rest: Name | |rest| == subsetLength && prefix + rest == name ensures prefix == name[..n] {
      assert (prefix + rest)[..|prefix|] == prefix;
    }
  }

  // ---------- counting ----------

  type Counts = map<Name, int>

  datatype Event = Inserted(name: Name) | Deleted(name: Name, digest: Bytes)

  function AfterInserted(c: Counts, prefix: Name): Counts
  {
    if prefix in c then c[prefix := c[prefix] + 1] else c[prefix := 1]
  }

  function AfterDeleted(c: Counts, prefix: Name): Counts
  {
    if prefix !in c then c
    else if c[prefix] - 1 <= 0 then c - {prefix}
    else c[prefix := c[prefix] - 1]
  }

  function Step(c: Counts, e: Event, subsetLength: nat): Counts
  {
    match e
    case Inserted(name) => AfterInserted(c, InsertPrefix(name, subsetLength))
    case Deleted(name, digest) => AfterDeleted(c, DeletePrefix(WithDigest(name, digest), subsetLength))
  }

  function Run(es: seq<Event>, subsetLength: nat): Counts
  {
    if es == [] then map[] else Step(Run(es[..|es| - 1], subsetLength), es[|es| - 1], subsetLength)
  }

  function CountOf(c: Counts, prefix: Name): int
  {
    if prefix in c then c[prefix] else 0
  }

  /** Insertions minus deletions under a prefix. */
  function Balance(es: seq<Event>, prefix: Name, subsetLength: nat): int
  {
    if es == [] then 0
    else
      var e := es[|es| - 1];
      Balance(es[..|es| - 1], prefix, subsetLength) +
      (match e
       case Inserted(name) => if InsertPrefix(name, subsetLength) == prefix then 1 else 0
       case Deleted(name, digest) =>
         if DeletePrefix(WithDigest(name, digest), subsetLength) == prefix then -1 else 0)
  }

  /** At no moment have there been more deletions than insertions under the prefix. */
  predicate Covered(es: seq<Event>, prefix: Name, subsetLength: nat)
  {
    && (es != [] ==> Covered(es[..|es| - 1], prefix, subsetLength))
    && Balance(es, prefix, subsetLength) >= 0
  }

  /**
   * For any events at all: a prefix is registered exactly while its count is positive, the count is never below
   * insertions minus deletions, and it equals them if and only if the deletions have always been covered.
   */
  lemma {:induction false} CountsAreBalancesIff(es: seq<Event>, prefix: Name, subsetLength: nat)
    ensures var c := Run(es, subsetLength);
            && (prefix in c <==> CountOf(c, prefix) > 0)
            && CountOf(c, prefix) >= Balance(es, prefix, subsetLength)
            && (CountOf(c, prefix) == Balance(es, prefix, subsetLength) <==> Covered(es, prefix, subsetLength))
  {
    if es != [] {
      CountsAreBalancesIff(es[..|es| - 1], prefix, subsetLength);
    }
  }

  // ---------- data, not prefixes ----------

  function Without(names: seq<Name>, name: Name): seq<Name>
  {
    if names == [] then []
    else if names[0] == name then names[1..]
    else [names[0]] + Without(names[1..], name)
  }

  lemma {:induction false} WithoutIsMinus(names: seq<Name>, name: Name)
    ensures multiset(Without(names, name)) == multiset(names) - multiset{name}
  {
    if names != [] {
      assert names == [names[0]] + names[1..];
      WithoutIsMinus(names[1..], name);
    }
  }

  /** The names held after the events, in order of insertion. */
  function Held(es: seq<Event>): seq<Name>
  {
    if es == [] then []
    else
      match es[|es| - 1]
      case Inserted(name) => Held(es[..|es| - 1]) + [name]
      case Deleted(name, _) => Without(Held(es[..|es| - 1]), name)
  }

  /** Only names that are long enough occur, and only names that are held get deleted. */
  predicate Legal(es: seq<Event>, subsetLength: nat)
  {
    es != [] ==>
      && Legal(es[..|es| - 1], subsetLength)
      && Usable(es[|es| - 1].name, subsetLength)
      && (es[|es| - 1].Deleted? ==> es[|es| - 1].name in Held(es[..|es| - 1]))
  }

  function InsertedNames(es: seq<Event>): multiset<Name>
  {
    if es == [] then multiset{}
    else
      var e := es[|es| - 1];
      InsertedNames(es[..|es| - 1]) + (if e.Inserted? then multiset{e.name} else multiset{})
  }

  function DeletedNames(es: seq<Event>): multiset<Name>
  {
    if es == [] then multiset{}
    else
      var e := es[|es| - 1];
      DeletedNames(es[..|es| - 1]) + (if e.Deleted? then multiset{e.name} else multiset{})
  }

  /** What is held, together with what was deleted, is what was inserted, each as often as it happened. */
  lemma {:induction false} HeldIsInsertedMinusDeleted(es: seq<Event>, subsetLength: nat)
    requires Legal(es, subsetLength)
    ensures multiset(Held(es)) + DeletedNames(es) == InsertedNames(es)
  {
    if es != [] {
      var init, e := es[..|es| - 1], es[|es| - 1];
      HeldIsInsertedMinusDeleted(init, subsetLength);
      if e.Deleted? {
        WithoutIsMinus(Held(init), e.name);
      }
    }
  }

  function CountUnder(names: seq<Name>, prefix: Name, subsetLength: nat): nat
  {
    if names == [] then 0
    else
      (if InsertPrefix(names[0], subsetLength) == prefix then 1 else 0) + CountUnder(names[1..], prefix, subsetLength)
  }

  lemma {:induction false} CountUnderAppend(names: seq<Name>, name: Name, prefix: Name, subsetLength: nat)
    ensures CountUnder(names + [name], prefix, subsetLength) ==
            CountUnder(names, prefix, subsetLength) + (if InsertPrefix(name, subsetLength) == prefix then 1 else 0)
  {
    if names != [] {
      CountUnderAppend(names[1..], name, prefix, subsetLength);
      assert (names + [name])[1..] == names[1..] + [name];
    }
  }

  lemma {:induction false} CountUnderWithout(names: seq<Name>, name: Name, prefix: Name, subsetLength: nat)
    requires name in names
    ensures CountUnder(Without(names, name), prefix, subsetLength) ==
            CountUnder(names, prefix, subsetLength) - (if InsertPrefix(name, subsetLength) == prefix then 1 else 0)
  {
    if names[0] != name {
      CountUnderWithout(names[1..], name, prefix, subsetLength);
      assert Without(names, name)[1..] == Without(names[1..], name);
    }
  }

  /** In a legal history each registered prefix's count is the number of held names under it. */
  lemma {:induction false} CountsAreHeldNames(es: seq<Event>, prefix: Name, subsetLength: nat)
    requires Legal(es, subsetLength)
    ensures var c, n := Run(es, subsetLength), CountUnder(Held(es), prefix, subsetLength);
            && CountOf(c, prefix) == Balance(es, prefix, subsetLength) == n
            && (prefix in c <==> n > 0)
  {
    CountsAreBalancesIff(es, prefix, subsetLength);
    if es != [] {
      var init, e := es[..|es| - 1], es[|es| - 1];
      CountsAreHeldNames(init, prefix, subsetLength);
      CountsAreBalancesIff(init, prefix, subsetLength);
      match e {
        case Inserted(name) =>
          CountUnderAppend(Held(init), name, prefix, subsetLength);
        case Deleted(name, digest) =>
          CountUnderWithout(Held(init), name, prefix, subsetLength);
          SamePrefixIff(name, digest, subsetLength);
      }
    }
  }

  /** With subset length 0 the count of the empty prefix only grows, and nothing deleted is ever unregistered. */
  lemma ZeroLengthLeaks(name: Name, digest: Bytes)
    requires name != []
    ensures Run([Inserted(name), Deleted(name, digest)], 0) == map[[] := 1]
  {
    var e, d := Inserted(name), Deleted(name, digest);
    assert [e, d][..1] == [e] && [e][..0] == [];
    assert Run([e], 0) == map[[] := 1];
    SamePrefixIff(name, digest, 0);
  }

  // ---------- the object ----------

  class ReadHandle {
    const prefixSubsetLength: nat
    var insertedDataPrefixes: map<Name, int>

    constructor (prefixSubsetLength: nat)
      ensures this.prefixSubsetLength == prefixSubsetLength && insertedDataPrefixes == map[]
    {
      this.prefixSubsetLength := prefixSubsetLength;
      insertedDataPrefixes := map[];
    }

    method OnDataDeleted(name: Name, digest: Bytes)
      modifies this
      ensures insertedDataPrefixes == Step(old(insertedDataPrefixes), Deleted(name, digest), prefixSubsetLength)
    {
      var prefix := GetPrefix(WithDigest(name, digest), prefixSubsetLength + 1);
      if prefix in insertedDataPrefixes {
        var useCount := insertedDataPrefixes[prefix] - 1;
        insertedDataPrefixes := insertedDataPrefixes[prefix := useCount];
        if useCount <= 0 {
          insertedDataPrefixes := insertedDataPrefixes - {prefix};
        }
      }
    }

    method OnDataInserted(name: Name)
      modifies this
      ensures insertedDataPrefixes == Step(old(insertedDataPrefixes), Inserted(name), prefixSubsetLength)
    {
      var prefixToRegister := GetPrefix(name, prefixSubsetLength);
      if prefixToRegister !in insertedDataPrefixes {
        insertedDataPrefixes := insertedDataPrefixes[prefixToRegister := 1];
      } else {
        insertedDataPrefixes := insertedDataPrefixes[prefixToRegister := insertedDataPrefixes[prefixToRegister] + 1];
      }
    }
  }
}
