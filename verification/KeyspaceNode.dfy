/**
 * The KeySpaceHandle object of src/handles/keyspace-handle.cpp. `Node` is its state as a value and the
 * functions on `Node` say what each handler does to it and which Interests it expresses; the class performs
 * the same steps on its fields, with the loops of the source, and is proved against those functions.
 */
module KeyspaceNode {
  import opened Options
  import opened Keyspace
  import opened Routing

  /** Interests and replies, with the node they are addressed to or come from. */
  datatype Message =
    | Announce(node: string, version: nat)
    | Fetch(requester: string, version: nat)
    | FetchReply(requester: string, version: nat, content: Option<Table>)
    | Coordinate(to: string, from: string)
    | ListManifests(from: string)
    | Find(from: string, key: string)
    | Complete
    | OnlyDelete(from: string, key: string)

  /** `version` is None for the empty text and Some(n) for "v<n>". */
  datatype Node = Node(self: string, keySpaceFile: Table, version: Option<nat>, versionNum: nat,
                       from: string, to: string, start: Int32, end: Int32, manifestList: Option<seq<string>>)

  // ---------- what the handlers do ----------

  /** What differs between two starts: the configured `from`, and what the two uninitialised ints happen to hold. */
  datatype Boot = Boot(from: string, start: Int32, end: Int32)

  function InitialManager(self: string, boot: Boot): Node
  {
    Node(self, InitialTable(self), Some(0), 1, boot.from, "", boot.start, boot.end, None)
  }

  function InitialMember(self: string, boot: Boot): Node
  {
    Node(self, [], None, 0, boot.from, "", boot.start, boot.end, None)
  }

  /** initKeySpaceFile and every change of the table name the version with the counter's old value. */
  function Publish(n: Node, t: Table): Node
  {
    n.(keySpaceFile := t, version := Some(n.versionNum), versionNum := n.versionNum + 1)
  }

  function AfterCommand(n: Node, c: Command): Node
  {
    var n' := n.(from := c.from, to := c.to);
    match Apply(n.keySpaceFile, c)
    case Changed(t) => Publish(n', t)
    case _ => n'
  }

  /** onVersionCommand: every node of the table except the first one is told. */
  function AnnouncementsFrom(t: Table, i: nat, version: nat): (r: seq<Message>)
    requires i <= |t|
    decreases |t| - i
  {
    if i == |t| then []
    else (if i == 0 then [] else [Announce(t[i].node, version)]) + AnnouncementsFrom(t, i + 1, version)
  }

  function Announcements(n: Node): seq<Message>
  {
    if n.version.None? then [] else AnnouncementsFrom(n.keySpaceFile, 0, n.version.value)
  }

  function SentByCommand(n: Node, c: Command): seq<Message>
  {
    if Apply(n.keySpaceFile, c).Changed? then Announcements(AfterCommand(n, c)) else []
  }

  function SentOnVersion(n: Node, version: nat): seq<Message>
  {
    if Some(version) != n.version then [Fetch(n.self, version)] else []
  }

  /** handleFetchCommand: the table goes out only under its own version; every fetch triggers a coordination. */
  function SentOnFetch(n: Node, requester: string, version: nat): seq<Message>
  {
    [FetchReply(requester, version, if n.version == Some(version) then Some(n.keySpaceFile) else None),
     Coordinate(n.to, n.from)]
  }

  /** The first entry that names this node sets its range; a number that does not parse throws in between. */
  function WithOwnRange(n: Node): Node
  {
    if !HasNode(n.keySpaceFile, n.self) then n
    else
      var e := EntryOf(n.keySpaceFile, n.self);
      if !Parsable(e.start) then n
      else if !Parsable(e.end) then n.(start := e.start)
      else n.(start := e.start, end := e.end)
  }

  function AfterFetchReply(n: Node, version: nat, content: Option<Table>): Node
  {
    match content
    case None => n
    case Some(t) => WithOwnRange(n.(version := Some(version), keySpaceFile := t))
  }

  function AfterCoordinate(n: Node, from: Option<string>): Node
  {
    if from.Some? then n.(from := from.value) else n
  }

  function AfterManifestList(n: Node, keys: Option<seq<string>>): Node
  {
    if keys.Some? then n.(manifestList := keys) else n
  }

  function FindsFor(from: string, keys: seq<string>): seq<Message>
  {
    seq(|keys|, i requires 0 <= i < |keys| => Find(from, keys[i]))
  }

  function DeletesFor(from: string, keys: seq<string>): seq<Message>
  {
    seq(|keys|, i requires 0 <= i < |keys| => OnlyDelete(from, keys[i]))
  }

  function SentOnManifestList(n: Node, keys: Option<seq<string>>): seq<Message>
  {
    if keys.None? then [] else FindsFor(n.from, Selected(keys.value, n.start, n.end)) + [Complete]
  }

  /** The filter runs a second time, over the list remembered from the last manifest-list reply. */
  function SentOnCompleted(n: Node): seq<Message>
  {
    if n.manifestList.None? then [] else DeletesFor(n.from, Selected(n.manifestList.value, n.start, n.end))
  }

  lemma FirstIndex(t: Table, node: string, i: nat)
    requires i < |t| && t[i].node == node
    requires forall k :: 0 <= k < i ==> t[k].node != node
    ensures HasNode(t, node) && IndexOf(t, node) == i
  {
  }

  lemma {:induction false} AnnouncementsAreTo(t: Table, i: nat, version: nat)
    requires i <= |t|
    ensures forall m :: m in AnnouncementsFrom(t, i, version) ==> m.Announce? && m.version == version
    decreases |t| - i
  {
    if i < |t| {
      AnnouncementsAreTo(t, i + 1, version);
    }
  }

  lemma {:induction false} AnnouncementsCount(t: Table, i: nat, version: nat)
    requires i <= |t|
    ensures |AnnouncementsFrom(t, i, version)| == |t| - i - (if i == 0 && t != [] then 1 else 0)
    decreases |t| - i
  {
    if i < |t| {
      AnnouncementsCount(t, i + 1, version);
    }
  }

  /** An announcement makes a node fetch exactly the version it has not got. */
  lemma {:induction false} FetchesIff(n: Node, version: nat, m: Message)
    ensures m in SentOnVersion(n, version) <==> n.version != Some(version) && m == Fetch(n.self, version)
  {
  }

  lemma {:induction false} EntryIsTold(t: Table, i: nat, version: nat, k: nat)
    requires i <= k < |t| && k > 0
    ensures Announce(t[k].node, version) in AnnouncementsFrom(t, i, version)
    decreases |t| - i
  {
    if i < k {
      EntryIsTold(t, i + 1, version, k);
    }
  }

  lemma {:induction false} ToldEntry(t: Table, i: nat, version: nat, m: Message) returns (k: nat)
    requires i <= |t| && m in AnnouncementsFrom(t, i, version)
    ensures i <= k < |t| && k > 0 && m == Announce(t[k].node, version)
    decreases |t| - i
  {
    if m in AnnouncementsFrom(t, i + 1, version) {
      k := ToldEntry(t, i + 1, version, m);
    } else {
      k := i;
    }
  }

  /** Exactly the nodes of the second and later entries are told, and of that version. */
  lemma {:induction false} AnnouncedIff(t: Table, version: nat, m: Message)
    ensures m in AnnouncementsFrom(t, 0, version) <==> exists k :: 0 < k < |t| && m == Announce(t[k].node, version)
  {
    if m in AnnouncementsFrom(t, 0, version) {
      var k := ToldEntry(t, 0, version, m);
    }
    if k :| 0 < k < |t| && m == Announce(t[k].node, version) {
      EntryIsTold(t, 0, version, k);
    }
  }

  /** A command that changes the table tells nobody exactly when at most one entry is left. */
  lemma {:induction false} NobodyIsToldIff(n: Node, c: Command)
    requires Apply(n.keySpaceFile, c).Changed?
    ensures SentByCommand(n, c) == [] <==> |AfterCommand(n, c).keySpaceFile| <= 1
  {
    var n' := AfterCommand(n, c);
    AnnouncementsCount(n'.keySpaceFile, 0, n'.version.value);
  }

  /** In particular the command that ends a cluster of two tells nobody. */
  lemma {:induction false} LastDeleteTellsNobody(n: Node, from: string, to: string)
    requires |n.keySpaceFile| == 2 && IsRing(n.keySpaceFile) && HasNode(n.keySpaceFile, from)
    ensures SentByCommand(n, Delete(from, to, 0, 0)) == []
  {
    DeleteKeepsRingIff(n.keySpaceFile, from, to, 0, 0);
    NobodyIsToldIff(n, Delete(from, to, 0, 0));
  }

  // ---------- the handler object ----------

  class KeySpaceHandle {
    const repoPrefix: string
    var keySpaceFile: Table
    var version: Option<nat>
    var versionNum: nat
    var from: string
    var to: string
    var start: Int32
    var end: Int32
    var manifestList: Option<seq<string>>

    function View(): Node
      reads this
    {
      Node(repoPrefix, keySpaceFile, version, versionNum, from, to, start, end, manifestList)
    }

    constructor (repoPrefix: string, isManager: bool, boot: Boot)
      ensures View() == if isManager then InitialManager(repoPrefix, boot) else InitialMember(repoPrefix, boot)
      ensures from == boot.from && to == "" && start == boot.start && end == boot.end && manifestList == None
      ensures if isManager then keySpaceFile == [Entry(repoPrefix, 0x00, 0xff)] && version == Some(0) && versionNum == 1
              else keySpaceFile == [] && version == None && versionNum == 0
    {
      this.repoPrefix := repoPrefix;
      keySpaceFile, version, versionNum := [], None, 0;
      from, to, start, end, manifestList := boot.from, "", boot.start, boot.end, None;
      new;
      if isManager {
        InitKeySpaceFile();
      }
    }

    method InitKeySpaceFile()
      modifies this
      ensures View() == Publish(old(View()), InitialTable(repoPrefix))
    {
      keySpaceFile := [Entry(repoPrefix, 0x00, 0xff)];
      version := Some(versionNum);
      versionNum := versionNum + 1;
    }

    method OnVersionCommand() returns (sent: seq<Message>)
      ensures sent == Announcements(View())
    {
      sent := [];
      if version.None? {
        return;
      }
      var i := 0;
      while i < |keySpaceFile|
        invariant 0 <= i <= |keySpaceFile|
        invariant AnnouncementsFrom(keySpaceFile, 0, version.value) ==
                  sent + AnnouncementsFrom(keySpaceFile, i, version.value)
      {
        if i != 0 {
          sent := sent + [Announce(keySpaceFile[i].node, version.value)];
        }
        i := i + 1;
      }
    }

    method HandleVersionCommand(announced: nat) returns (sent: seq<Message>)
      ensures sent == SentOnVersion(View(), announced)
    {
      sent := [];
      if Some(announced) != version {
        sent := [Fetch(repoPrefix, announced)];
      }
    }

    method HandleFetchCommand(requester: string, wanted: nat) returns (sent: seq<Message>)
      ensures sent == SentOnFetch(View(), requester, wanted)
    {
      if Some(wanted) == version {
        sent := [FetchReply(requester, wanted, Some(keySpaceFile))];
      } else {
        sent := [FetchReply(requester, wanted, None)];
      }
      sent := sent + [Coordinate(to, from)];
    }

    method OnFetchCommandResponse(fetched: nat, content: Option<Table>)
      modifies this
      ensures View() == AfterFetchReply(old(View()), fetched, content)
    {
      if content.None? {
        return;
      }
      version := Some(fetched);
      keySpaceFile := content.value;
      var i := 0;
      while i < |keySpaceFile|
        invariant 0 <= i <= |keySpaceFile|
        invariant View() == old(View()).(version := Some(fetched), keySpaceFile := content.value)
        invariant forall k :: 0 <= k < i ==> keySpaceFile[k].node != repoPrefix
      {
        if keySpaceFile[i].node == repoPrefix {
          FirstIndex(keySpaceFile, repoPrefix, i);
          if !Parsable(keySpaceFile[i].start) {
            return;
          }
          start := keySpaceFile[i].start;
          if !Parsable(keySpaceFile[i].end) {
            return;
          }
          end := keySpaceFile[i].end;
          return;
        }
        i := i + 1;
      }
    }

    /** The source's entry gives up the upper half of its range to a new last entry. */
    method SplitEntry(before: Table, i: nat, newTo: string) returns (keySpaces: Table)
      requires i < |before| && Parsable(before[i].start) && Parsable(before[i].end)
      ensures keySpaces == before[i := LeftPart(before[i])] + [RightPart(before[i], newTo)]
    {
      var first: int, last: int := before[i].start, before[i].end;
      var hashSize := Half(last - first);
      var fromStart := last - hashSize;
      var fromEnd := last;
      last := fromStart - 1;
      keySpaces := before[i := before[i].(end := Printed(last))];
      var toNode := Entry(newTo, Printed(fromStart), Printed(fromEnd));
      keySpaces := keySpaces + [toNode];
    }

    method HandleAddCommand(newFrom: string, newTo: string) returns (sent: seq<Message>)
      modifies this
      ensures View() == AfterCommand(old(View()), Add(newFrom, newTo))
      ensures sent == SentByCommand(old(View()), Add(newFrom, newTo))
    {
      sent := [];
      from, to := newFrom, newTo;
      var keySpaces := keySpaceFile;
      var i := 0;
      while i < |keySpaces|
        invariant 0 <= i <= |keySpaces| && keySpaces == keySpaceFile && sent == []
        invariant View() == old(View()).(from := newFrom, to := newTo)
        invariant forall k :: 0 <= k < i ==> keySpaces[k].node != from
      {
        if keySpaces[i].node == from {
          FirstIndex(keySpaces, from, i);
          if !Parsable(keySpaces[i].start) || !Parsable(keySpaces[i].end) {
            return;
          }
          keySpaces := SplitEntry(keySpaces, i, to);
          keySpaceFile := keySpaces;
          version := Some(versionNum);
          versionNum := versionNum + 1;
          sent := OnVersionCommand();
          return;
        }
        i := i + 1;
      }
      assert !HasNode(keySpaceFile, from);
    }

    /** The first loop of the delete handler: the source's entry goes, and its numbers are read; stoi may throw. */
    method RemoveSource(before: Table, junkStart: Int32, junkEnd: Int32)
      returns (keySpaces: Table, fromStart: Int32, fromEnd: Int32, ok: bool)
      ensures if !HasNode(before, from) then ok && keySpaces == before && fromStart == junkStart && fromEnd == junkEnd
              else
                var e := EntryOf(before, from);
                && ok == (Parsable(e.start) && Parsable(e.end))
                && (ok ==> keySpaces == Without(before, IndexOf(before, from))
                           && fromStart == e.start && fromEnd == e.end)
    {
      keySpaces, fromStart, fromEnd, ok := before, junkStart, junkEnd, true;
      var i := 0;
      while i < |keySpaces|
        invariant 0 <= i <= |keySpaces| && keySpaces == before && ok
        invariant fromStart == junkStart && fromEnd == junkEnd
        invariant forall k :: 0 <= k < i ==> keySpaces[k].node != from
      {
        if keySpaces[i].node == from {
          FirstIndex(keySpaces, from, i);
          if !Parsable(keySpaces[i].start) || !Parsable(keySpaces[i].end) {
            ok := false;
            return;
          }
          fromStart, fromEnd := keySpaces[i].start, keySpaces[i].end;
          keySpaces := keySpaces[..i] + keySpaces[i + 1..];
          return;
        }
        i := i + 1;
      }
      assert !HasNode(before, from);
    }

    method HandleDeleteCommand(newFrom: string, newTo: string, junkStart: Int32, junkEnd: Int32)
      returns (sent: seq<Message>)
      modifies this
      ensures View() == AfterCommand(old(View()), Delete(newFrom, newTo, junkStart, junkEnd))
      ensures sent == SentByCommand(old(View()), Delete(newFrom, newTo, junkStart, junkEnd))
    {
      sent := [];
      from, to := newFrom, newTo;
      var keySpaces, fromStart, fromEnd, parsed := RemoveSource(keySpaceFile, junkStart, junkEnd);
      if !parsed {
        return;
      }
      var merged, ok := ExtendTarget(keySpaces, fromStart, fromEnd);
      if !ok {
        return;
      }
      keySpaceFile := merged;
      version := Some(versionNum);
      versionNum := versionNum + 1;
      sent := OnVersionCommand();
    }

    /** The second loop of the delete handler, editing the list entry by entry; `ok` is false when stoi throws. */
    method ExtendTarget(before: Table, fromStart: Int32, fromEnd: Int32) returns (keySpaces: Table, ok: bool)
      ensures ok == MergeInto(before, to, fromStart, fromEnd).Some?
      ensures ok ==> keySpaces == MergeInto(before, to, fromStart, fromEnd).value
    {
      keySpaces := before;
      var i := 0;
      while i < |keySpaces|
        invariant 0 <= i <= |keySpaces| == |before|
        invariant MergeInto(before[..i], to, fromStart, fromEnd) == Some(keySpaces[..i])
        invariant keySpaces[i..] == before[i..]
      {
        assert before[..i + 1][..i] == before[..i] && keySpaces[i] == before[i];
        ghost var done := keySpaces[..i];
        if keySpaces[i].node == to {
          if !Parsable(keySpaces[i].start) {
            assert MergeInto(before[..i + 1], to, fromStart, fromEnd) == None;
            MergeIntoFails(before, i + 1, to, fromStart, fromEnd);
            return before, false;
          }
          if fromEnd < keySpaces[i].start {
            keySpaces := keySpaces[i := keySpaces[i].(start := Printed(fromStart))];
          } else {
            keySpaces := keySpaces[i := keySpaces[i].(end := Printed(fromEnd))];
          }
        }
        assert keySpaces[..i + 1] == done + [keySpaces[i]];
        i := i + 1;
      }
      assert before[..i] == before && keySpaces[..i] == keySpaces;
      ok := true;
    }

    method HandleCoordinationCommand(newFrom: Option<string>) returns (sent: seq<Message>)
      modifies this
      ensures View() == AfterCoordinate(old(View()), newFrom)
      ensures sent == [ListManifests(View().from)]
    {
      if newFrom.Some? {
        from := newFrom.value;
      }
      sent := [ListManifests(from)];
    }

    method OnManifestListCommandResponse(keys: Option<seq<string>>) returns (sent: seq<Message>)
      modifies this
      ensures View() == AfterManifestList(old(View()), keys)
      ensures sent == SentOnManifestList(old(View()), keys)
    {
      if keys.None? {
        return [];
      }
      manifestList := keys;
      var names := SelectKeys(keys.value, start, end);
      sent := FindsFor(from, names) + [Complete];
    }

    method OnCompleteCommandResponse() returns (sent: seq<Message>)
      ensures sent == SentOnCompleted(View())
    {
      if manifestList.None? {
        return [];
      }
      var names := SelectKeys(manifestList.value, start, end);
      sent := DeletesFor(from, names);
    }
  }

  lemma {:induction false} MergeIntoFails(t: Table, i: nat, to: string, fromStart: Int32, fromEnd: Int32)
    requires i <= |t| && MergeInto(t[..i], to, fromStart, fromEnd) == None
    ensures MergeInto(t, to, fromStart, fromEnd) == None
  {
    if i < |t| {
      assert t[..|t| - 1][..i] == t[..i];
      MergeIntoFails(t[..|t| - 1], i, to, fromStart, fromEnd);
    } else {
      assert t[..i] == t;
    }
  }
}
