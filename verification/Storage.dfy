/**
 * src/storage/repo-storage.cpp over an abstract back end: packets keyed by name, manifests (as the JSON
 * tree that is written) keyed by hash, and the names for which afterDataInsertion fired.
 */
module Storage {
  import opened Options
  import opened Tlv
  import opened Ndn
  import opened Manifests

  /** What the back end and the hash functions decide: the implicit digest, whether an insert succeeds, SHA-1. */
  datatype Backend = Backend(digestOf: Packet -> Bytes, accepts: Packet -> bool, sha1: Sha1)

  datatype Store = Store(packets: map<Name, Packet>, manifests: map<string, Json>, signals: seq<Name>)

  function FullName(backend: Backend, p: Packet): Name
  {
    p.name + [ImplicitDigest(backend.digestOf(p))]
  }

  predicate InsertSucceeds(backend: Backend, st: Store, p: Packet)
  {
    FullName(backend, p) in st.packets || backend.accepts(p)
  }

  /** The look-up uses the full name, the insertion the plain name, as in both back ends. */
  function AfterInsert(backend: Backend, st: Store, p: Packet): Store
  {
    if FullName(backend, p) in st.packets || !backend.accepts(p) then st
    else st.(packets := st.packets[p.name := p], signals := st.signals + [p.name])
  }

  function InsertAll(backend: Backend, st: Store, ps: seq<Packet>): Store
  {
    if ps == [] then st else AfterInsert(backend, InsertAll(backend, st, ps[..|ps| - 1]), ps[|ps| - 1])
  }

  /** The packet itself is stored under its name, or something under its full name. */
  predicate Holds(backend: Backend, st: Store, p: Packet)
  {
    (p.name in st.packets && st.packets[p.name] == p) || FullName(backend, p) in st.packets
  }

  // ---------- what a sequence of insertions leaves behind ----------

  /** The insertion of `ps[i]` goes through: nothing is under its full name by then, and it is not refused. */
  predicate Kept(backend: Backend, st: Store, ps: seq<Packet>, i: nat)
    requires i < |ps|
  {
    FullName(backend, ps[i]) !in InsertAll(backend, st, ps[..i]).packets && backend.accepts(ps[i])
  }

  function KeptNames(backend: Backend, st: Store, ps: seq<Packet>): seq<Name>
  {
    if ps == [] then []
    else
      KeptNames(backend, st, ps[..|ps| - 1]) +
      (if Kept(backend, st, ps, |ps| - 1) then [ps[|ps| - 1].name] else [])
  }

  /** No later insertion that goes through is under the same name. */
  predicate IsLast(backend: Backend, st: Store, ps: seq<Packet>, i: nat)
    requires i < |ps|
  {
    Kept(backend, st, ps, i) && forall j :: i < j < |ps| && Kept(backend, st, ps, j) ==> ps[j].name != ps[i].name
  }

  /** A name without an insertion holds what it held before. */
  ghost predicate Untouched(backend: Backend, st: Store, ps: seq<Packet>, name: Name)
  {
    forall i :: 0 <= i < |ps| && Kept(backend, st, ps, i) ==> ps[i].name != name
  }

  lemma {:induction false} KeptEarlier(backend: Backend, st: Store, ps: seq<Packet>, i: nat)
    requires i + 1 < |ps|
    ensures Kept(backend, st, ps, i) <==> Kept(backend, st, ps[..|ps| - 1], i)
  {
    assert ps[..|ps| - 1][..i] == ps[..i];
  }

  lemma {:induction false} UntouchedStays(backend: Backend, st: Store, ps: seq<Packet>, name: Name)
    requires Untouched(backend, st, ps, name)
    ensures var d := InsertAll(backend, st, ps);
            && (name in d.packets <==> name in st.packets)
            && (name in d.packets ==> d.packets[name] == st.packets[name])
  {
    if ps != [] {
      var init, k := ps[..|ps| - 1], |ps| - 1;
      forall i | 0 <= i < |init| && Kept(backend, st, init, i) ensures init[i].name != name {
        KeptEarlier(backend, st, ps, i);
      }
      UntouchedStays(backend, st, init, name);
      assert Kept(backend, st, ps, k) ==> ps[k].name != name;
    }
  }

  lemma {:induction false} LastIsHeld(backend: Backend, st: Store, ps: seq<Packet>, i: nat)
    requires i < |ps| && IsLast(backend, st, ps, i)
    ensures var d := InsertAll(backend, st, ps); ps[i].name in d.packets && d.packets[ps[i].name] == ps[i]
  {
    var init, k := ps[..|ps| - 1], |ps| - 1;
    if i < k {
      KeptEarlier(backend, st, ps, i);
      forall j | i < j < |init| && Kept(backend, st, init, j) ensures init[j].name != init[i].name {
        KeptEarlier(backend, st, ps, j);
      }
      LastIsHeld(backend, st, init, i);
      assert Kept(backend, st, ps, k) ==> ps[k].name != ps[i].name;
    }
  }

  lemma {:induction false} SignalsAreKeptNames(backend: Backend, st: Store, ps: seq<Packet>)
    ensures var d := InsertAll(backend, st, ps);
            d.signals == st.signals + KeptNames(backend, st, ps) && d.manifests == st.manifests
  {
    if ps != [] {
      SignalsAreKeptNames(backend, st, ps[..|ps| - 1]);
    } else {
      assert st.signals + [] == st.signals;
    }
  }

  /**
   * Every name holds the last packet that was inserted under it, unchanged, or else what it held before; exactly the
   * insertions that went through are signalled, in order; and manifests are not touched.
   */
  lemma {:induction false} LastInsertionIsHeld(backend: Backend, st: Store, ps: seq<Packet>)
    ensures var d := InsertAll(backend, st, ps);
            && (forall i :: 0 <= i < |ps| && IsLast(backend, st, ps, i) ==>
                  ps[i].name in d.packets && d.packets[ps[i].name] == ps[i])
            && (forall name :: Untouched(backend, st, ps, name) ==>
                  && (name in d.packets <==> name in st.packets)
                  && (name in d.packets ==> d.packets[name] == st.packets[name]))
            && d.signals == st.signals + KeptNames(backend, st, ps) && d.manifests == st.manifests
  {
    var d := InsertAll(backend, st, ps);
    SignalsAreKeptNames(backend, st, ps);
    forall i | 0 <= i < |ps| && IsLast(backend, st, ps, i)
      ensures ps[i].name in d.packets && d.packets[ps[i].name] == ps[i]
    {
      LastIsHeld(backend, st, ps, i);
    }
    forall name | Untouched(backend, st, ps, name)
      ensures name in d.packets <==> name in st.packets
      ensures name in d.packets ==> d.packets[name] == st.packets[name]
    {
      UntouchedStays(backend, st, ps, name);
    }
  }

  /** Whatever is in the store afterwards was there before or is one of the packets, under its own name, unchanged. */
  lemma {:induction false} OnlyInsertedIsNew(backend: Backend, st: Store, ps: seq<Packet>, name: Name)
    requires name in InsertAll(backend, st, ps).packets
    ensures var p := InsertAll(backend, st, ps).packets[name];
            (name in st.packets && p == st.packets[name]) || (p in ps && p.name == name)
  {
    if ps != [] {
      var init := ps[..|ps| - 1];
      if name in InsertAll(backend, st, init).packets {
        OnlyInsertedIsNew(backend, st, init, name);
      }
    }
  }

  function ReadManifestOf(manifests: map<string, Json>, hash: string): Result<Option<Manifest>, JsonError>
  {
    if hash !in manifests then Ok(None)
    else
      match ManifestOf(manifests[hash])
      case Ok(m) => Ok(Some(m))
      case Err(e) => Err(e)
  }

  function WithManifest(manifests: map<string, Json>, m: Manifest, sha1: Sha1): map<string, Json>
  {
    manifests[GetHash(m, sha1) := JsonOf(m, sha1)]
  }

  /** What is stored under a manifest's key reads back as that manifest, provided it lists a repo. */
  lemma ReadBackManifest(manifests: map<string, Json>, m: Manifest, sha1: Sha1)
    ensures var back := ReadManifestOf(WithManifest(manifests, m, sha1), GetHash(m, sha1));
            if m.repos == [] then back == Err(NoStorages) else back == Ok(Some(m.(hash := "")))
  {
    JsonRoundTrip(m, sha1);
  }

  class RepoStorage {
    const backend: Backend
    var packets: map<Name, Packet>
    var manifests: map<string, Json>
    var signals: seq<Name>

    constructor (backend: Backend)
      ensures this.backend == backend && View() == Store(map[], map[], [])
    {
      this.backend := backend;
      packets, manifests, signals := map[], map[], [];
    }

    function View(): Store
      reads this
    {
      Store(packets, manifests, signals)
    }

    method InsertData(p: Packet) returns (ok: bool)
      modifies this
      ensures View() == AfterInsert(backend, old(View()), p)
      ensures ok == InsertSucceeds(backend, old(View()), p)
      ensures ok <==> FullName(backend, p) in old(packets) || backend.accepts(p)
      ensures FullName(backend, p) in old(packets) || !backend.accepts(p) ==> View() == old(View())
      ensures FullName(backend, p) !in old(packets) && backend.accepts(p) ==>
                packets == old(packets)[p.name := p] && signals == old(signals) + [p.name]
      ensures ok ==> Holds(backend, View(), p)
    {
      if FullName(backend, p) in packets {
        return true;
      }
      if !backend.accepts(p) {
        return false;
      }
      packets := packets[p.name := p];
      signals := signals + [p.name];
      return true;
    }

    /** 1 or -1: both are true as a condition. No deletion signal is emitted. */
    method DeleteData(name: Name) returns (r: int)
      modifies this
      ensures View() == old(View()).(packets := old(packets) - {name})
      ensures r == if name in old(packets) then 1 else -1
    {
      if name in packets {
        packets := packets - {name};
        return 1;
      }
      return -1;
    }

    method ReadData(name: Name) returns (r: Option<Packet>)
      ensures r == if name in packets then Some(packets[name]) else None
    {
      if name in packets {
        return Some(packets[name]);
      }
      return None;
    }

    method InsertManifest(m: Manifest) returns (ok: bool)
      modifies this
      ensures ok && View() == old(View()).(manifests := WithManifest(old(manifests), m, backend.sha1))
    {
      var json := ToJson(m, backend.sha1);
      manifests := manifests[GetHash(m, backend.sha1) := json];
      ok := true;
    }

    method ReadManifest(hash: string) returns (r: Result<Option<Manifest>, JsonError>)
      ensures r == ReadManifestOf(manifests, hash)
    {
      if hash !in manifests {
        return Ok(None);
      }
      var parsed := FromJson(manifests[hash]);
      match parsed {
        case Ok(m) => r := Ok(Some(m));
        case Err(e) => r := Err(e);
      }
    }

    /** Declared bool, so the -1 of the failure path is true as well. */
    method DeleteManifest(hash: string) returns (r: bool)
      modifies this
      ensures r && View() == old(View()).(manifests := old(manifests) - {hash})
    {
      if hash in manifests {
        manifests := manifests - {hash};
        return true;
      }
      return true;
    }
  }
}
