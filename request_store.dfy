/**
 * The ordered store (lib/RequestStore.mjs): a map from request id to entry and
 * the `sequence` of ids in the order they were put. StoreValue is the same
 * store with every entry read out as a value.
 */
module RequestStores {
  import opened Wrappers
  import opened ReqResEntries

  /** A store as a value: the entries by id and the insertion sequence. */
  datatype StoreValue = StoreValue(entries: map<string, EntryValue>, sequence: seq<string>)

  predicate NoDuplicates(s: seq<string>) {
    forall i, j :: 0 <= i < j < |s| ==> s[i] != s[j]
  }

  /**
   * What a store filled only through `safeGet` and `has`-guarded `put` looks
   * like: the sequence lists every key exactly once, and each entry carries
   * its own id.
   */
  ghost predicate WellFormed(s: StoreValue) {
    && (forall id :: id in s.sequence <==> id in s.entries)
    && NoDuplicates(s.sequence)
    && (forall id :: id in s.entries ==> s.entries[id].id == id)
  }

  const EmptyStore := StoreValue(map[], [])

  /** `put`: overwrite the entry and append the id, whether or not it was there. */
  function PutValue(s: StoreValue, id: string, e: EntryValue): (r: StoreValue)
    ensures r.entries.Keys == s.entries.Keys + {id} && r.entries[id] == e
    ensures forall k :: k in s.entries && k != id ==> r.entries[k] == s.entries[k]
    ensures r.sequence == s.sequence + [id]
  {
    StoreValue(s.entries[id := e], s.sequence + [id])
  }

  /** `safeGet`: an unseen id gets one empty entry and one place in the sequence; a seen id changes nothing. */
  function SafeGetValue(s: StoreValue, id: string): (r: StoreValue)
    ensures id in r.entries
    ensures id in s.entries ==> r == s
    ensures id !in s.entries ==> r.entries == s.entries[id := EmptyEntry(id)] && r.sequence == s.sequence + [id]
  {
    if id in s.entries then s else PutValue(s, id, EmptyEntry(id))
  }

  /** A second `safeGet` of the same id creates nothing more. */
  lemma SafeGetIdempotent(s: StoreValue, id: string)
    ensures SafeGetValue(SafeGetValue(s, id), id) == SafeGetValue(s, id)
  {
  }

  /** `safeGet` keeps a well-formed store well-formed. */
  lemma SafeGetWellFormed(s: StoreValue, id: string)
    requires WellFormed(s)
    ensures WellFormed(SafeGetValue(s, id))
  {
  }

  /** An unguarded `put` of a seen id lists it twice. */
  lemma PutSeenDuplicates(s: StoreValue, id: string, e: EntryValue)
    requires WellFormed(s) && id in s.entries
    ensures !NoDuplicates(PutValue(s, id, e).sequence)
  {
    var i :| 0 <= i < |s.sequence| && s.sequence[i] == id;
    var r := PutValue(s, id, e).sequence;
    assert r[i] == r[|r| - 1];
  }

  /** Distinct ids point to entries that share no object. */
  ghost predicate SeparatedEntries(m: map<string, ReqResEntry>)
    reads m.Values
  {
    forall i, j :: i in m && j in m && i != j ==> m[i].Footprint() !! m[j].Footprint()
  }

  /** Adding an entry under a new key whose objects no stored entry reaches keeps the entries separated. */
  lemma SeparatedAddOwned(m: map<string, ReqResEntry>, k: string, e: ReqResEntry)
    requires SeparatedEntries(m) && k !in m
    requires forall x :: x in m.Values ==> x.Footprint() !! e.Footprint()
    ensures SeparatedEntries(m[k := e])
  {
    var m' := m[k := e];
    forall i, j | i in m' && j in m' && i != j
      ensures m'[i].Footprint() !! m'[j].Footprint()
    {
      if i != k && j != k {
        assert m'[i] == m[i] && m'[j] == m[j];
      } else if i == k {
        assert m[j] in m.Values;
      } else {
        assert m[i] in m.Values;
      }
    }
  }

  /** Every entry object of the map and the records it points to. */
  ghost function ObjectsOf(m: map<string, ReqResEntry>): set<object>
    reads m.Values
  {
    (set e | e in m.Values :: e as object)
    + (set e | e in m.Values && e.req != null :: e.req as object)
    + (set e | e in m.Values && e.res != null :: e.res as object)
  }

  /** The entries of the map read out as values. */
  ghost function ValuesOf(m: map<string, ReqResEntry>): map<string, EntryValue>
    reads m.Values, ObjectsOf(m)
  {
    map id | id in m :: m[id].Value()
  }

  /** The objects of a stored entry are objects of the store. */
  lemma FootprintWithin(m: map<string, ReqResEntry>, id: string)
    requires id in m
    ensures m[id].Footprint() <= ObjectsOf(m)
  {
    assert m[id] in m.Values;
  }

  /** Adding an entry under a new id adds exactly that entry's objects. */
  lemma ObjectsOfAdd(m: map<string, ReqResEntry>, k: string, e: ReqResEntry)
    requires k !in m
    ensures ObjectsOf(m[k := e]) == ObjectsOf(m) + e.Footprint()
  {
    var m' := m[k := e];
    forall x | x in m'.Values ensures x in m.Values || x == e {
      var j :| j in m' && m'[j] == x;
      if j != k { assert m[j] == x; }
    }
    forall x | x in m.Values ensures x in m'.Values {
      var j :| j in m && m[j] == x;
      assert m'[j] == x;
    }
    assert m'[k] == e;
    assert m'.Values == m.Values + {e};
  }

  /** The value read out for a stored id is its entry's. */
  lemma ValuesOfAt(m: map<string, ReqResEntry>, id: string)
    requires id in m
    ensures id in ValuesOf(m) && ValuesOf(m)[id] == m[id].Value()
  {
  }

  /** Adding one entry adds its value and leaves the other values alone. */
  lemma ValuesOfAdd(m: map<string, ReqResEntry>, k: string, e: ReqResEntry)
    ensures ValuesOf(m[k := e]) == ValuesOf(m)[k := e.Value()]
  {
  }

  /**
   * A mutation through the entry stored under `id` of a separated store: the
   * map and the sequence are kept, no other stored object changed, and the
   * entry now reaches only its old objects or newly allocated ones.
   */
  twostate predicate MutatedOnlyAt(st: RequestStore, id: string)
    reads *
  {
    && old(st.Separated())
    && st.store == old(st.store) && st.sequence == old(st.sequence) && id in st.store
    && (forall o :: o in old(st.Objects()) && old(allocated(o)) && o !in old(st.store[id].Footprint()) ==> unchanged(o))
    && fresh(st.store[id].Footprint() - old(st.store[id].Footprint()))
  }

  // The two-state lemmas below take their store and id (or map and key) as one pair `at`:
  // Dafny 4.11 fails to prove calls to a two-state lemma with two or more parameters when
  // contradictory assumptions are reported, and a single tuple parameter avoids that.

  /** After such a mutation the store stays separated and its value changes only at `id`. */
  twostate lemma EntryMutated(at: (RequestStore, string))
    requires MutatedOnlyAt(at.0, at.1)
    ensures at.0.Separated()
    ensures at.1 in old(at.0.Abstract()).entries && old(at.0.Abstract()).entries[at.1] == old(at.0.store[at.1].Value())
    ensures at.0.Abstract() == old(at.0.Abstract()).(entries := old(at.0.Abstract()).entries[at.1 := at.0.store[at.1].Value()])
  {
    var (st, id) := at;
    OthersUnchanged(at);
    StillSeparated(at);
    ValuesOfUpdate((st.store, id));
  }

  /** Such a mutation, with the other entries keeping their objects, keeps the store separated. */
  twostate lemma StillSeparated(at: (RequestStore, string))
    requires old(at.0.Separated()) && at.0.store == old(at.0.store) && at.1 in at.0.store
    requires fresh(at.0.store[at.1].Footprint() - old(at.0.store[at.1].Footprint()))
    requires forall k :: k in at.0.store && k != at.1 ==> at.0.store[k].Footprint() == old(at.0.store[k].Footprint())
    ensures at.0.Separated()
  {
    var m := at.0.store;
    forall i, j | i in m && j in m && i != j
      ensures m[i].Footprint() !! m[j].Footprint()
    {
      assert old(m[i].Footprint() !! m[j].Footprint());
      if i == at.1 {
        assert m[j].Footprint() == old(m[j].Footprint());
      } else if j == at.1 {
        assert m[i].Footprint() == old(m[i].Footprint());
      } else {
        assert m[i].Footprint() == old(m[i].Footprint()) && m[j].Footprint() == old(m[j].Footprint());
      }
    }
  }

  /** The other entries of such a mutation keep their objects and values (`at` pairs the store with the id). */
  twostate lemma OthersUnchanged(at: (RequestStore, string))
    requires MutatedOnlyAt(at.0, at.1)
    ensures forall k :: k in at.0.store && k != at.1 ==>
              at.0.store[k].Footprint() == old(at.0.store[k].Footprint()) && at.0.store[k].Value() == old(at.0.store[k].Value())
  {
    var (st, id) := at;
    var m := st.store;
    var e := m[id];
    forall k | k in m && k != id
      ensures m[k].Footprint() == old(m[k].Footprint()) && m[k].Value() == old(m[k].Value())
    {
      var x := m[k];
      assert old(x.Footprint() !! e.Footprint());
      assert x in old(st.Objects());
      if old(x.req) != null { assert old(x.req) in old(st.Objects()); }
      if old(x.res) != null { assert old(x.res) in old(st.Objects()); }
    }
  }

  /** Values read out of a map whose entries other than `at.1` kept their values. */
  twostate lemma ValuesOfUpdate(at: (map<string, ReqResEntry>, string))
    requires forall k :: k in at.0 && k != at.1 ==> at.0[k].Value() == old(at.0[k].Value())
    ensures at.1 in at.0 ==> ValuesOf(at.0) == old(ValuesOf(at.0))[at.1 := at.0[at.1].Value()]
  {
  }

  /** With no stored object changed, every old entry keeps its objects and its value. */
  twostate lemma StoredUnchanged(st: RequestStore)
    requires forall o :: o in old(st.Objects()) && old(allocated(o)) ==> unchanged(o)
    ensures forall x :: x in old(st.store.Values) ==>
              x.req == old(x.req) && x.res == old(x.res) && x.Footprint() == old(x.Footprint()) && x.Value() == old(x.Value())
  {
    forall x | x in old(st.store.Values)
      ensures x.req == old(x.req) && x.res == old(x.res) && x.Footprint() == old(x.Footprint()) && x.Value() == old(x.Value())
    {
      assert x in old(st.Objects());
      if old(x.req) != null { assert old(x.req) in old(st.Objects()); }
      if old(x.res) != null { assert old(x.res) in old(st.Objects()); }
    }
  }

  /** Values read out of unchanged-valued entries are the same. */
  twostate lemma ValuesOfSame(m: map<string, ReqResEntry>)
    requires forall x :: x in m.Values ==> x.Value() == old(x.Value())
    ensures ValuesOf(m) == old(ValuesOf(m))
  {
    forall id | id in m ensures m[id].Value() == old(m[id].Value()) {
      assert m[id] in m.Values;
    }
  }

  /** Objects read out of entries that kept their records are the same. */
  twostate lemma ObjectsOfSame(m: map<string, ReqResEntry>)
    requires forall x :: x in m.Values ==> x.req == old(x.req) && x.res == old(x.res)
    ensures ObjectsOf(m) == old(ObjectsOf(m))
  {
  }

  /**
   * A `put` of an entry made only of newly allocated objects under an unseen
   * id, with no stored object changed: the store stays separated and its value
   * is the value-level put.
   */
  twostate lemma FreshEntryPut(at: (RequestStore, string))
    requires at.1 !in old(at.0.store) && at.1 in at.0.store
    requires at.0.store == old(at.0.store)[at.1 := at.0.store[at.1]] && at.0.sequence == old(at.0.sequence) + [at.1]
    requires forall o :: o in old(at.0.Objects()) && old(allocated(o)) ==> unchanged(o)
    requires forall o :: o in at.0.store[at.1].Footprint() ==> !old(allocated(o))
    ensures old(at.0.Separated()) ==> at.0.Separated()
    ensures at.0.Abstract() == PutValue(old(at.0.Abstract()), at.1, at.0.store[at.1].Value())
    ensures at.0.Objects() == old(at.0.Objects()) + at.0.store[at.1].Footprint()
  {
    var (st, id) := at;
    StoredUnchanged(st);
    var m0 := old(st.store);
    if old(st.Separated()) {
      assert SeparatedEntries(m0);
      SeparatedAddOwned(m0, id, st.store[id]);
    }
    ValuesOfAdd(m0, id, st.store[id]);
    ValuesOfSame(m0);
    ObjectsOfAdd(m0, id, st.store[id]);
    ObjectsOfSame(m0);
  }

  class RequestStore {
    var store: map<string, ReqResEntry>
    var sequence: seq<string>

    /** The ids in `sequence` are exactly the keys of `store`. */
    ghost predicate Valid()
      reads this
    {
      forall id :: id in sequence <==> id in store
    }

    /** Distinct ids point to entries that share no object. */
    ghost predicate Separated()
      reads this, store.Values
    {
      SeparatedEntries(store)
    }

    /** Every entry object in the store and the records it points to. */
    ghost function Objects(): set<object>
      reads this, store.Values
    {
      ObjectsOf(store)
    }

    /** The store read out as a value. */
    ghost function Abstract(): StoreValue
      reads this, store.Values, Objects()
    {
      StoreValue(ValuesOf(store), sequence)
    }

    constructor ()
      ensures Valid() && Separated()
      ensures store == map[] && sequence == []
      ensures Abstract() == EmptyStore
    {
      store := map[];
      sequence := [];
    }

    /** Appends the id even when it is already stored, and overwrites its entry. */
    method Put(requestId: string, request: ReqResEntry)
      requires Valid()
      modifies this
      ensures Valid()
      ensures store == old(store)[requestId := request]
      ensures sequence == old(sequence) + [requestId]
    {
      sequence := sequence + [requestId];
      store := store[requestId := request];
    }

    /** The stored entry, or None (`undefined`) for an id that was never put. */
    function Get(requestId: string): (r: Option<ReqResEntry>)
      reads this
      requires Valid()
      ensures r.Some? <==> requestId in sequence
      ensures r.Some? ==> r.value == store[requestId]
    {
      if requestId in store then Some(store[requestId]) else None
    }

    /** Creates, stores and sequences an empty entry for an unseen id; returns the stored entry. */
    method SafeGet(requestId: string) returns (e: ReqResEntry)
      requires Valid()
      modifies this
      ensures Valid()
      ensures requestId in store && e == store[requestId]
      ensures requestId in old(store) ==> e == old(store[requestId]) && store == old(store) && sequence == old(sequence)
      ensures requestId !in old(store) ==>
                && fresh(e) && e.id == requestId && e.req == null && e.res == null && e.error == None
                && store == old(store)[requestId := e] && sequence == old(sequence) + [requestId]
    ensures Abstract() == SafeGetValue(old(Abstract()), requestId)
    ensures old(Separated()) ==> Separated()
    ensures Objects() == old(Objects()) + (if requestId in old(store) then {} else {e})
    {
      if !Has(requestId) {
        var created := new ReqResEntry(requestId);
        Put(requestId, created);
        FreshEntryPut((this, requestId));
      }
      e := store[requestId];
    }

    /** Whether an entry is stored for the id, which is the case exactly when the id was sequenced. */
    predicate Has(requestId: string)
      reads this
      requires Valid()
      ensures Has(requestId) <==> requestId in sequence
    {
      requestId in store
    }

    function GetSequence(): (r: seq<string>)
      reads this
      requires Valid()
      ensures r == sequence
      ensures forall id :: id in r <==> id in store
    {
      sequence
    }

    function GetAllRequests(): map<string, ReqResEntry>
      reads this
    {
      store
    }

    /** The stored entries in sequence order, one per element of `sequence`. */
    function GetSequencedRequests(): (r: seq<ReqResEntry>)
      reads this
      requires Valid()
      ensures |r| == |sequence|
      ensures forall i :: 0 <= i < |sequence| ==> sequence[i] in store && r[i] == store[sequence[i]]
    {
      seq(|sequence|, i requires 0 <= i < |sequence| && sequence[i] in store reads this => store[sequence[i]])
    }
  }
}
