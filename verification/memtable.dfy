/** The MemTable: the sorted in-memory store and the tombstone set in front of the run
    manager, flushed to a new run when the store reaches the threshold. */
module MemStore {
  import opened Wrappers
  import opened JavaStrings
  import opened SortedMaps
  import opened SSTables
  import opened Manager

  /** The store size at which `put` flushes. */
  const FLUSH_THRESHOLD: nat := 1000

  /** `get`: null for a tombstoned key, otherwise the store's value (memory only). */
  function MemGet(store: map<string, string>, tombstones: set<string>, key: string): Option<string>
  {
    if key in tombstones then None else Get(store, key)
  }

  /** The store after `put(key, value)`, and the maps flushed to new runs (none or one). A
      store below the threshold stays below it. */
  function PutStore(store: map<string, string>, key: string, value: string): (r: (map<string, string>, seq<map<string, string>>))
    ensures |store| < FLUSH_THRESHOLD ==> |r.0| < FLUSH_THRESHOLD
    ensures |r.1| <= 1
  {
    var s := store[key := value];
    if |s| >= FLUSH_THRESHOLD then (map[], [s]) else (s, [])
  }

  /** `put` applied to each entry in turn: the final store and the maps of every flush, in
      order. */
  function PutAll(store: map<string, string>, entries: seq<Entry>): (r: (map<string, string>, seq<map<string, string>>))
    ensures |store| < FLUSH_THRESHOLD ==> |r.0| < FLUSH_THRESHOLD
  {
    if entries == [] then (store, [])
    else
      var (s, flushed) := PutAll(store, entries[..|entries| - 1]);
      var last := entries[|entries| - 1];
      var (s', more) := PutStore(s, last.key, last.value);
      (s', flushed + more)
  }

  /** The files flushed maps become: each written in ascending key order. */
  function EncodeRuns(ms: seq<map<string, string>>): seq<seq<string>>
  {
    seq(|ms|, i requires 0 <= i < |ms| => EncodeRun(Ascending(ms[i])))
  }

  lemma EncodeRunsAppend(a: seq<map<string, string>>, b: seq<map<string, string>>)
    ensures EncodeRuns(a + b) == EncodeRuns(a) + EncodeRuns(b)
  {
    var l, r := EncodeRuns(a + b), EncodeRuns(a) + EncodeRuns(b);
    forall i | 0 <= i < |l| ensures l[i] == r[i] {
      if i < |a| {
        assert (a + b)[i] == a[i];
      } else {
        assert (a + b)[i] == b[i - |a|];
      }
    }
  }

  lemma EncodeRunsOne(m: map<string, string>)
    ensures EncodeRuns([m]) == [EncodeRun(Ascending(m))]
  {
  }

  /** The keys of a sequence of entries. */
  function KeySet(entries: seq<Entry>): set<string>
  {
    set i | 0 <= i < |entries| :: entries[i].key
  }

  /** `put` of one more entry of a batch. */
  lemma PutAllStep(store: map<string, string>, entries: seq<Entry>, i: nat)
    requires i < |entries|
    ensures var before := PutAll(store, entries[..i]);
      var step := PutStore(before.0, entries[i].key, entries[i].value);
      PutAll(store, entries[..i + 1]) == (step.0, before.1 + step.1)
  {
    assert entries[..i + 1][..i] == entries[..i];
  }

  /** The keys of one more entry of a batch. */
  lemma KeySetStep(entries: seq<Entry>, i: nat)
    requires i < |entries|
    ensures KeySet(entries[..i + 1]) == KeySet(entries[..i]) + {entries[i].key}
  {
    assert entries[..i + 1] == entries[..i] + [entries[i]];
    KeySetSnoc(entries[..i], entries[i]);
  }

  lemma KeySetSnoc(entries: seq<Entry>, e: Entry)
    ensures KeySet(entries + [e]) == KeySet(entries) + {e.key}
  {
    var es := entries + [e];
    forall k | k in KeySet(es) ensures k in KeySet(entries) + {e.key} {
      var i :| 0 <= i < |es| && es[i].key == k;
      if i < |entries| {
        assert entries[i] == es[i];
      }
    }
    forall k | k in KeySet(entries) ensures k in KeySet(es) {
      var i :| 0 <= i < |entries| && entries[i].key == k;
      assert es[i] == entries[i];
    }
    assert es[|entries|] == e;
  }

  /** The stored pairs whose key lies in [lo, hi]. */
  function StoreRange(store: map<string, string>, lo: string, hi: string): (m: map<string, string>)
    ensures forall k :: k in m <==> k in store && Between(k, lo, hi)
    ensures forall k :: k in m ==> m[k] == store[k]
  {
    map k | k in store && Between(k, lo, hi) :: store[k]
  }

  /** A `put` that does not flush is visible to `get`. */
  lemma PutThenGet(store: map<string, string>, tombstones: set<string>, key: string, value: string)
    requires |store[key := value]| < FLUSH_THRESHOLD
    ensures MemGet(PutStore(store, key, value).0, tombstones - {key}, key) == Some(value)
  {
  }

  /** After `delete`, `get` is null whatever the store held. */
  lemma DeleteThenGet(store: map<string, string>, tombstones: set<string>, key: string)
    ensures MemGet(store - {key}, tombstones + {key}, key) == None
  {
  }

  /** A `put` that flushes empties memory, and the manager's point read finds every flushed
      key, the one just put included, with its stored value in the new run, provided the
      flushed keys hold no comma. */
  lemma FlushedKeyReadable(runs: seq<seq<string>>, store: map<string, string>, key: string, value: string)
    requires |store[key := value]| >= FLUSH_THRESHOLD
    requires forall k :: k in store[key := value] ==> ',' !in k
    ensures var (s, flushed) := PutStore(store, key, value);
      forall k :: k in store[key := value] ==>
        MemGet(s, {}, k) == None && ReadNewest(runs + EncodeRuns(flushed), k) == Ok(Some(store[key := value][k]))
  {
    var s := store[key := value];
    var run := EncodeRun(Ascending(s));
    EncodeRunsOne(s);
    var all := runs + [run];
    assert all[..|all| - 1] == runs;
    assert all[|all| - 1] == run;
    forall k | k in s
      ensures ReadNewest(all, k) == Ok(Some(s[k]))
    {
      ReadCompacted(s, k);
    }
  }

  class MemTable {
    /** The sorted in-memory store. */
    var store: map<string, string>
    /** The keys deleted while in memory; never cleared and never written to a run. */
    var tombstones: set<string>
    /** The run manager flushes go to. */
    const ssTableManager: SSTableManager

    /** No key is both stored and tombstoned, the store is below the threshold between
        operations, and the manager is consistent. */
    ghost predicate Valid()
      reads this, ssTableManager
    {
      && store.Keys !! tombstones
      && |store| < FLUSH_THRESHOLD
      && ssTableManager.Valid()
    }

    constructor (manager: SSTableManager)
      requires manager.Valid()
      ensures Valid()
      ensures store == map[] && tombstones == {} && ssTableManager == manager
    {
      store := map[];
      tombstones := {};
      ssTableManager := manager;
    }

    /** `get`. */
    function Get(key: string): (r: Option<string>)
      reads this
      ensures r == MemGet(store, tombstones, key)
      ensures r.Some? ==> key in store && r.value == store[key] && key !in tombstones
    {
      if key in tombstones then None else SortedMaps.Get(store, key)
    }

    /** `hasTombstone`. */
    predicate HasTombstone(key: string)
      reads this
    {
      key in tombstones
    }

    /** `put`: stores the pair (twice, to the same effect as once), clears the key's tombstone,
        and flushes when the store reaches the threshold. */
    method Put(key: string, value: string)
      modifies this, ssTableManager
      requires Valid()
      ensures Valid()
      ensures store == PutStore(old(store), key, value).0
      ensures tombstones == old(tombstones) - {key}
      ensures ssTableManager.Runs() == old(ssTableManager.Runs()) + EncodeRuns(PutStore(old(store), key, value).1)
      ensures !HasTombstone(key)
      ensures |old(store)[key := value]| < FLUSH_THRESHOLD ==> Get(key) == Some(value)
    {
      ghost var runs := ssTableManager.Runs();
      ghost var step := PutStore(store, key, value);
      ghost var once := store[key := value];
      store := store[key := value];
      store := store[key := value];
      assert store == once;
      tombstones := tombstones - {key};
      if |store| >= FLUSH_THRESHOLD {
        assert step == (map[], [store]);
        EncodeRunsOne(store);
        Flush();
        assert ssTableManager.Runs() == runs + EncodeRuns(step.1);
      } else {
        assert step == (store, []);
        assert EncodeRuns(step.1) == [];
        assert ssTableManager.Runs() == runs + EncodeRuns(step.1);
      }
    }

    /** `delete`: removes the key from the store and tombstones it; nothing is written. */
    method Delete(key: string)
      modifies this
      requires Valid()
      ensures Valid()
      ensures store == old(store) - {key} && tombstones == old(tombstones) + {key}
      ensures Get(key) == None && HasTombstone(key)
    {
      store := store - {key};
      tombstones := tombstones + {key};
    }

    /** `flush`: the whole store, in ascending key order, becomes one new run; the store is
        emptied and the tombstones stay. */
    method Flush()
      modifies this, ssTableManager
      requires ssTableManager.Valid() && store.Keys !! tombstones
      ensures ssTableManager.Valid()
      ensures ssTableManager.Runs() == old(ssTableManager.Runs()) + [EncodeRun(Ascending(old(store)))]
      ensures store == map[] && tombstones == old(tombstones)
    {
      ssTableManager.WriteToSSTable(Ascending(store));
      store := map[];
    }

    /** The tombstoned keys (`getTombstones().keySet()`). */
    function GetTombstones(): (ts: set<string>)
      reads this
      ensures forall k :: k in ts <==> HasTombstone(k)
    {
      tombstones
    }

    /** `readRange`: the stored pairs whose key lies in [lo, hi]. */
    function ReadRange(lo: string, hi: string): map<string, string>
      reads this
    {
      StoreRange(store, lo, hi)
    }

    /** `batchPut`: `put` for each entry in iteration order. */
    method BatchPut(entries: seq<Entry>)
      modifies this, ssTableManager
      requires Valid()
      ensures Valid()
      ensures store == PutAll(old(store), entries).0
      ensures tombstones == old(tombstones) - KeySet(entries)
      ensures ssTableManager.Runs() == old(ssTableManager.Runs()) + EncodeRuns(PutAll(old(store), entries).1)
    {
      for i := 0 to |entries|
        invariant Valid()
        invariant store == PutAll(old(store), entries[..i]).0
        invariant tombstones == old(tombstones) - KeySet(entries[..i])
        invariant ssTableManager.Runs() == old(ssTableManager.Runs()) + EncodeRuns(PutAll(old(store), entries[..i]).1)
      {
        ghost var before := PutAll(old(store), entries[..i]);
        ghost var step := PutStore(before.0, entries[i].key, entries[i].value);
        PutAllStep(old(store), entries, i);
        EncodeRunsAppend(before.1, step.1);
        KeySetStep(entries, i);
        Put(entries[i].key, entries[i].value);
      }
      assert entries[..|entries|] == entries;
    }
  }
}
