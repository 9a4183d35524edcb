/** The storage engine: point reads through the MemTable and the runs, range reads that merge
    both, compaction of the runs with the MemTable's tombstones, and batch writes. */
module Engine {
  import opened Wrappers
  import opened JavaStrings
  import opened SortedMaps
  import opened SSTables
  import opened Manager
  import opened MemStore

  /** `get`: null for a tombstoned key, then the MemTable's value, then the runs'. */
  function EngineGet(store: map<string, string>, tombstones: set<string>, runs: seq<seq<string>>, key: string): Result<Option<string>>
  {
    if key in tombstones then Ok(None)
    else
      match MemGet(store, tombstones, key)
      case Some(v) => Ok(Some(v))
      case None => ReadNewest(runs, key)
  }

  /** The pairs `readKeyRange` returns: the runs' range read, overridden by the MemTable's
      range, without the tombstoned keys. */
  function EngineRange(store: map<string, string>, tombstones: set<string>, runs: seq<seq<string>>, lo: string, hi: string): map<string, string>
  {
    (ScanRuns(map[], runs, lo, hi) + StoreRange(store, lo, hi)) - tombstones
  }

  /** A tombstone hides a key whatever the runs hold. */
  lemma TombstoneHides(store: map<string, string>, tombstones: set<string>, runs: seq<seq<string>>, key: string)
    requires key in tombstones
    ensures EngineGet(store, tombstones, runs, key) == Ok(None)
  {
  }

  /** Past the tombstones, a stored value wins over the runs, and a key not in memory is read
      from the runs. */
  lemma MemoryBeforeRuns(store: map<string, string>, tombstones: set<string>, runs: seq<seq<string>>, key: string)
    requires key !in tombstones
    ensures key in store ==> EngineGet(store, tombstones, runs, key) == Ok(Some(store[key]))
    ensures key !in store ==> EngineGet(store, tombstones, runs, key) == ReadNewest(runs, key)
  {
  }

  /** The range read agrees with the point read on every key of [lo, hi] and holds no key
      outside it, when every line of every run has a comma (a comma-less line makes the point
      read fail while the range read skips it). So it holds no tombstoned key, and a stored
      value overrides the runs'. */
  lemma RangeAgreesWithGet(store: map<string, string>, tombstones: set<string>, runs: seq<seq<string>>, lo: string, hi: string, k: string)
    requires forall i :: 0 <= i < |runs| ==> WellFormed(runs[i])
    ensures Between(k, lo, hi) ==> EngineGet(store, tombstones, runs, k) == Ok(Get(EngineRange(store, tombstones, runs, lo, hi), k))
    ensures !Between(k, lo, hi) ==> k !in EngineRange(store, tombstones, runs, lo, hi)
  {
    RangeRead(runs, lo, hi, k);
    ReadNewestWellFormed(runs, k);
  }

  /** Every key of the range read lies in [lo, hi] and is not tombstoned; stored keys keep
      their stored values. */
  lemma RangeBounds(store: map<string, string>, tombstones: set<string>, runs: seq<seq<string>>, lo: string, hi: string, k: string)
    requires k in EngineRange(store, tombstones, runs, lo, hi)
    ensures Between(k, lo, hi) && k !in tombstones
    ensures k in store ==> EngineRange(store, tombstones, runs, lo, hi)[k] == store[k]
  {
    RangeRead(runs, lo, hi, k);
  }

  /** Compaction leaves `get` unchanged for every key, provided every run has a comma on each
      line and unique keys: tombstoned keys read as null before and after, and the others read
      the same from the compacted run. */
  lemma CompactionPreservesGet(store: map<string, string>, tombstones: set<string>, runs: seq<seq<string>>, k: string)
    requires forall i :: 0 <= i < |runs| ==> WellFormed(runs[i]) && UniqueKeys(runs[i])
    ensures var c := CompactedRun(runs, tombstones);
      EngineGet(store, tombstones, [c, c], k) == EngineGet(store, tombstones, runs, k)
  {
    CompactionPreservesReads(runs, tombstones, k);
  }

  /** The batch apple..elderberry read over banana..date gives banana, cherry and date. */
  lemma RangeExample()
    ensures var store := map["apple" := "red", "banana" := "yellow", "cherry" := "red", "date" := "brown", "elderberry" := "black"];
      EngineRange(store, {}, [], "banana", "date") == map["banana" := "yellow", "cherry" := "red", "date" := "brown"]
  {
    var store := map["apple" := "red", "banana" := "yellow", "cherry" := "red", "date" := "brown", "elderberry" := "black"];
    var expected := map["banana" := "yellow", "cherry" := "red", "date" := "brown"];
    CompareToZero("banana", "banana");
    CompareToZero("date", "date");
    assert CompareTo("apple", "banana") < 0;
    assert CompareTo("cherry", "banana") > 0 && CompareTo("cherry", "date") < 0;
    assert CompareTo("banana", "date") < 0 && CompareTo("date", "banana") > 0;
    assert CompareTo("elderberry", "date") > 0;
    var m := StoreRange(store, "banana", "date");
    assert m.Keys == expected.Keys;
    assert m == expected;
    assert ScanRuns(map[], [], "banana", "date") == map[];
    assert map[] + m == m;
  }

  /** Which keys of `OverrideExample` lie in banana..date. */
  lemma OverrideBounds()
    ensures !Between("apple", "banana", "date")
    ensures Between("banana", "banana", "date") && Between("cherry", "banana", "date")
    ensures Between("date", "banana", "date")
  {
    CompareToZero("banana", "banana");
    CompareToZero("date", "date");
    assert CompareTo("apple", "banana") < 0;
    assert CompareTo("banana", "date") < 0 && CompareTo("date", "banana") > 0;
    assert CompareTo("cherry", "banana") > 0 && CompareTo("cherry", "date") < 0;
  }

  /** A written line whose key is in range and not yet found is taken by the scan. */
  lemma ScanLineIn(acc: map<string, string>, e: Entry, lo: string, hi: string)
    requires ',' !in e.key && Between(e.key, lo, hi) && e.key !in acc
    ensures ScanLine(acc, EncodeLine(e), lo, hi) == acc[e.key := e.value]
  {
    LineRoundTrip(e);
  }

  /** A written line whose key is out of range is skipped by the scan. */
  lemma ScanLineOut(acc: map<string, string>, e: Entry, lo: string, hi: string)
    requires ',' !in e.key && !Between(e.key, lo, hi)
    ensures ScanLine(acc, EncodeLine(e), lo, hi) == acc
  {
    LineRoundTrip(e);
  }

  /** The run of `OverrideExample`, as `write` produces it. */
  function OverrideRun(): seq<string>
  {
    [EncodeLine(Entry("apple", "green")), EncodeLine(Entry("banana", "green")), EncodeLine(Entry("cherry", "dark"))]
  }

  /** The run's range read over banana..date skips apple and keeps banana and cherry. */
  lemma OverrideRunRange()
    ensures ScanRuns(map[], [OverrideRun()], "banana", "date") == map["banana" := "green", "cherry" := "dark"]
  {
    var run := OverrideRun();
    var a2 := map["banana" := "green"];
    var a3 := map["banana" := "green", "cherry" := "dark"];
    assert ScanLines(a2, run[2..], "banana", "date") == a3 by {
      OverrideBounds();
      ScanLineIn(a2, Entry("cherry", "dark"), "banana", "date");
      assert a2["cherry" := "dark"] == a3;
      assert run[2..][1..] == [];
    }
    assert ScanLines(map[], run[1..], "banana", "date") == a3 by {
      OverrideBounds();
      ScanLineIn(map[], Entry("banana", "green"), "banana", "date");
      assert map[]["banana" := "green"] == a2;
      assert run[1..][1..] == run[2..];
    }
    assert ScanLines(map[], run, "banana", "date") == a3 by {
      OverrideBounds();
      ScanLineOut(map[], Entry("apple", "green"), "banana", "date");
    }
    var none: seq<seq<string>> := [];
    assert [run][..0] == none;
  }

  /** Both stored keys lie in banana..date, so the MemTable's range read is the whole store. */
  lemma OverrideStoreRange()
    ensures StoreRange(map["banana" := "yellow", "date" := "brown"], "banana", "date")
      == map["banana" := "yellow", "date" := "brown"]
  {
    var store := map["banana" := "yellow", "date" := "brown"];
    OverrideBounds();
    var m := StoreRange(store, "banana", "date");
    forall k | k in store ensures k in m {
    }
    assert m.Keys == store.Keys;
  }

  /** A run holding apple, banana and cherry, a MemTable holding banana and date, and a
      tombstone on cherry, read over banana..date: apple lies outside the range, memory's
      banana overrides the run's, cherry is hidden, and date comes from memory. */
  lemma OverrideExample()
    ensures EngineRange(map["banana" := "yellow", "date" := "brown"], {"cherry"}, [OverrideRun()], "banana", "date")
      == map["banana" := "yellow", "date" := "brown"]
  {
    var store := map["banana" := "yellow", "date" := "brown"];
    var fromRun := map["banana" := "green", "cherry" := "dark"];
    OverrideRunRange();
    OverrideStoreRange();
    assert "banana" != "cherry" && "cherry" != "date" && "banana" != "date";
    OverlayHides("banana", "cherry", "date", "green", "dark", "yellow", "brown");
  }

  /** Laying a store over a run's range and hiding a key found only in the run gives the
      store back. */
  lemma OverlayHides(b: string, c: string, d: string, v1: string, v2: string, v3: string, v4: string)
    requires b != c && c != d && b != d
    ensures (map[b := v1, c := v2] + map[b := v3, d := v4]) - {c} == map[b := v3, d := v4]
  {
  }

  /** One step of laying the MemTable's range over the runs' range. */
  lemma OverlayStep(base: map<string, string>, mem: map<string, string>, pending: set<string>, k: string)
    requires k in pending && k in mem
    ensures (base + (mem - pending))[k := mem[k]] == base + (mem - (pending - {k}))
  {
  }

  /** One step of dropping the tombstoned keys. */
  lemma RemoveStep(merged: map<string, string>, tombstones: set<string>, left: set<string>, k: string)
    requires k in left && left <= tombstones
    ensures (merged - (tombstones - left)) - {k} == merged - (tombstones - (left - {k}))
  {
  }

  class StorageEngine {
    const memTable: MemTable
    const ssTableManager: SSTableManager

    ghost predicate Valid()
      reads this, memTable, memTable.ssTableManager, ssTableManager
    {
      memTable.Valid() && ssTableManager.Valid()
    }

    constructor (memTable: MemTable, ssTableManager: SSTableManager)
      requires memTable.Valid() && ssTableManager.Valid()
      ensures Valid()
      ensures this.memTable == memTable && this.ssTableManager == ssTableManager
    {
      this.memTable := memTable;
      this.ssTableManager := ssTableManager;
    }

    /** `get`. */
    method Get(key: string) returns (r: Result<Option<string>>)
      requires Valid()
      ensures r == EngineGet(memTable.store, memTable.tombstones, ssTableManager.Runs(), key)
    {
      if memTable.HasTombstone(key) {
        return Ok(None);
      }
      var value := memTable.Get(key);
      if value.Some? {
        return Ok(value);
      }
      r := ssTableManager.ReadFromSSTables(key);
    }

    /** `compactSSTables`: compacts the runs with the MemTable's tombstone set and returns the
        manager's count; the MemTable is untouched, and `get` is preserved for every key when
        every run has a comma on each line and unique keys. */
    method CompactSSTables() returns (count: int)
      modifies ssTableManager
      requires Valid()
      ensures Valid()
      ensures count == 2
      ensures ssTableManager.Runs() == [CompactedRun(old(ssTableManager.Runs()), memTable.tombstones), CompactedRun(old(ssTableManager.Runs()), memTable.tombstones)]
      ensures memTable.store == old(memTable.store) && memTable.tombstones == old(memTable.tombstones)
      ensures (forall i :: 0 <= i < |old(ssTableManager.Runs())| ==> WellFormed(old(ssTableManager.Runs())[i]) && UniqueKeys(old(ssTableManager.Runs())[i])) ==>
        forall k :: EngineGet(memTable.store, memTable.tombstones, ssTableManager.Runs(), k) ==
          EngineGet(memTable.store, memTable.tombstones, old(ssTableManager.Runs()), k)
    {
      ghost var runs := ssTableManager.Runs();
      count := ssTableManager.Compact(memTable.GetTombstones());
      if forall i :: 0 <= i < |runs| ==> WellFormed(runs[i]) && UniqueKeys(runs[i]) {
        forall k ensures EngineGet(memTable.store, memTable.tombstones, ssTableManager.Runs(), k) == EngineGet(memTable.store, memTable.tombstones, runs, k) {
          CompactionPreservesGet(memTable.store, memTable.tombstones, runs, k);
        }
      }
    }

    /** `readKeyRange`: the runs' range read, overridden by the MemTable's range, without the
        tombstoned keys, returned in ascending key order. */
    method ReadKeyRange(lo: string, hi: string) returns (result: seq<Entry>)
      requires Valid()
      ensures result == Ascending(EngineRange(memTable.store, memTable.tombstones, ssTableManager.Runs(), lo, hi))
      ensures StrictlyAscending(result)
    {
      var memRange := memTable.ReadRange(lo, hi);
      var sstableRange := ssTableManager.ReadKeyRange(lo, hi);
      ghost var base := sstableRange;
      var pending := memRange.Keys;
      while pending != {}
        invariant pending <= memRange.Keys
        invariant sstableRange == base + (memRange - pending)
        decreases pending
      {
        var k :| k in pending;
        OverlayStep(base, memRange, pending, k);
        sstableRange := sstableRange[k := memRange[k]];
        pending := pending - {k};
      }
      assert memRange - {} == memRange;
      ghost var merged := sstableRange;
      var tombstones := memTable.GetTombstones();
      var left := tombstones;
      while left != {}
        invariant left <= tombstones
        invariant sstableRange == merged - (tombstones - left)
        decreases left
      {
        var k :| k in left;
        RemoveStep(merged, tombstones, left, k);
        sstableRange := sstableRange - {k};
        left := left - {k};
      }
      assert tombstones - {} == tombstones;
      assert sstableRange == EngineRange(memTable.store, memTable.tombstones, ssTableManager.Runs(), lo, hi);
      result := Ascending(sstableRange);
      AscendingSorted(sstableRange);
    }

    /** `batchPut`: the MemTable's `batchPut`. */
    method BatchPut(entries: seq<Entry>)
      modifies memTable, memTable.ssTableManager
      requires Valid()
      ensures Valid()
      ensures memTable.store == PutAll(old(memTable.store), entries).0
      ensures memTable.tombstones == old(memTable.tombstones) - KeySet(entries)
      ensures memTable.ssTableManager.Runs() == old(memTable.ssTableManager.Runs()) + EncodeRuns(PutAll(old(memTable.store), entries).1)
    {
      memTable.BatchPut(entries);
    }
  }
}
