/** The run manager: an ordered list of SSTable files, oldest first, with point reads and range
    reads that scan newest to oldest, and a compaction that folds every run into one. */
module Manager {
  import opened Wrappers
  import opened JavaStrings
  import opened SortedMaps
  import opened SSTables

  // ---------------------------------------------------------------------------------------
  // What a line, a run and a list of runs hold for a key

  /** The line is a key-value line (it has a comma) whose key part is `k`. */
  predicate Holds(line: string, k: string)
  {
    ParseLine(line).Some? && ParseLine(line).value.key == k
  }

  /** The value a line gives for `k`, if it is a key-value line for `k`. */
  function ValueFor(line: string, k: string): Option<string>
  {
    if Holds(line, k) then Some(ParseLine(line).value.value) else None
  }

  /** The value of the first key-value line for `k` in a run. */
  function FirstValue(lines: seq<string>, k: string): Option<string>
  {
    if lines == [] then None else OrElse(ValueFor(lines[0], k), FirstValue(lines[1..], k))
  }

  /** The value of the last key-value line for `k` in a run. */
  function LastValue(lines: seq<string>, k: string): Option<string>
  {
    if lines == [] then None else OrElse(LastValue(lines[1..], k), ValueFor(lines[0], k))
  }

  /** The first-line value for `k` of the newest run that has one. */
  function NewestFirst(runs: seq<seq<string>>, k: string): Option<string>
  {
    if runs == [] then None
    else OrElse(FirstValue(runs[|runs| - 1], k), NewestFirst(runs[..|runs| - 1], k))
  }

  /** The last-line value for `k` of the newest run that has one. */
  function NewestLast(runs: seq<seq<string>>, k: string): Option<string>
  {
    if runs == [] then None
    else OrElse(LastValue(runs[|runs| - 1], k), NewestLast(runs[..|runs| - 1], k))
  }

  /** No two lines of the run have the same key part. */
  predicate UniqueKeys(lines: seq<string>)
  {
    forall i, j :: 0 <= i < j < |lines| ==> KeyPart(lines[i]) != KeyPart(lines[j])
  }

  // ---------------------------------------------------------------------------------------
  // readFromSSTables

  /** The outcome of `readFromSSTables(key)`: `read` on each run from the newest down, stopping
      at the first run that answers with a value or fails. */
  function ReadNewest(runs: seq<seq<string>>, key: string): Result<Option<string>>
  {
    if runs == [] then Ok(None)
    else
      var r := Lookup(runs[|runs| - 1], key);
      if r != Ok(None) then r else ReadNewest(runs[..|runs| - 1], key)
  }

  /** The newest run that has a line for `key` decides the point read. */
  lemma {:induction false} ReadNewestFromNewest(runs: seq<seq<string>>, key: string, i: int)
    requires 0 <= i < |runs| && Lookup(runs[i], key) != Ok(None)
    requires forall j :: i < j < |runs| ==> Lookup(runs[j], key) == Ok(None)
    ensures ReadNewest(runs, key) == Lookup(runs[i], key)
  {
    if i < |runs| - 1 {
      var init := runs[..|runs| - 1];
      ReadNewestFromNewest(init, key, i);
    }
  }

  /** The point read is null exactly when no run has a line whose key part is `key`. */
  lemma {:induction false} ReadNewestNone(runs: seq<seq<string>>, key: string)
    ensures ReadNewest(runs, key) == Ok(None) <==>
      forall i, j :: 0 <= i < |runs| && 0 <= j < |runs[i]| ==> KeyPart(runs[i][j]) != key
  {
    if runs != [] {
      var init := runs[..|runs| - 1];
      ReadNewestNone(init, key);
      LookupNone(runs[|runs| - 1], key);
      assert forall i :: 0 <= i < |init| ==> init[i] == runs[i];
    }
  }

  // ---------------------------------------------------------------------------------------
  // readKeyRange

  /** One line of a range scan: a key-value line inside [lo, hi] is added unless a newer run
      already supplied its key (`putIfAbsent`); a line without a comma is skipped. */
  function ScanLine(acc: map<string, string>, line: string, lo: string, hi: string): map<string, string>
  {
    match ParseLine(line)
    case Some(e) => if Between(e.key, lo, hi) && e.key !in acc then acc[e.key := e.value] else acc
    case None => acc
  }

  /** The lines of one run, in file order. */
  function ScanLines(acc: map<string, string>, lines: seq<string>, lo: string, hi: string): map<string, string>
    decreases lines
  {
    if lines == [] then acc else ScanLines(ScanLine(acc, lines[0], lo, hi), lines[1..], lo, hi)
  }

  /** The runs from the newest down to the oldest. */
  function ScanRuns(acc: map<string, string>, runs: seq<seq<string>>, lo: string, hi: string): map<string, string>
    decreases runs
  {
    if runs == [] then acc
    else ScanRuns(ScanLines(acc, runs[|runs| - 1], lo, hi), runs[..|runs| - 1], lo, hi)
  }

  lemma {:induction false} ScanLinesGet(acc: map<string, string>, lines: seq<string>, lo: string, hi: string, k: string)
    ensures Get(ScanLines(acc, lines, lo, hi), k) ==
      OrElse(Get(acc, k), if Between(k, lo, hi) then FirstValue(lines, k) else None)
    decreases lines
  {
    if lines != [] {
      ScanLinesGet(ScanLine(acc, lines[0], lo, hi), lines[1..], lo, hi, k);
    }
  }

  lemma {:induction false} ScanRunsGet(acc: map<string, string>, runs: seq<seq<string>>, lo: string, hi: string, k: string)
    ensures Get(ScanRuns(acc, runs, lo, hi), k) ==
      OrElse(Get(acc, k), if Between(k, lo, hi) then NewestFirst(runs, k) else None)
    decreases runs
  {
    if runs != [] {
      var last := runs[|runs| - 1];
      ScanLinesGet(acc, last, lo, hi, k);
      ScanRunsGet(ScanLines(acc, last, lo, hi), runs[..|runs| - 1], lo, hi, k);
    }
  }

  /** The range read holds exactly the keys in [lo, hi] that some run has a key-value line for,
      each with the value from the newest such run. */
  lemma RangeRead(runs: seq<seq<string>>, lo: string, hi: string, k: string)
    ensures Get(ScanRuns(map[], runs, lo, hi), k) == if Between(k, lo, hi) then NewestFirst(runs, k) else None
  {
    ScanRunsGet(map[], runs, lo, hi, k);
  }

  /** A range whose lower bound is above its upper bound reads as empty. */
  lemma RangeEmptyWhenReversed(runs: seq<seq<string>>, lo: string, hi: string)
    requires CompareTo(lo, hi) > 0
    ensures ScanRuns(map[], runs, lo, hi) == map[]
  {
    var m := ScanRuns(map[], runs, lo, hi);
    forall k | k in m ensures false {
      RangeRead(runs, lo, hi, k);
      EmptyRange(k, lo, hi);
    }
  }

  lemma {:induction false} FirstValueNone(lines: seq<string>, k: string)
    ensures FirstValue(lines, k) == None <==> forall j :: 0 <= j < |lines| ==> !Holds(lines[j], k)
  {
    if lines != [] {
      FirstValueNone(lines[1..], k);
      assert forall j :: 0 < j < |lines| ==> lines[j] == lines[1..][j - 1];
    }
  }

  /** A key is absent from every run's key-value lines exactly when no run supplies a value. */
  lemma {:induction false} NewestFirstNone(runs: seq<seq<string>>, k: string)
    ensures NewestFirst(runs, k) == None <==>
      forall i, j :: 0 <= i < |runs| && 0 <= j < |runs[i]| ==> !Holds(runs[i][j], k)
  {
    if runs != [] {
      var init := runs[..|runs| - 1];
      NewestFirstNone(init, k);
      FirstValueNone(runs[|runs| - 1], k);
      assert forall i :: 0 <= i < |init| ==> init[i] == runs[i];
    }
  }

  /** The newest run holding the key supplies the range read's value. */
  lemma {:induction false} NewestFirstFromNewest(runs: seq<seq<string>>, k: string, i: int)
    requires 0 <= i < |runs| && FirstValue(runs[i], k).Some?
    requires forall j :: i < j < |runs| ==> FirstValue(runs[j], k) == None
    ensures NewestFirst(runs, k) == FirstValue(runs[i], k)
  {
    if i < |runs| - 1 {
      NewestFirstFromNewest(runs[..|runs| - 1], k, i);
    }
  }

  // ---------------------------------------------------------------------------------------
  // compact

  /** One line of the merge: a key-value line overwrites its key unless the key is tombstoned. */
  function MergeLine(acc: map<string, string>, line: string, tombstones: set<string>): map<string, string>
  {
    match ParseLine(line)
    case Some(e) => if e.key in tombstones then acc else acc[e.key := e.value]
    case None => acc
  }

  /** The lines of one run, in file order; keys in the result never hold a comma when the
      accumulated keys do not. */
  function MergeLines(acc: map<string, string>, lines: seq<string>, tombstones: set<string>): (r: map<string, string>)
    ensures (forall key :: key in acc ==> ',' !in key) ==> forall key :: key in r ==> ',' !in key
    decreases lines
  {
    if lines == [] then acc else MergeLines(MergeLine(acc, lines[0], tombstones), lines[1..], tombstones)
  }

  /** The merged map of `compact`: the runs from the oldest to the newest, newer lines
      overwriting older ones. Its keys never hold a comma, since each is text before a first
      comma. */
  function MergeRuns(runs: seq<seq<string>>, tombstones: set<string>): (r: map<string, string>)
    ensures forall key :: key in r ==> ',' !in key
  {
    if runs == [] then map[]
    else MergeLines(MergeRuns(runs[..|runs| - 1], tombstones), runs[|runs| - 1], tombstones)
  }

  /** Merging from line `j` is merging line `j`, then the rest. */
  lemma MergeLinesStep(acc: map<string, string>, lines: seq<string>, j: nat, tombstones: set<string>)
    requires j < |lines|
    ensures MergeLines(acc, lines[j..], tombstones) == MergeLines(MergeLine(acc, lines[j], tombstones), lines[j + 1..], tombstones)
  {
    assert lines[j..][1..] == lines[j + 1..];
  }

  /** Merging one more run merges its lines over the earlier runs' map. */
  lemma MergeRunsStep(runs: seq<seq<string>>, i: nat, tombstones: set<string>)
    requires i < |runs|
    ensures MergeRuns(runs[..i + 1], tombstones) == MergeLines(MergeRuns(runs[..i], tombstones), runs[i], tombstones)
  {
    assert runs[..i + 1][..i] == runs[..i];
  }

  lemma {:induction false} MergeLinesGet(acc: map<string, string>, lines: seq<string>, tombstones: set<string>, k: string)
    ensures Get(MergeLines(acc, lines, tombstones), k) ==
      if k in tombstones then Get(acc, k) else OrElse(LastValue(lines, k), Get(acc, k))
    decreases lines
  {
    if lines != [] {
      MergeLinesGet(MergeLine(acc, lines[0], tombstones), lines[1..], tombstones, k);
    }
  }

  /** The merged map omits every tombstoned key and maps every other key to the last line for
      it in the newest run that has one. */
  lemma {:induction false} MergeRunsGet(runs: seq<seq<string>>, tombstones: set<string>, k: string)
    ensures Get(MergeRuns(runs, tombstones), k) == if k in tombstones then None else NewestLast(runs, k)
  {
    if runs != [] {
      var init := runs[..|runs| - 1];
      MergeRunsGet(init, tombstones, k);
      MergeLinesGet(MergeRuns(init, tombstones), runs[|runs| - 1], tombstones, k);
    }
  }

  // ---------------------------------------------------------------------------------------
  // Point reads against what the range read and the merge see

  /** On a run whose every line has a comma, `read` is the first key-value line's value. */
  lemma {:induction false} LookupWellFormed(lines: seq<string>, k: string)
    requires WellFormed(lines)
    ensures Lookup(lines, k) == Ok(FirstValue(lines, k))
  {
    if lines != [] {
      LookupWellFormed(lines[1..], k);
    }
  }

  lemma {:induction false} ReadNewestWellFormed(runs: seq<seq<string>>, k: string)
    requires forall i :: 0 <= i < |runs| ==> WellFormed(runs[i])
    ensures ReadNewest(runs, k) == Ok(NewestFirst(runs, k))
  {
    if runs != [] {
      ReadNewestWellFormed(runs[..|runs| - 1], k);
      LookupWellFormed(runs[|runs| - 1], k);
    }
  }

  lemma {:induction false} NoLineForKey(lines: seq<string>, k: string)
    requires forall j :: 0 <= j < |lines| ==> KeyPart(lines[j]) != k
    ensures LastValue(lines, k) == None
  {
    if lines != [] {
      NoLineForKey(lines[1..], k);
    }
  }

  /** In a run with unique keys the first and the last line for a key are the same line. */
  lemma {:induction false} UniqueFirstIsLast(lines: seq<string>, k: string)
    requires UniqueKeys(lines)
    ensures FirstValue(lines, k) == LastValue(lines, k)
  {
    if lines != [] {
      var tail := lines[1..];
      assert UniqueKeys(tail) by {
        forall i, j | 0 <= i < j < |tail| ensures KeyPart(tail[i]) != KeyPart(tail[j]) {
          assert tail[i] == lines[i + 1] && tail[j] == lines[j + 1];
        }
      }
      UniqueFirstIsLast(tail, k);
      if Holds(lines[0], k) {
        forall j | 0 <= j < |tail| ensures KeyPart(tail[j]) != k {
          assert tail[j] == lines[j + 1];
        }
        NoLineForKey(tail, k);
      }
    }
  }

  lemma {:induction false} UniqueNewest(runs: seq<seq<string>>, k: string)
    requires forall i :: 0 <= i < |runs| ==> UniqueKeys(runs[i])
    ensures NewestFirst(runs, k) == NewestLast(runs, k)
  {
    if runs != [] {
      UniqueNewest(runs[..|runs| - 1], k);
      UniqueFirstIsLast(runs[|runs| - 1], k);
    }
  }

  /** The compacted run, as `compact` writes it: the merged map in ascending key order. */
  function CompactedRun(runs: seq<seq<string>>, tombstones: set<string>): seq<string>
  {
    EncodeRun(Ascending(MergeRuns(runs, tombstones)))
  }

  /** The entries of a map in ascending order have distinct keys, free of commas when the
      map's keys are. */
  lemma AscendingKeys(m: map<string, string>)
    requires forall key :: key in m ==> ',' !in key
    ensures forall j :: 0 <= j < |Ascending(m)| ==> ',' !in Ascending(m)[j].key
    ensures forall i, j :: 0 <= i < j < |Ascending(m)| ==> Ascending(m)[i].key != Ascending(m)[j].key
  {
    var data := Ascending(m);
    forall j | 0 <= j < |data| ensures ',' !in data[j].key {
      assert data[j].key in m;
    }
    AscendingDistinct(m);
  }

  /** Reading the written merged map gives back exactly the merged map. */
  lemma ReadCompacted(m: map<string, string>, k: string)
    requires forall key :: key in m ==> ',' !in key
    ensures Lookup(EncodeRun(Ascending(m)), k) == Ok(Get(m, k))
  {
    var data := Ascending(m);
    AscendingKeys(m);
    if k in m {
      var i :| 0 <= i < |data| && data[i].key == k;
      ReadAfterWrite(data, i);
    } else {
      ReadAbsentAfterWrite(data, k);
    }
  }

  /** A run written from entries with distinct comma-free keys has unique key parts. */
  lemma WrittenUnique(data: seq<Entry>)
    requires forall j :: 0 <= j < |data| ==> ',' !in data[j].key
    requires forall i, j :: 0 <= i < j < |data| ==> data[i].key != data[j].key
    ensures UniqueKeys(EncodeRun(data))
  {
    KeysAfterWrite(data);
  }

  /** A map written in TreeMap order (a flush, or the merged map of a compaction) meets the
      premises of `CompactionPreservesReads` when its keys hold no comma. */
  lemma WrittenMapUnique(m: map<string, string>)
    requires forall key :: key in m ==> ',' !in key
    ensures WellFormed(EncodeRun(Ascending(m))) && UniqueKeys(EncodeRun(Ascending(m)))
  {
    AscendingKeys(m);
    WrittenIsWellFormed(Ascending(m));
    WrittenUnique(Ascending(m));
  }

  /** The compacted run always meets those premises, whatever the runs held: merged keys are
      text before a first comma. So compaction can follow compaction. */
  lemma CompactedRunUnique(runs: seq<seq<string>>, tombstones: set<string>)
    ensures WellFormed(CompactedRun(runs, tombstones)) && UniqueKeys(CompactedRun(runs, tombstones))
  {
    WrittenMapUnique(MergeRuns(runs, tombstones));
  }

  /** TreeMap order of {"a": "1", "a,b": "2"}: "a" sorts before "a,b". */
  lemma CommaKeyOrder()
    ensures Ascending(map["a" := "1", "a,b" := "2"]) == [Entry("a", "1"), Entry("a,b", "2")]
  {
    var m := map["a" := "1", "a,b" := "2"];
    var es := Ascending(m);
    AscendingSorted(m);
    assert CompareTo("a", "a,b") < 0;
    assert es[0].key in m && es[1].key in m;
    assert CompareTo(es[0].key, es[1].key) < 0;
    if es[0].key == "a,b" {
      assert false;
    }
  }

  /** The lines written for that map. */
  lemma CommaKeyLines()
    ensures EncodeRun([Entry("a", "1"), Entry("a,b", "2")]) == ["a,1", "a,b,2"]
  {
    var run := EncodeRun([Entry("a", "1"), Entry("a,b", "2")]);
    assert run[0] == "a,1" by {
      assert "a" + "," + "1" == "a,1";
    }
    assert run[1] == "a,b,2" by {
      assert "a,b" + "," + "2" == "a,b,2";
    }
  }

  /** Both lines split at their first comma, into the key part "a" and the rest. */
  lemma CommaKeySplit()
    ensures SplitFirst("a,1") == ["a", "1"] && SplitFirst("a,b,2") == ["a", "b,2"]
  {
    SplitFirstJoin("a", "1");
    assert "a" + "," + "1" == "a,1";
    SplitFirstJoin("a", "b,2");
    assert "a" + "," + "b,2" == "a,b,2";
  }

  /** Merging those lines keeps the last line for "a". */
  lemma CommaKeyMerge()
    ensures MergeRuns([["a,1", "a,b,2"]], {}) == map["a" := "b,2"]
  {
    var run := ["a,1", "a,b,2"];
    var none: seq<seq<string>> := [];
    assert [run][..0] == none;
    CommaKeySplit();
    var acc := MergeLine(map[], run[0], {});
    assert acc == map["a" := "1"];
    assert run[1..][1..] == [];
    assert MergeLines(map[], run, {}) == MergeLines(acc, run[1..], {});
  }

  /** A key holding a comma breaks both premises: the map {"a": "1", "a,b": "2"} is written as
      the lines "a,1" and "a,b,2", whose key parts are both "a". A point read of "a" finds "1",
      and after compaction it finds "b,2". */
  lemma CommaKeyChangesRead()
    ensures var run := EncodeRun(Ascending(map["a" := "1", "a,b" := "2"]));
      && run == ["a,1", "a,b,2"]
      && !UniqueKeys(run)
      && ReadNewest([run], "a") == Ok(Some("1"))
      && ReadNewest([CompactedRun([run], {}), CompactedRun([run], {})], "a") == Ok(Some("b,2"))
  {
    CommaKeyOrder();
    CommaKeyLines();
    CommaKeyMerge();
    var run := ["a,1", "a,b,2"];
    CommaKeySplit();
    assert KeyPart(run[0]) == KeyPart(run[1]);
    var none: seq<seq<string>> := [];
    assert [run][..0] == none;
    assert Lookup(run, "a") == Ok(Some("1"));
    var c := CompactedRun([run], {});
    ReadCompacted(map["a" := "b,2"], "a");
    DuplicateRunHarmless(c, "a");
  }

  /** After compaction the handle list names the compacted file twice; reading it twice is the
      same as reading it once. */
  lemma DuplicateRunHarmless(run: seq<string>, k: string)
    ensures ReadNewest([run, run], k) == Lookup(run, k)
  {
    assert [run, run][..1] == [run];
    assert [run][..0] == [];
    assert ReadNewest([run], k) == Lookup(run, k);
  }

  /** Compaction preserves every point read outside the tombstone set and makes every
      tombstoned key read as null, provided every run has a comma on each line and unique keys
      (otherwise the merge keeps a run's last line for a key while a read returns its first). */
  lemma CompactionPreservesReads(runs: seq<seq<string>>, tombstones: set<string>, k: string)
    requires forall i :: 0 <= i < |runs| ==> WellFormed(runs[i]) && UniqueKeys(runs[i])
    ensures var c := CompactedRun(runs, tombstones);
      ReadNewest([c, c], k) == if k in tombstones then Ok(None) else ReadNewest(runs, k)
  {
    var c := CompactedRun(runs, tombstones);
    DuplicateRunHarmless(c, k);
    ReadCompacted(MergeRuns(runs, tombstones), k);
    MergeRunsGet(runs, tombstones, k);
    ReadNewestWellFormed(runs, k);
    UniqueNewest(runs, k);
  }

  // ---------------------------------------------------------------------------------------
  // The manager object

  /** The runs a handle list names, oldest first. */
  function RunsOf(dir: map<nat, seq<string>>, handles: seq<nat>): seq<seq<string>>
    requires forall i :: 0 <= i < |handles| ==> handles[i] in dir
  {
    seq(|handles|, i requires 0 <= i < |handles| => dir[handles[i]])
  }

  /** `listing` is a listing of the directory `dir`: every file exactly once, in some order. */
  predicate Lists(listing: seq<nat>, dir: map<nat, seq<string>>)
  {
    && (forall i :: 0 <= i < |listing| ==> listing[i] in dir)
    && (forall g :: g in dir ==> g in listing)
    && (forall i, j :: 0 <= i < j < |listing| ==> listing[i] != listing[j])
  }

  class SSTableManager {
    /** The `sstable_*.txt` files of the manager's directory, by generation number. */
    var dir: map<nat, seq<string>>
    /** The generation the next new file gets; it stands for the clock that names files. */
    var clock: nat
    /** The handle list, oldest run first. */
    var sstables: seq<nat>

    /** Every handle names a file, every file is on the list, and every file is older than the
        clock. */
    ghost predicate Valid()
      reads this
    {
      && (forall i :: 0 <= i < |sstables| ==> sstables[i] in dir)
      && (forall g :: g in dir ==> g in sstables)
      && (forall g :: g in dir ==> g < clock)
    }

    /** The contents of the listed runs, oldest first. */
    ghost function Runs(): seq<seq<string>>
      reads this
      requires Valid()
    {
      RunsOf(dir, sstables)
    }

    /** A manager over a directory holding `existing`, listed in the order `listing`. */
    constructor (existing: map<nat, seq<string>>, listing: seq<nat>, clock0: nat)
      requires Lists(listing, existing)
      requires forall g :: g in existing ==> g < clock0
      ensures Valid()
      ensures dir == existing && sstables == listing && clock == clock0
    {
      dir := existing;
      clock := clock0;
      sstables := [];
      new;
      LoadExistingSSTables(listing);
    }

    /** `loadExistingSSTables`: appends the directory listing to the handle list. */
    method LoadExistingSSTables(listing: seq<nat>)
      modifies this
      requires Lists(listing, dir)
      requires forall i :: 0 <= i < |sstables| ==> sstables[i] in dir
      requires forall g :: g in dir ==> g < clock
      ensures Valid()
      ensures sstables == old(sstables) + listing
      ensures dir == old(dir) && clock == old(clock)
    {
      sstables := sstables + listing;
    }

    /** `writeToSSTable`: a new file holding one line per entry of `data` becomes the newest
        run; the earlier runs are unchanged. */
    method WriteToSSTable(data: seq<Entry>)
      modifies this
      requires Valid()
      ensures Valid()
      ensures dir == old(dir)[old(clock) := EncodeRun(data)]
      ensures sstables == old(sstables) + [old(clock)]
      ensures clock == old(clock) + 1
      ensures Runs() == old(Runs()) + [EncodeRun(data)]
    {
      var g := clock;
      var lines := [];
      for i := 0 to |data|
        invariant |lines| == i
        invariant forall j :: 0 <= j < i ==> lines[j] == EncodeLine(data[j])
      {
        lines := lines + [EncodeLine(data[i])];
      }
      assert lines == EncodeRun(data);
      dir := dir[g := lines];
      sstables := sstables + [g];
      clock := clock + 1;
      assert forall i :: 0 <= i < |old(sstables)| ==> old(sstables)[i] != g;
    }

    /** `readFromSSTables`: `read` on each run from the newest to the oldest. */
    method ReadFromSSTables(key: string) returns (r: Result<Option<string>>)
      requires Valid()
      ensures r == ReadNewest(Runs(), key)
    {
      ghost var runs := Runs();
      assert runs[..|sstables|] == runs;
      var i := |sstables|;
      while i > 0
        invariant 0 <= i <= |sstables|
        invariant ReadNewest(runs, key) == ReadNewest(runs[..i], key)
      {
        assert runs[..i][..i - 1] == runs[..i - 1];
        i := i - 1;
        var lines := dir[sstables[i]];
        var j := 0;
        while j < |lines|
          invariant 0 <= j <= |lines|
          invariant Lookup(lines, key) == Lookup(lines[j..], key)
        {
          var parts := SplitFirst(lines[j]);
          if parts[0] == key {
            if |parts| < 2 {
              return Err(IndexOutOfBounds);
            }
            return Ok(Some(parts[1]));
          }
          assert lines[j..][1..] == lines[j + 1..];
          j := j + 1;
        }
      }
      return Ok(None);
    }

    /** `readKeyRange`: the key-value lines inside [lo, hi], newest run first, each key taking
        the first value met. */
    method ReadKeyRange(lo: string, hi: string) returns (result: map<string, string>)
      requires Valid()
      ensures result == ScanRuns(map[], Runs(), lo, hi)
    {
      ghost var runs := Runs();
      assert runs[..|sstables|] == runs;
      result := map[];
      var i := |sstables|;
      while i > 0
        invariant 0 <= i <= |sstables|
        invariant ScanRuns(map[], runs, lo, hi) == ScanRuns(result, runs[..i], lo, hi)
      {
        assert runs[..i][..i - 1] == runs[..i - 1];
        i := i - 1;
        var lines := dir[sstables[i]];
        ghost var before := result;
        var j := 0;
        while j < |lines|
          invariant 0 <= j <= |lines|
          invariant ScanLines(before, lines, lo, hi) == ScanLines(result, lines[j..], lo, hi)
        {
          var parts := SplitFirst(lines[j]);
          if |parts| == 2 {
            var key := parts[0];
            var value := parts[1];
            if CompareTo(key, lo) >= 0 && CompareTo(key, hi) <= 0 && key !in result {
              result := result[key := value];
            }
          }
          assert lines[j..][1..] == lines[j + 1..];
          j := j + 1;
        }
      }
    }

    /** `compact`: merges every run, oldest first, skipping tombstoned keys; deletes the old
        files; writes the merged map in ascending key order as a new file; reloads the
        directory, which lists that file a second time; returns the length of the list. */
    method Compact(tombstones: set<string>) returns (count: int)
      modifies this
      requires Valid()
      ensures Valid()
      ensures dir == map[old(clock) := CompactedRun(old(Runs()), tombstones)]
      ensures sstables == [old(clock), old(clock)] && clock == old(clock) + 1
      ensures Runs() == [CompactedRun(old(Runs()), tombstones), CompactedRun(old(Runs()), tombstones)]
      ensures count == |sstables| == 2
    {
      var merged := MergeAll(tombstones);
      DeleteAll();
      WriteToSSTable(Ascending(merged));
      LoadExistingSSTables([clock - 1]);
      count := |sstables|;
    }

    /** Step 1 of `compact`: the merged map of every listed run. */
    method MergeAll(tombstones: set<string>) returns (merged: map<string, string>)
      requires Valid()
      ensures merged == MergeRuns(Runs(), tombstones)
    {
      ghost var runs := Runs();
      merged := map[];
      for i := 0 to |sstables|
        invariant merged == MergeRuns(runs[..i], tombstones)
      {
        var lines := dir[sstables[i]];
        ghost var before := merged;
        for j := 0 to |lines|
          invariant MergeLines(before, lines, tombstones) == MergeLines(merged, lines[j..], tombstones)
        {
          MergeLinesStep(merged, lines, j, tombstones);
          ghost var current := merged;
          var parts := SplitFirst(lines[j]);
          if |parts| == 2 {
            var key := parts[0];
            var value := parts[1];
            if key !in tombstones {
              merged := merged[key := value];
            }
          }
          assert merged == MergeLine(current, lines[j], tombstones);
        }
        assert lines[|lines|..] == [];
        MergeRunsStep(runs, i, tombstones);
      }
      assert runs[..|sstables|] == runs;
    }

    /** Step 2 of `compact`: deletes every listed file, which empties the directory, and clears
        the list. */
    method DeleteAll()
      modifies this
      requires Valid()
      ensures Valid()
      ensures dir == map[] && sstables == [] && clock == old(clock)
    {
      for i := 0 to |sstables|
        invariant sstables == old(sstables) && clock == old(clock)
        invariant forall g :: g in dir ==> g in sstables && g !in sstables[..i]
      {
        dir := dir - {sstables[i]};
      }
      assert sstables[..|sstables|] == sstables;
      assert dir == map[];
      sstables := [];
    }
  }
}
