/** One sorted run on disk: the text format of its lines, and the SSTable class that writes a
    map to its file and reads it back line by line. A file is the sequence of its lines. */
module SSTables {
  import opened Wrappers
  import opened JavaStrings
  import opened SortedMaps

  /** The line written for one entry: `key + "," + value`. */
  function EncodeLine(e: Entry): string
  {
    e.key + "," + e.value
  }

  /** The lines written for `data`, one per entry, in its iteration order. */
  function EncodeRun(data: seq<Entry>): seq<string>
  {
    seq(|data|, i requires 0 <= i < |data| => EncodeLine(data[i]))
  }

  /** `line.split(",", 2)[0]`: what a reader compares with the searched key. */
  function KeyPart(line: string): string
  {
    SplitFirst(line)[0]
  }

  /** A line split into key and value, or None for a line without a comma (which has no
      `parts[1]`). */
  function ParseLine(line: string): Option<Entry>
  {
    var parts := SplitFirst(line);
    if |parts| == 2 then Some(Entry(parts[0], parts[1])) else None
  }

  /** Every line of the file has a comma. */
  predicate WellFormed(lines: seq<string>)
  {
    forall i :: 0 <= i < |lines| ==> ',' in lines[i]
  }

  /** The outcome of `read(key)` on a file: the value part of the first line whose key part is
      `key`; None (null) when no line matches; an error when that line has no value part. */
  function Lookup(lines: seq<string>, key: string): Result<Option<string>>
  {
    if lines == [] then Ok(None)
    else
      var parts := SplitFirst(lines[0]);
      if parts[0] == key then
        if |parts| == 2 then Ok(Some(parts[1])) else Err(IndexOutOfBounds)
      else Lookup(lines[1..], key)
  }

  /** A line parses back into the entry it was written from, provided the key has no comma;
      the value may hold commas. */
  lemma LineRoundTrip(e: Entry)
    requires ',' !in e.key
    ensures ParseLine(EncodeLine(e)) == Some(e)
    ensures KeyPart(EncodeLine(e)) == e.key
  {
    SplitFirstJoin(e.key, e.value);
  }

  /** `read` answers from the first line whose key part matches: its value, or an error when
      that line has no comma. */
  lemma {:induction false} LookupFirstMatch(lines: seq<string>, key: string, i: int)
    requires 0 <= i < |lines| && KeyPart(lines[i]) == key
    requires forall j :: 0 <= j < i ==> KeyPart(lines[j]) != key
    ensures Lookup(lines, key) ==
      match ParseLine(lines[i])
      case Some(e) => Ok(Some(e.value))
      case None => Err(IndexOutOfBounds)
  {
    if i > 0 {
      LookupFirstMatch(lines[1..], key, i - 1);
    }
  }

  /** `read` returns null exactly when no line's key part is `key`. */
  lemma {:induction false} LookupNone(lines: seq<string>, key: string)
    ensures Lookup(lines, key) == Ok(None) <==> forall i :: 0 <= i < |lines| ==> KeyPart(lines[i]) != key
  {
    if lines != [] {
      LookupNone(lines[1..], key);
      if KeyPart(lines[0]) != key {
        forall i | 0 < i < |lines| ensures KeyPart(lines[i]) == KeyPart(lines[1..][i - 1]) { }
      }
    }
  }

  /** Keys that were written can be read back, when keys are distinct and free of commas. */
  lemma ReadAfterWrite(data: seq<Entry>, i: int)
    requires forall j :: 0 <= j < |data| ==> ',' !in data[j].key
    requires forall j, j' :: 0 <= j < j' < |data| ==> data[j].key != data[j'].key
    requires 0 <= i < |data|
    ensures Lookup(EncodeRun(data), data[i].key) == Ok(Some(data[i].value))
  {
    var lines := EncodeRun(data);
    forall j | 0 <= j < |data| ensures KeyPart(lines[j]) == data[j].key {
      LineRoundTrip(data[j]);
    }
    LineRoundTrip(data[i]);
    LookupFirstMatch(lines, data[i].key, i);
  }

  /** A key that was not written reads as null, when written keys are free of commas. */
  lemma ReadAbsentAfterWrite(data: seq<Entry>, key: string)
    requires forall j :: 0 <= j < |data| ==> ',' !in data[j].key
    requires forall j :: 0 <= j < |data| ==> data[j].key != key
    ensures Lookup(EncodeRun(data), key) == Ok(None)
  {
    var lines := EncodeRun(data);
    forall j | 0 <= j < |data| ensures KeyPart(lines[j]) == data[j].key {
      LineRoundTrip(data[j]);
    }
    LookupNone(lines, key);
  }

  /** The keys `readAllKeys` lists after `write(data)` are the keys of `data` in order. */
  lemma KeysAfterWrite(data: seq<Entry>)
    requires forall j :: 0 <= j < |data| ==> ',' !in data[j].key
    ensures |EncodeRun(data)| == |data|
    ensures forall j :: 0 <= j < |data| ==> KeyPart(EncodeRun(data)[j]) == data[j].key
  {
    forall j | 0 <= j < |data| ensures KeyPart(EncodeRun(data)[j]) == data[j].key {
      LineRoundTrip(data[j]);
    }
  }

  /** Written files have a comma on every line. */
  lemma WrittenIsWellFormed(data: seq<Entry>)
    ensures WellFormed(EncodeRun(data))
  {
    forall i | 0 <= i < |data| ensures ',' in EncodeRun(data)[i] {
      assert EncodeRun(data)[i][|data[i].key|] == ',';
    }
  }

  /** An SSTable: the file at its path, as the sequence of its lines. */
  class SSTable {
    var lines: seq<string>

    /** The table at a path whose file currently holds `contents`. */
    constructor (contents: seq<string>)
      ensures lines == contents
    {
      lines := contents;
    }

    /** `write`: replaces the file with one line per entry of `data`, in iteration order. */
    method Write(data: seq<Entry>)
      modifies this
      ensures lines == EncodeRun(data)
    {
      lines := [];
      for i := 0 to |data|
        invariant |lines| == i
        invariant forall j :: 0 <= j < i ==> lines[j] == EncodeLine(data[j])
      {
        lines := lines + [EncodeLine(data[i])];
      }
    }

    /** `read`: scans the lines in order and answers from the first whose key part is `key`. */
    method Read(key: string) returns (r: Result<Option<string>>)
      ensures r == Lookup(lines, key)
    {
      var i := 0;
      while i < |lines|
        invariant 0 <= i <= |lines|
        invariant Lookup(lines, key) == Lookup(lines[i..], key)
      {
        var parts := SplitFirst(lines[i]);
        if parts[0] == key {
          if |parts| < 2 {
            return Err(IndexOutOfBounds);
          }
          return Ok(Some(parts[1]));
        }
        assert lines[i..][1..] == lines[i + 1..];
        i := i + 1;
      }
      return Ok(None);
    }

    /** `readAllKeys`: the key part of every line, in file order. */
    method ReadAllKeys() returns (keys: seq<string>)
      ensures |keys| == |lines|
      ensures forall i :: 0 <= i < |lines| ==> keys[i] == KeyPart(lines[i])
    {
      keys := [];
      for i := 0 to |lines|
        invariant |keys| == i
        invariant forall j :: 0 <= j < i ==> keys[j] == KeyPart(lines[j])
      {
        keys := keys + [SplitFirst(lines[i])[0]];
      }
    }
  }
}
