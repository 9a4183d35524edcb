/** The write-ahead log: the record codec (escaping, the split on unescaped commas, the parse
    of one line), the choice of the active file among `wal_<timestamp>.log` names, and the log
    object that appends records, recovers them and rotates to a fresh file. */
module Wal {
  import opened Wrappers
  import opened JavaStrings

  // ---------------------------------------------------------------------------------------
  // escape / unescape

  /** `s.replace(",", "\\,")`. */
  function Escape(s: string): string
  {
    if s == [] then [] else (if s[0] == ',' then "\\," else [s[0]]) + Escape(s[1..])
  }

  /** `s.replace("\\,", ",")`: occurrences are replaced left to right without overlap. */
  function Unescape(s: string): string
  {
    if s == [] then []
    else if |s| >= 2 && s[0] == '\\' && s[1] == ',' then "," + Unescape(s[2..])
    else [s[0]] + Unescape(s[1..])
  }

  /** An escaped text never starts with a comma. */
  lemma EscapeHead(s: string)
    ensures Escape(s) == [] <==> s == []
    ensures Escape(s) != [] ==> Escape(s)[0] != ','
  {
  }

  /** Unescaping undoes escaping, for every string. */
  lemma {:induction false} UnescapeEscape(s: string)
    ensures Unescape(Escape(s)) == s
  {
    if s != [] {
      var rest := Escape(s[1..]);
      UnescapeEscape(s[1..]);
      EscapeHead(s[1..]);
      if s[0] == ',' {
        assert Escape(s) == "\\," + rest;
        assert Escape(s)[2..] == rest;
      } else {
        assert Escape(s) == [s[0]] + rest;
        assert Escape(s)[1..] == rest;
      }
    }
  }

  /** Every comma of an escaped text has a backslash just before it. */
  lemma {:induction false} EscapeCommas(s: string)
    ensures forall p :: 0 <= p < |Escape(s)| && Escape(s)[p] == ',' ==> p > 0 && Escape(s)[p - 1] == '\\'
  {
    if s != [] {
      EscapeCommas(s[1..]);
      var head: string := if s[0] == ',' then "\\," else [s[0]];
      var rest := Escape(s[1..]);
      EscapeHead(s[1..]);
      assert Escape(s) == head + rest;
      forall p | 0 <= p < |Escape(s)| && Escape(s)[p] == ',' ensures p > 0 && Escape(s)[p - 1] == '\\' {
        if p >= |head| {
          assert Escape(s)[p] == rest[p - |head|];
          if p - |head| > 0 {
            assert Escape(s)[p - 1] == rest[p - |head| - 1];
          }
        }
      }
    }
  }

  /** An escaped text ends with a backslash exactly when the original does. */
  lemma {:induction false} EscapeLast(s: string)
    ensures s != [] ==> Escape(s) != [] && (Escape(s)[|Escape(s)| - 1] == '\\' <==> s[|s| - 1] == '\\')
  {
    if s != [] {
      EscapeLast(s[1..]);
      var head: string := if s[0] == ',' then "\\," else [s[0]];
      assert Escape(s) == head + Escape(s[1..]);
      if |s| > 1 {
        assert s[1..][|s[1..]| - 1] == s[|s| - 1];
      }
    }
  }

  // ---------------------------------------------------------------------------------------
  // line.split("(?<!\\\\),")

  /** Position `j` of `s` is a comma not preceded by a backslash. */
  predicate IsSeparator(s: string, j: int)
    requires 0 <= j < |s|
  {
    s[j] == ',' && (j == 0 || s[j - 1] != '\\')
  }

  /** The first separator at or after `i`, or `|s|` when there is none. */
  function SeparatorFrom(s: string, i: nat): (j: nat)
    requires i <= |s|
    ensures i <= j <= |s|
    ensures j < |s| ==> IsSeparator(s, j)
    ensures forall p :: i <= p < j ==> !IsSeparator(s, p)
    decreases |s| - i
  {
    if i == |s| then i else if IsSeparator(s, i) then i else SeparatorFrom(s, i + 1)
  }

  /** The fields of `s` from position `i`: the texts between consecutive separators. */
  function FieldsFrom(s: string, i: nat): (fields: seq<string>)
    requires i <= |s|
    ensures |fields| >= 1
    decreases |s| - i
  {
    var j := SeparatorFrom(s, i);
    if j == |s| then [s[i..]] else [s[i..j]] + FieldsFrom(s, j + 1)
  }

  /** Java's `split` without a limit drops the empty fields at the end. */
  function DropTrailingEmpty(fields: seq<string>): (r: seq<string>)
    ensures |r| <= |fields| && r == fields[..|r|]
    ensures r != [] ==> r[|r| - 1] != ""
    ensures forall i :: |r| <= i < |fields| ==> fields[i] == ""
  {
    if fields != [] && fields[|fields| - 1] == "" then DropTrailingEmpty(fields[..|fields| - 1]) else fields
  }

  /** `line.split("(?<!\\\\),")`: the input itself when there is no separator, otherwise its
      fields without the empty ones at the end (so a line of separators alone splits into
      nothing). */
  function SplitUnescaped(line: string): seq<string>
  {
    var fields := FieldsFrom(line, 0);
    if |fields| == 1 then fields else DropTrailingEmpty(fields)
  }

  // ---------------------------------------------------------------------------------------
  // Records

  /** A recovered record: `LogEntry` with operation PUT or DELETE. */
  datatype LogEntry = Put(key: string, value: string) | Delete(key: string)

  /** The line `appendPut(key, value)` writes. */
  function PutLine(key: string, value: string): string
  {
    "PUT," + Escape(key) + "," + Escape(value)
  }

  /** The line `appendDelete(key)` writes. */
  function DeleteLine(key: string): string
  {
    "DELETE," + Escape(key)
  }

  /** The record `recover` makes of one line: at least two fields are needed; PUT takes
      exactly three, DELETE takes any number; anything else is skipped. */
  function ParseRecord(line: string): Option<LogEntry>
  {
    var parts := SplitUnescaped(line);
    if |parts| >= 2 then
      if parts[0] == "PUT" && |parts| == 3 then Some(Put(Unescape(parts[1]), Unescape(parts[2])))
      else if parts[0] == "DELETE" then Some(Delete(Unescape(parts[1])))
      else None
    else None
  }

  /** `j` is the first separator at or after `i` (or `|s|` when none follows). */
  lemma SeparatorAt(s: string, i: nat, j: nat)
    requires i <= j <= |s|
    requires forall p :: i <= p < j ==> !IsSeparator(s, p)
    requires j < |s| ==> IsSeparator(s, j)
    ensures SeparatorFrom(s, i) == j
  {
  }

  /** The field starting at `i` ends at the separator `j`. */
  lemma FieldThenMore(s: string, i: nat, j: nat)
    requires i <= j < |s| && IsSeparator(s, j)
    requires forall p :: i <= p < j ==> !IsSeparator(s, p)
    ensures FieldsFrom(s, i) == [s[i..j]] + FieldsFrom(s, j + 1)
  {
    SeparatorAt(s, i, j);
  }

  /** The field starting at `i` is the last one. */
  lemma LastField(s: string, i: nat)
    requires i <= |s|
    requires forall p :: i <= p < |s| ==> !IsSeparator(s, p)
    ensures FieldsFrom(s, i) == [s[i..]]
  {
    SeparatorAt(s, i, |s|);
  }

  /** No separator lies in `s[i..j]` when that slice is an escaped text after a comma. */
  lemma EscapedHasNoSeparator(s: string, i: nat, j: nat, text: string)
    requires 0 < i <= j <= |s| && s[i..j] == Escape(text) && s[i - 1] == ','
    ensures forall p :: i <= p < j ==> !IsSeparator(s, p)
  {
    EscapeCommas(text);
    EscapeHead(text);
    forall p | i <= p < j && s[p] == ',' ensures !IsSeparator(s, p) {
      assert s[p] == Escape(text)[p - i];
      assert p - i > 0;
      assert s[p - 1] == Escape(text)[p - i - 1];
    }
  }

  /** A line that starts with an operation name free of commas and backslashes, then a comma:
      the name is its first field. */
  lemma OpField(s: string, op: string)
    requires |op| < |s| && s[..|op|] == op && s[|op|] == ','
    requires ',' !in op && '\\' !in op
    ensures FieldsFrom(s, 0) == [op] + FieldsFrom(s, |op| + 1)
  {
    assert forall p :: 0 <= p < |op| ==> s[p] == op[p];
    FieldThenMore(s, 0, |op|);
  }

  /** The key field of a PUT line ends at the comma after it when the key does not end with a
      backslash. */
  lemma PutKeyField(s: string, key: string, a: nat)
    requires key == [] || key[|key| - 1] != '\\'
    requires 4 <= a < |s| && s[4..a] == Escape(key) && s[3] == ',' && s[a] == ','
    ensures FieldsFrom(s, 4) == [Escape(key)] + FieldsFrom(s, a + 1)
  {
    var ek := Escape(key);
    EscapedHasNoSeparator(s, 4, a, key);
    EscapeLast(key);
    EscapeHead(key);
    if ek != [] {
      assert s[a - 1] == ek[|ek| - 1];
    }
    FieldThenMore(s, 4, a);
  }

  /** The value field of a PUT line is its last field. */
  lemma PutValueField(s: string, value: string, a: nat)
    requires a < |s| && s[a + 1..] == Escape(value) && s[a] == ','
    ensures FieldsFrom(s, a + 1) == [Escape(value)]
  {
    EscapedHasNoSeparator(s, a + 1, |s|, value);
    LastField(s, a + 1);
  }

  /** Where the parts of a PUT line lie. */
  lemma PutLineLayout(key: string, value: string)
    ensures var s, a := PutLine(key, value), 4 + |Escape(key)|;
      a < |s| && s[..3] == "PUT" && s[3] == ',' && s[4..a] == Escape(key) && s[a] == ',' && s[a + 1..] == Escape(value)
  {
  }

  /** The fields of a PUT line whose key does not end with a backslash (the comma after such
      a key would not be a separator). */
  lemma PutLineFieldsFrom(key: string, value: string)
    requires key == [] || key[|key| - 1] != '\\'
    ensures FieldsFrom(PutLine(key, value), 0) == ["PUT", Escape(key), Escape(value)]
  {
    var s := PutLine(key, value);
    var a := 4 + |Escape(key)|;
    PutLineLayout(key, value);
    OpField(s, "PUT");
    PutKeyField(s, key, a);
    PutValueField(s, value, a);
  }

  /** A PUT line splits into its three fields when the key does not end with a backslash and
      the value is not empty (Java would drop the empty last field). */
  lemma PutLineFields(key: string, value: string)
    requires key == [] || key[|key| - 1] != '\\'
    requires value != []
    ensures SplitUnescaped(PutLine(key, value)) == ["PUT", Escape(key), Escape(value)]
  {
    PutLineFieldsFrom(key, value);
    EscapeHead(value);
    var fields := FieldsFrom(PutLine(key, value), 0);
    assert fields[2] != "";
  }

  /** A DELETE line splits into its two fields when the key is not empty. */
  lemma DeleteLineFields(key: string)
    requires key != []
    ensures SplitUnescaped(DeleteLine(key)) == ["DELETE", Escape(key)]
  {
    var s := DeleteLine(key);
    var ek := Escape(key);
    assert s[..6] == "DELETE" && s[6] == ',' && s[7..|s|] == ek;
    OpField(s, "DELETE");
    EscapedHasNoSeparator(s, 7, |s|, key);
    LastField(s, 7);
    assert FieldsFrom(s, 0) == ["DELETE", ek];
    EscapeHead(key);
  }

  /** Recovery reads back what `appendPut` wrote, provided the key does not end with a
      backslash and the value is not empty; the key and the value may hold commas. */
  lemma PutRoundTrip(key: string, value: string)
    requires key == [] || key[|key| - 1] != '\\'
    requires value != []
    ensures ParseRecord(PutLine(key, value)) == Some(Put(key, value))
  {
    PutLineFields(key, value);
    UnescapeEscape(key);
    UnescapeEscape(value);
  }

  /** Recovery reads back what `appendDelete` wrote, provided the key is not empty. */
  lemma DeleteRoundTrip(key: string)
    requires key != []
    ensures ParseRecord(DeleteLine(key)) == Some(Delete(key))
  {
    DeleteLineFields(key);
    UnescapeEscape(key);
  }

  /** A PUT whose value is empty is lost on recovery: the empty last field is dropped. */
  lemma EmptyValueLost()
    ensures ParseRecord(PutLine("k", "")) == None
  {
    var s := PutLine("k", "");
    assert s == "PUT,k,";
    OpField(s, "PUT");
    FieldThenMore(s, 4, 5);
    LastField(s, 6);
    assert s[4..5] == "k" && s[6..] == "";
    assert FieldsFrom(s, 0) == ["PUT", "k", ""];
  }

  /** A PUT whose key ends with a backslash is lost on recovery: the comma after the key reads
      as escaped, so the line has two fields. */
  lemma BackslashKeyLost()
    ensures ParseRecord(PutLine("a\\", "b")) == None
  {
    var s := PutLine("a\\", "b");
    assert s == "PUT,a\\,b";
    forall p | 4 <= p < |s| ensures !IsSeparator(s, p) {
      if p == 6 {
        assert s[5] == '\\';
      } else {
        assert s[p] != ',';
      }
    }
    OpField(s, "PUT");
    LastField(s, 4);
    var fields := FieldsFrom(s, 0);
    assert fields == ["PUT", s[4..]];
    assert s[4..] == "a\\,b";
    assert SplitUnescaped(s) == fields;
  }

  /** A DELETE of the empty key is lost on recovery. */
  lemma EmptyDeleteLost()
    ensures ParseRecord(DeleteLine("")) == None
  {
    var s := DeleteLine("");
    assert s == "DELETE,";
    OpField(s, "DELETE");
    LastField(s, 7);
    assert FieldsFrom(s, 0) == ["DELETE", ""];
  }

  // ---------------------------------------------------------------------------------------
  // recover

  /** The records one line contributes: its record, or none when it is skipped. */
  function RecordsOf(line: string): seq<LogEntry>
  {
    match ParseRecord(line)
    case Some(e) => [e]
    case None => []
  }

  /** What `recover` returns for a file: the records of its lines, in file order. */
  function RecoverAll(lines: seq<string>): seq<LogEntry>
  {
    if lines == [] then [] else RecoverAll(lines[..|lines| - 1]) + RecordsOf(lines[|lines| - 1])
  }

  /** Recovery of a file is recovery of any split of it, concatenated. */
  lemma {:induction false} RecoverConcat(a: seq<string>, b: seq<string>)
    ensures RecoverAll(a + b) == RecoverAll(a) + RecoverAll(b)
    decreases |b|
  {
    if b == [] {
      assert a + b == a;
    } else {
      var init := b[..|b| - 1];
      assert (a + b)[..|a + b| - 1] == a + init;
      assert (a + b)[|a + b| - 1] == b[|b| - 1];
      RecoverConcat(a, init);
    }
  }

  /** Recovery of a file with one more line. */
  lemma RecoverSnoc(lines: seq<string>, line: string)
    ensures RecoverAll(lines + [line]) == RecoverAll(lines) + RecordsOf(line)
  {
    assert (lines + [line])[..|lines|] == lines;
  }

  /** Recovery of one more line of a file. */
  lemma RecoverPrefix(lines: seq<string>, i: nat)
    requires i < |lines|
    ensures RecoverAll(lines[..i + 1]) == RecoverAll(lines[..i]) + RecordsOf(lines[i])
  {
    assert lines[..i + 1] == lines[..i] + [lines[i]];
    RecoverSnoc(lines[..i], lines[i]);
  }

  /** The line an append writes for a record. */
  function Encode(e: LogEntry): string
  {
    match e
    case Put(k, v) => PutLine(k, v)
    case Delete(k) => DeleteLine(k)
  }

  /** The records that survive their own round trip: a PUT whose key does not end with a
      backslash and whose value is not empty, a DELETE whose key is not empty. */
  predicate Recoverable(e: LogEntry)
  {
    match e
    case Put(k, v) => (k == [] || k[|k| - 1] != '\\') && v != []
    case Delete(k) => k != []
  }

  /** The lines the appends of `es` write, in order. */
  function EncodeAll(es: seq<LogEntry>): (lines: seq<string>)
    ensures |lines| == |es|
    ensures forall i :: 0 <= i < |es| ==> lines[i] == Encode(es[i])
  {
    if es == [] then [] else EncodeAll(es[..|es| - 1]) + [Encode(es[|es| - 1])]
  }

  /** A recoverable record reads back from the line its append writes. */
  lemma RecordOfEncode(e: LogEntry)
    requires Recoverable(e)
    ensures RecordsOf(Encode(e)) == [e]
  {
    match e
    case Put(k, v) => PutRoundTrip(k, v);
    case Delete(k) => DeleteRoundTrip(k);
  }

  /** Appending a recoverable record to a file adds that record to what the file recovers. */
  lemma AppendOne(lines: seq<string>, e: LogEntry)
    requires Recoverable(e)
    ensures RecoverAll(lines + [Encode(e)]) == RecoverAll(lines) + [e]
  {
    RecordOfEncode(e);
    RecoverSnoc(lines, Encode(e));
  }

  /** Recovering a file of appended recoverable records gives back those records. */
  lemma {:induction false} RecoverAppended(es: seq<LogEntry>)
    requires forall i :: 0 <= i < |es| ==> Recoverable(es[i])
    ensures RecoverAll(EncodeAll(es)) == es
  {
    if es != [] {
      var init, last := es[..|es| - 1], es[|es| - 1];
      assert es == init + [last];
      assert EncodeAll(es) == EncodeAll(init) + [Encode(last)];
      RecoverAppended(init);
      AppendOne(EncodeAll(init), last);
    }
  }

  // ---------------------------------------------------------------------------------------
  // File names and timestamps

  const TWO_63: int := 0x8000_0000_0000_0000

  predicate AllDigits(s: string)
  {
    forall i :: 0 <= i < |s| ==> '0' <= s[i] <= '9'
  }

  /** The number an ASCII decimal numeral denotes. */
  function NumeralValue(s: string): nat
    requires AllDigits(s)
  {
    if s == [] then 0 else NumeralValue(s[..|s| - 1]) * 10 + (s[|s| - 1] as int - '0' as int)
  }

  /** The decimal numeral of `n`, as string concatenation of a long writes it. */
  function Numeral(n: nat): (s: string)
    ensures s != [] && AllDigits(s) && NumeralValue(s) == n
  {
    var last := ('0' as int + n % 10) as char;
    if n < 10 then [last]
    else
      var s := Numeral(n / 10) + [last];
      assert s[..|s| - 1] == Numeral(n / 10);
      s
  }

  /** `Long.parseLong(s)` on ASCII text: an optional sign, then at least one digit, with a value
      a long can hold; None where Java throws NumberFormatException. */
  function ParseLong(s: string): (r: Option<int>)
    ensures r.Some? ==> -TWO_63 <= r.value < TWO_63
  {
    if s == [] then None
    else
      var digits := if s[0] == '-' || s[0] == '+' then s[1..] else s;
      if digits == [] || !AllDigits(digits) then None
      else
        var v: int := if s[0] == '-' then -(NumeralValue(digits) as int) else NumeralValue(digits);
        if -TWO_63 <= v < TWO_63 then Some(v) else None
  }

  /** `extractTimestamp`: the text between the first underscore and the last dot, parsed as a
      long; 0 when that text is missing or does not parse. */
  function ExtractTimestamp(name: string): int
  {
    var start := IndexOf(name, '_') + 1;
    var end := LastIndexOf(name, '.');
    if start <= end then
      match ParseLong(name[start..end])
      case Some(v) => v
      case None => 0
    else 0
  }

  /** The name of the file created at time `n`. */
  function WalName(n: nat): string
  {
    "wal_" + Numeral(n) + ".log"
  }

  /** The timestamp read back from a file name is the time it was created at. */
  lemma TimestampOfWalName(n: nat)
    requires n < TWO_63
    ensures ExtractTimestamp(WalName(n)) == n
  {
    var name := WalName(n);
    var d := Numeral(n);
    var e := 4 + |d|;
    assert name[..4] == "wal_" && name[4..e] == d && name[e..] == ".log";
    assert forall p :: 4 <= p < e ==> name[p] == d[p - 4];
    var i := IndexOf(name, '_');
    assert name[3] == '_';
    assert i == 3;
    var j := LastIndexOf(name, '.');
    assert name[e] == '.';
    assert j == e;
    assert name[i + 1..j] == d;
  }

  /** Different times give different names. */
  lemma WalNameInjective(m: nat, n: nat)
    requires WalName(m) == WalName(n)
    ensures m == n
  {
    var a, b := WalName(m), WalName(n);
    assert a[4..|a| - 4] == Numeral(m);
    assert b[4..|b| - 4] == Numeral(n);
  }

  // ---------------------------------------------------------------------------------------
  // getLatestWalFile

  /** Position `i` holds the largest value of `ts`, and no earlier position does: the first
      position after a stable sort in descending order. */
  predicate IsLatest(ts: seq<int>, i: int)
  {
    && 0 <= i < |ts|
    && (forall j :: 0 <= j < |ts| ==> ts[j] <= ts[i])
    && (forall j :: 0 <= j < |ts| && ts[j] == ts[i] ==> i <= j)
  }

  /** The first position of the largest value. */
  function LatestIndex(ts: seq<int>): (i: nat)
    requires ts != []
    ensures IsLatest(ts, i)
  {
    if |ts| == 1 then 0
    else
      var i := LatestIndex(ts[..|ts| - 1]);
      if ts[|ts| - 1] > ts[i] then |ts| - 1 else i
  }

  /** Only one position is the latest: the choice is the first file with the largest
      timestamp, whatever the sort does with the others. */
  lemma LatestUnique(ts: seq<int>, i: int, j: int)
    requires IsLatest(ts, i) && IsLatest(ts, j)
    ensures i == j
  {
    assert ts[i] == ts[j];
  }

  /** The timestamps of a listing, in listing order. */
  function Timestamps(listing: seq<string>): seq<int>
  {
    seq(|listing|, j requires 0 <= j < |listing| => ExtractTimestamp(listing[j]))
  }

  /** `getLatestWalFile`: null for an empty listing, otherwise the first file with the largest
      timestamp. */
  function GetLatestWalFile(listing: seq<string>): (latest: Option<string>)
    ensures latest == None <==> listing == []
    ensures latest.Some? ==> exists i :: IsLatest(Timestamps(listing), i) && listing[i] == latest.value
  {
    if listing == [] then None else Some(listing[LatestIndex(Timestamps(listing))])
  }

  // ---------------------------------------------------------------------------------------
  // The log object

  class WriteAheadLog {
    /** The `wal_*.log` files of the log's directory, by name. */
    var files: map<string, seq<string>>
    /** The name of the active file. */
    var logFile: string
    /** The time the next new file is named after; it stands for the clock. */
    var clock: nat

    /** The active file exists, and no file is named after the present or a later time. */
    ghost predicate Valid()
      reads this
    {
      logFile in files && forall n: nat :: n >= clock ==> WalName(n) !in files
    }

    /** What `recover` returns now. */
    ghost function Recovered(): seq<LogEntry>
      reads this
      requires Valid()
    {
      RecoverAll(files[logFile])
    }

    /** The log over a directory holding the files `existing`, listed in the order `listing`:
        the latest of them becomes the active file, or a new empty file when there is none. */
    constructor (existing: map<string, seq<string>>, listing: seq<string>, clock0: nat)
      requires forall i :: 0 <= i < |listing| ==> listing[i] in existing
      requires forall name :: name in existing ==> name in listing
      requires forall n: nat :: n >= clock0 ==> WalName(n) !in existing
      ensures Valid()
      ensures listing != [] ==> logFile == listing[LatestIndex(Timestamps(listing))] && files == existing && clock == clock0
      ensures listing == [] ==> logFile == WalName(clock0) && files == map[WalName(clock0) := []] && clock == clock0 + 1
    {
      var latest := GetLatestWalFile(listing);
      if latest.Some? {
        logFile := latest.value;
        files := existing;
        clock := clock0;
      } else {
        var name := WalName(clock0);
        forall n: nat | n >= clock0 + 1 ensures WalName(n) != name {
          if WalName(n) == name {
            WalNameInjective(n, clock0);
          }
        }
        assert existing == map[];
        logFile := name;
        files := existing[name := []];
        clock := clock0 + 1;
      }
    }

    /** `appendPut`: one line at the end of the active file; nothing else changes. */
    method AppendPut(key: string, value: string)
      modifies this
      requires Valid()
      ensures Valid()
      ensures files == old(files)[logFile := old(files[logFile]) + [PutLine(key, value)]]
      ensures logFile == old(logFile) && clock == old(clock)
      ensures Recoverable(Put(key, value)) ==> Recovered() == old(Recovered()) + [Put(key, value)]
    {
      files := files[logFile := files[logFile] + [PutLine(key, value)]];
      if Recoverable(Put(key, value)) {
        PutRoundTrip(key, value);
      }
    }

    /** `appendDelete`: one line at the end of the active file; nothing else changes. */
    method AppendDelete(key: string)
      modifies this
      requires Valid()
      ensures Valid()
      ensures files == old(files)[logFile := old(files[logFile]) + [DeleteLine(key)]]
      ensures logFile == old(logFile) && clock == old(clock)
      ensures Recoverable(Delete(key)) ==> Recovered() == old(Recovered()) + [Delete(key)]
    {
      files := files[logFile := files[logFile] + [DeleteLine(key)]];
      if Recoverable(Delete(key)) {
        DeleteRoundTrip(key);
      }
    }

    /** `recover`: the records of the active file's lines, in file order. */
    method Recover() returns (entries: seq<LogEntry>)
      requires Valid()
      ensures entries == Recovered()
    {
      var lines := files[logFile];
      entries := [];
      for i := 0 to |lines|
        invariant entries == RecoverAll(lines[..i])
      {
        RecoverPrefix(lines, i);
        ghost var before := entries;
        var parts := SplitUnescaped(lines[i]);
        if |parts| >= 2 {
          var op := parts[0];
          var key := Unescape(parts[1]);
          if op == "PUT" && |parts| == 3 {
            entries := entries + [Put(key, Unescape(parts[2]))];
          } else if op == "DELETE" {
            entries := entries + [Delete(key)];
          }
        }
        assert entries == before + RecordsOf(lines[i]);
      }
      assert lines[..|lines|] == lines;
    }

    /** `rotate`: a new, empty file named after the current time becomes the active file; the
        old files stay as they are. */
    method Rotate()
      modifies this
      requires Valid()
      ensures Valid()
      ensures logFile == WalName(old(clock)) && clock == old(clock) + 1
      ensures files == old(files)[logFile := []]
      ensures Recovered() == []
    {
      logFile := WalName(clock);
      files := files[logFile := []];
      clock := clock + 1;
      forall n: nat | n >= clock ensures WalName(n) !in files {
        if WalName(n) == logFile {
          WalNameInjective(n, clock - 1);
        }
      }
    }
  }
}
