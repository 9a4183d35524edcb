/** The few java.lang.String operations the core relies on, over `string` (a sequence of chars). */
module JavaStrings {

  /** `a.compareTo(b)`: the difference of the first chars that differ, else of the lengths. */
  function CompareTo(a: string, b: string): int
  {
    if a == [] || b == [] then |a| - |b|
    else if a[0] != b[0] then a[0] as int - b[0] as int
    else CompareTo(a[1..], b[1..])
  }

  lemma {:induction false} CompareToZero(a: string, b: string)
    ensures CompareTo(a, b) == 0 <==> a == b
  {
    if a != [] && b != [] && a[0] == b[0] {
      CompareToZero(a[1..], b[1..]);
      assert a == [a[0]] + a[1..] && b == [b[0]] + b[1..];
    }
  }

  lemma {:induction false} CompareToAntisymmetric(a: string, b: string)
    ensures CompareTo(b, a) == -CompareTo(a, b)
  {
    if a != [] && b != [] && a[0] == b[0] {
      CompareToAntisymmetric(a[1..], b[1..]);
    }
  }

  lemma {:induction false} CompareToTransitive(a: string, b: string, c: string)
    requires CompareTo(a, b) <= 0 && CompareTo(b, c) <= 0
    ensures CompareTo(a, c) <= 0
  {
    if a != [] && b != [] && c != [] && a[0] == b[0] == c[0] {
      CompareToTransitive(a[1..], b[1..], c[1..]);
    }
  }

  /** The facts above, for every pair of strings at once. */
  lemma CompareToIsOrder()
    ensures forall a: string, b: string :: CompareTo(a, b) == 0 <==> a == b
    ensures forall a: string, b: string :: CompareTo(b, a) == -CompareTo(a, b)
  {
    forall a: string, b: string
      ensures CompareTo(a, b) == 0 <==> a == b
      ensures CompareTo(b, a) == -CompareTo(a, b)
    {
      CompareToZero(a, b);
      CompareToAntisymmetric(a, b);
    }
  }

  /** `key.compareTo(lo) >= 0 && key.compareTo(hi) <= 0`, the range test of the run manager. */
  predicate Between(key: string, lo: string, hi: string)
  {
    CompareTo(key, lo) >= 0 && CompareTo(key, hi) <= 0
  }

  /** No key lies between `lo` and `hi` when `lo` sorts after `hi`. */
  lemma EmptyRange(key: string, lo: string, hi: string)
    requires CompareTo(lo, hi) > 0
    ensures !Between(key, lo, hi)
  {
    if Between(key, lo, hi) {
      CompareToAntisymmetric(key, lo);
      CompareToTransitive(lo, key, hi);
    }
  }

  /** `s.indexOf(c)`: the first position of `c`, or -1. */
  function IndexOf(s: string, c: char): (i: int)
    ensures -1 <= i < |s|
    ensures i >= 0 ==> s[i] == c && c !in s[..i]
    ensures i < 0 ==> c !in s
  {
    if s == [] then -1
    else if s[0] == c then 0
    else
      var j := IndexOf(s[1..], c);
      assert s == [s[0]] + s[1..];
      if j < 0 then -1 else (assert s[..j + 1] == [s[0]] + s[1..][..j]; j + 1)
  }

  /** `s.lastIndexOf(c)`: the last position of `c`, or -1. */
  function LastIndexOf(s: string, c: char): (i: int)
    ensures -1 <= i < |s|
    ensures i >= 0 ==> s[i] == c && c !in s[i + 1..]
    ensures i < 0 ==> c !in s
  {
    if s == [] then -1
    else if s[|s| - 1] == c then |s| - 1
    else
      var j := LastIndexOf(s[..|s| - 1], c);
      assert s == s[..|s| - 1] + [s[|s| - 1]];
      if j >= 0 then assert s[j + 1..] == s[..|s| - 1][j + 1..] + [s[|s| - 1]]; j else j
  }

  /** `s.split(",", 2)`: the text before the first comma and, when there is a comma, the
      text after it (which may itself hold commas and may be empty). */
  function SplitFirst(s: string): (parts: seq<string>)
    ensures |parts| == 1 || |parts| == 2
    ensures ',' !in parts[0]
    ensures |parts| == 1 <==> ',' !in s
    ensures |parts| == 1 ==> parts[0] == s
    ensures |parts| == 2 ==> s == parts[0] + "," + parts[1]
  {
    var i := IndexOf(s, ',');
    if i < 0 then [s]
    else
      assert s == s[..i] + "," + s[i + 1..];
      [s[..i], s[i + 1..]]
  }

  /** Splitting `k + "," + v` gives back `k` and `v` when `k` has no comma. */
  lemma SplitFirstJoin(k: string, v: string)
    requires ',' !in k
    ensures SplitFirst(k + "," + v) == [k, v]
  {
    var s := k + "," + v;
    var parts := SplitFirst(s);
    assert s[..|k|] == k && s[|k|] == ',';
    assert parts[0] == k;
    assert parts[1] == s[|k| + 1..] == v;
  }
}
