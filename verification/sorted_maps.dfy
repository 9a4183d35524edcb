/** Entries of a java.util.Map and the ascending iteration order of a TreeMap<String, String>. */
module SortedMaps {
  import opened Wrappers
  import opened JavaStrings

  /** One `Map.Entry<String, String>`. */
  datatype Entry = Entry(key: string, value: string)

  /** `m.get(k)`, with null as None. */
  function Get(m: map<string, string>, k: string): Option<string>
  {
    if k in m then Some(m[k]) else None
  }

  /** Keys strictly increase in `compareTo` order, as a TreeMap iterates them. */
  predicate StrictlyAscending(es: seq<Entry>)
  {
    forall i, j :: 0 <= i < j < |es| ==> CompareTo(es[i].key, es[j].key) < 0
  }

  /** `k` is the least element of `keys` in `compareTo` order. */
  predicate IsLeast(k: string, keys: set<string>)
  {
    k in keys && forall k' :: k' in keys ==> CompareTo(k, k') <= 0
  }

  /** Every non-empty set of strings has a least element. */
  lemma {:induction false} LeastExists(keys: set<string>)
    requires keys != {}
    ensures exists k :: IsLeast(k, keys)
    decreases keys
  {
    var x :| x in keys;
    CompareToZero(x, x);
    if keys == {x} {
      assert IsLeast(x, keys);
    } else {
      var rest := keys - {x};
      LeastExists(rest);
      var m :| IsLeast(m, rest);
      CompareToAntisymmetric(x, m);
      if CompareTo(x, m) <= 0 {
        forall k' | k' in rest ensures CompareTo(x, k') <= 0 {
          CompareToTransitive(x, m, k');
        }
        assert IsLeast(x, keys);
      } else {
        assert IsLeast(m, keys);
      }
    }
  }

  /** The first key a TreeMap over `keys` iterates. */
  function FirstKey(keys: set<string>): (k: string)
    requires keys != {}
    ensures k in keys
    ensures forall k' :: k' in keys && k' != k ==> CompareTo(k, k') < 0
  {
    LeastExists(keys);
    CompareToIsOrder();
    var k :| IsLeast(k, keys);
    k
  }

  /** `new TreeMap<>(m).entrySet()` in iteration order: every mapping of `m` exactly once
      (keys ascending, as `AscendingSorted` proves). */
  function Ascending(m: map<string, string>): (es: seq<Entry>)
    ensures |es| == |m|
    ensures forall i :: 0 <= i < |es| ==> es[i].key in m && m[es[i].key] == es[i].value
    ensures forall k :: k in m ==> exists i :: 0 <= i < |es| && es[i].key == k
    decreases |m|
  {
    if |m| == 0 then []
    else
      var k := FirstKey(m.Keys);
      var rest := m - {k};
      var tail := Ascending(rest);
      PrependContents(m, k, tail);
      [Entry(k, m[k])] + tail
  }

  /** A TreeMap iterates its keys in strictly ascending `compareTo` order. */
  lemma {:induction false} AscendingSorted(m: map<string, string>)
    ensures StrictlyAscending(Ascending(m))
    decreases |m|
  {
    if |m| != 0 {
      var k := FirstKey(m.Keys);
      var rest := m - {k};
      var tail := Ascending(rest);
      AscendingSorted(rest);
      forall i | 0 <= i < |tail| ensures CompareTo(k, tail[i].key) < 0 {
        assert tail[i].key in rest;
      }
      PrependSorted(k, m[k], tail);
    }
  }

  lemma PrependSorted(k: string, v: string, tail: seq<Entry>)
    requires StrictlyAscending(tail)
    requires forall i :: 0 <= i < |tail| ==> CompareTo(k, tail[i].key) < 0
    ensures StrictlyAscending([Entry(k, v)] + tail)
  {
    var es := [Entry(k, v)] + tail;
    forall i, j | 0 <= i < j < |es| ensures CompareTo(es[i].key, es[j].key) < 0 {
      if i > 0 { assert es[i] == tail[i - 1] && es[j] == tail[j - 1]; }
      else { assert es[j] == tail[j - 1]; }
    }
  }

  lemma PrependContents(m: map<string, string>, k: string, tail: seq<Entry>)
    requires k in m
    requires |tail| == |m - {k}|
    requires forall i :: 0 <= i < |tail| ==> tail[i].key in m - {k} && (m - {k})[tail[i].key] == tail[i].value
    requires forall k' :: k' in m - {k} ==> exists i :: 0 <= i < |tail| && tail[i].key == k'
    ensures var es := [Entry(k, m[k])] + tail;
      && |es| == |m|
      && (forall i :: 0 <= i < |es| ==> es[i].key in m && m[es[i].key] == es[i].value)
      && (forall k' :: k' in m ==> exists i :: 0 <= i < |es| && es[i].key == k')
  {
    var es := [Entry(k, m[k])] + tail;
    assert (m - {k}).Keys == m.Keys - {k};
    forall k' | k' in m ensures exists i :: 0 <= i < |es| && es[i].key == k' {
      if k' == k {
        assert es[0].key == k';
      } else {
        assert k' in m - {k};
        var i :| 0 <= i < |tail| && tail[i].key == k';
        assert es[i + 1].key == k';
      }
    }
  }

  /** Distinct positions of an ascending sequence hold distinct keys. */
  lemma AscendingKeysDistinct(es: seq<Entry>, i: int, j: int)
    requires StrictlyAscending(es)
    requires 0 <= i < |es| && 0 <= j < |es| && i != j
    ensures es[i].key != es[j].key
  {
    if i < j { CompareToZero(es[i].key, es[j].key); } else { CompareToZero(es[j].key, es[i].key); }
  }

  /** The entries of a map in iteration order have distinct keys. */
  lemma AscendingDistinct(m: map<string, string>)
    ensures forall i, j :: 0 <= i < j < |Ascending(m)| ==> Ascending(m)[i].key != Ascending(m)[j].key
  {
    var es := Ascending(m);
    AscendingSorted(m);
    forall i, j | 0 <= i < j < |es| ensures es[i].key != es[j].key {
      AscendingKeysDistinct(es, i, j);
    }
  }
}
