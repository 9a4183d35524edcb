/** The Bloom filter: k probe positions per element from double hashing of a 32-bit hash code,
    set by `add` and all tested by `contains`. */
module Bloom {

  const TWO_31: int := 0x8000_0000
  const TWO_32: int := 0x1_0000_0000

  /** A Java `int`. */
  type Int32 = x: int | -TWO_31 <= x < TWO_31

  /** Java `int` arithmetic: the low 32 bits of `x`, read as two's complement. */
  function Wrap(x: int): (r: Int32)
    ensures -TWO_31 <= x < TWO_31 ==> r == x
    ensures (x - r) % TWO_32 == 0
  {
    x - TWO_32 * ((x + TWO_31) / TWO_32)
  }

  /** Wrapping an intermediate result does not change the wrapped sum, so `a + b` computed in
      `int` equals the mathematical sum taken modulo 2^32. */
  lemma WrapAdd(a: int, b: int)
    ensures Wrap(a + Wrap(b)) == Wrap(a + b)
  {
    var q := (b + TWO_31) / TWO_32;
    assert Wrap(b) == b - TWO_32 * q;
    assert (a + b - TWO_32 * q + TWO_31) / TWO_32 == (a + b + TWO_31) / TWO_32 - q;
  }

  /** `h >>> 16`: the high 16 bits of the unsigned reading of `h`. */
  function UnsignedShift16(h: Int32): (r: int)
    ensures 0 <= r < 0x1_0000
    ensures var u := if h < 0 then h + TWO_32 else h; r * 0x1_0000 <= u < (r + 1) * 0x1_0000
  {
    (if h < 0 then h + TWO_32 else h) / 0x1_0000
  }

  /** Probe i of an element whose hash code is `hash1`: `hash1 + i * (hash1 >>> 16)` taken
      modulo 2^32, as Java's wrapping `int` arithmetic computes it. */
  function HashAt(hash1: Int32, i: int): Int32
  {
    Wrap(hash1 + i * UnsignedShift16(hash1))
  }

  /** Java's `a % b` for `b > 0`: truncating, so the result takes the sign of `a`. */
  function JavaRem(a: int, b: int): (r: int)
    requires b > 0
    ensures -b < r < b
    ensures a >= 0 ==> r >= 0
    ensures a < 0 ==> r <= 0
    ensures (a - r) % b == 0
  {
    if a >= 0 then RemNonNegative(a, b); a % b
    else RemNegative(a, b); -((-a) % b)
  }

  lemma RemNonNegative(a: int, b: int)
    requires a >= 0 && b > 0
    ensures (a - a % b) % b == 0
  {
    assert a - a % b == b * (a / b);
    MultipleMod(b, a / b);
  }

  lemma RemNegative(a: int, b: int)
    requires a < 0 && b > 0
    ensures (a + (-a) % b) % b == 0
  {
    var n := -a;
    assert a + n % b == b * -(n / b);
    MultipleMod(b, -(n / b));
  }

  /** A multiple of `b` leaves no remainder. */
  lemma MultipleMod(b: int, q: int)
    requires b > 0
    ensures (b * q) % b == 0
  {
    var x := b * q;
    var d, r := x / b, x % b;
    assert x == b * d + r;
    assert r == b * (q - d);
    MultipleBounds(b, q - d);
  }

  /** A non-zero multiple of `b` is at least `b` away from zero. */
  lemma MultipleBounds(b: int, t: int)
    requires b > 0
    ensures t >= 1 ==> b * t >= b
    ensures t <= -1 ==> b * t <= -b
  {
    if t >= 1 {
      assert b * t == b + b * (t - 1);
    } else if t <= -1 {
      assert b * t == -b + b * (t + 1);
    }
  }

  function Abs(x: int): nat
  {
    if x < 0 then -x else x
  }

  /** `Math.abs(hash % bitsetSize)`: a position inside the bit array, and the same as the
      remainder of `|hash|`. */
  function Position(hash: Int32, m: int): (p: int)
    requires m > 0
    ensures 0 <= p < m
    ensures p == Abs(hash) % m
  {
    var r := JavaRem(hash, m);
    if r < 0 then -r else r
  }

  /** The positions probed for an element with hash code `hash1`. */
  function Probes(hash1: Int32, k: nat, m: int): (ps: seq<int>)
    requires m > 0
    ensures |ps| == k
    ensures forall i :: 0 <= i < k ==> 0 <= ps[i] < m
  {
    seq(k, i requires 0 <= i < k => Position(HashAt(hash1, i), m))
  }

  predicate InRange(bits: seq<bool>, ps: seq<int>)
  {
    forall i :: 0 <= i < |ps| ==> 0 <= ps[i] < |bits|
  }

  lemma InRangePrefix(bits: seq<bool>, ps: seq<int>, n: int)
    requires InRange(bits, ps) && 0 <= n <= |ps|
    ensures InRange(bits, ps[..n])
  {
  }

  /** The bit array after `bitset.set(p)` for each p of `ps` in turn. */
  function SetBits(bits: seq<bool>, ps: seq<int>): (r: seq<bool>)
    requires InRange(bits, ps)
    ensures |r| == |bits|
  {
    if ps == [] then bits
    else SetBits(bits, ps[..|ps| - 1])[ps[|ps| - 1] := true]
  }

  /** Every probed bit is set. */
  predicate AllSet(bits: seq<bool>, ps: seq<int>)
  {
    forall i :: 0 <= i < |ps| ==> 0 <= ps[i] < |bits| && bits[ps[i]]
  }

  /** After setting the bits `ps`, a bit is set exactly when it was set before or is one of
      `ps`: `add` only ever turns bits on, and turns on all of its own. */
  lemma {:induction false} SetBitsAt(bits: seq<bool>, ps: seq<int>, p: int)
    requires InRange(bits, ps) && 0 <= p < |bits|
    ensures |SetBits(bits, ps)| == |bits|
    ensures SetBits(bits, ps)[p] == (bits[p] || p in ps)
  {
    if ps != [] {
      var init := ps[..|ps| - 1];
      SetBitsAt(bits, init, p);
      assert ps == init + [ps[|ps| - 1]];
    }
  }

  /** No false negatives: once an element's bits are set, all of them test as set. */
  lemma NoFalseNegatives(bits: seq<bool>, ps: seq<int>)
    requires InRange(bits, ps)
    ensures AllSet(SetBits(bits, ps), ps)
  {
    forall i | 0 <= i < |ps| ensures 0 <= ps[i] < |bits| && SetBits(bits, ps)[ps[i]] {
      SetBitsAt(bits, ps, ps[i]);
    }
  }

  /** Adding one element keeps every element that was already contained contained. */
  lemma AddKeepsMembers(bits: seq<bool>, ps: seq<int>, qs: seq<int>)
    requires InRange(bits, ps) && AllSet(bits, qs)
    ensures AllSet(SetBits(bits, ps), qs)
  {
    forall i | 0 <= i < |qs| ensures 0 <= qs[i] < |bits| && SetBits(bits, ps)[qs[i]] {
      SetBitsAt(bits, ps, qs[i]);
    }
  }

  /** Adding the same element twice leaves the bits of adding it once. */
  lemma AddIdempotent(bits: seq<bool>, ps: seq<int>)
    requires InRange(bits, ps)
    ensures SetBits(SetBits(bits, ps), ps) == SetBits(bits, ps)
  {
    var once := SetBits(bits, ps);
    var twice := SetBits(once, ps);
    forall p | 0 <= p < |bits| ensures twice[p] == once[p] {
      SetBitsAt(bits, ps, p);
      SetBitsAt(once, ps, p);
    }
  }

  /** A Bloom filter over elements of type T whose hash code is `hashCode`. */
  class BloomFilter<T> {
    const bitset: array<bool>
    const bitsetSize: Int32
    const numHashFunctions: Int32
    /** `element.hashCode()`, a function the model does not look into. */
    const hashCode: T -> Int32

    ghost predicate Valid()
      reads this
    {
      0 < bitsetSize && 0 <= numHashFunctions && bitset.Length == bitsetSize
    }

    /** The positions `add` and `contains` probe for `element`. */
    function ProbesOf(element: T): (ps: seq<int>)
      reads this
      requires Valid()
      ensures InRange(bitset[..], ps)
    {
      Probes(hashCode(element), numHashFunctions, bitsetSize)
    }

    /** A filter of `m` clear bits probed `k` times per element; `m` and `k` are what the
        sizing formulas of the Java constructor would compute. */
    constructor (m: Int32, k: Int32, hashCode: T -> Int32)
      requires m > 0 && k >= 0
      ensures Valid() && fresh(bitset)
      ensures bitsetSize == m && numHashFunctions == k && this.hashCode == hashCode
      ensures forall p :: 0 <= p < m ==> !bitset[p]
    {
      bitsetSize, numHashFunctions, this.hashCode := m, k, hashCode;
      bitset := new bool[m](_ => false);
    }

    /** `createHashes`: value i is `hash1 + i * hash2` in wrapping `int` arithmetic. */
    method CreateHashes(element: T) returns (result: array<Int32>)
      requires Valid()
      ensures fresh(result) && result.Length == numHashFunctions
      ensures forall i :: 0 <= i < result.Length ==> result[i] == HashAt(hashCode(element), i)
    {
      result := new Int32[numHashFunctions];
      var hash1 := hashCode(element);
      var hash2 := UnsignedShift16(hash1);
      for i := 0 to numHashFunctions
        invariant forall j :: 0 <= j < i ==> result[j] == HashAt(hash1, j)
      {
        WrapAdd(hash1, i * hash2);
        result[i] := Wrap(hash1 + Wrap(i * hash2));
      }
    }

    /** `add`: sets the probed bits of `element` and no others, after which `element` is
        contained. */
    method Add(element: T)
      requires Valid()
      modifies bitset
      ensures bitset[..] == SetBits(old(bitset[..]), ProbesOf(element))
      ensures AllSet(bitset[..], ProbesOf(element))
    {
      var hashes := CreateHashes(element);
      ghost var ps := ProbesOf(element);
      ghost var before := bitset[..];
      ghost var hash1 := hashCode(element);
      for i := 0 to hashes.Length
        invariant forall j :: 0 <= j < hashes.Length ==> hashes[j] == HashAt(hash1, j)
        invariant InRange(before, ps[..i])
        invariant bitset[..] == SetBits(before, ps[..i])
      {
        var pos := Position(hashes[i], bitsetSize);
        assert pos == ps[i];
        InRangePrefix(before, ps, i + 1);
        assert ps[..i + 1][..i] == ps[..i];
        assert SetBits(before, ps[..i + 1]) == SetBits(before, ps[..i])[pos := true];
        bitset[pos] := true;
      }
      assert ps[..hashes.Length] == ps;
      NoFalseNegatives(before, ps);
    }

    /** `contains`: true exactly when every probed bit of `element` is set; reads the bits and
        changes nothing. */
    method Contains(element: T) returns (found: bool)
      requires Valid()
      ensures found == AllSet(bitset[..], ProbesOf(element))
    {
      var hashes := CreateHashes(element);
      ghost var ps := ProbesOf(element);
      for i := 0 to hashes.Length
        invariant AllSet(bitset[..], ps[..i])
      {
        var pos := Position(hashes[i], bitsetSize);
        assert pos == ps[i];
        if !bitset[pos] {
          assert !bitset[..][ps[i]];
          return false;
        }
      }
      assert ps[..hashes.Length] == ps;
      return true;
    }
  }
}
