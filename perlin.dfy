// The Perlin permutation table of lib_ops/gentexture/generators.cpp:4-41 and its lookups
// P and GShuffle (generators.cpp:8-11, 105-119). The static table Ptable is the array
// InitPerlin fills; the lookups take its contents as a parameter.
module Lfsr {
  // ---------------------------------------------------------------------
  // The LFSR (generators.cpp:26-32)

  /** One step of the Galois LFSR: shift left by one (dropping bit 31) and, when bit 31 was
      set, xor in the taps 0xc0000401. */
  function LfsrStep(seed: bv32): bv32 {
    (seed << 1) ^ (if seed & 0x8000_0000 != 0 then 0xc000_0401 else 0)
  }

  /** The step undone: the taps set bit 0, so bit 0 of the new seed tells whether they were
      applied and what the dropped bit 31 was. */
  function LfsrBack(next: bv32): bv32 {
    var top := next & 1 != 0;
    ((next ^ (if top then 0xc000_0401 else 0)) >> 1) | (if top then 0x8000_0000 else 0)
  }

  /** The LFSR loses no state: every step can be undone, so the step is a bijection on 32-bit
      seeds. */
  lemma LfsrRoundTrip(seed: bv32)
    ensures LfsrBack(LfsrStep(seed)) == seed
  {
    if seed & 0x8000_0000 != 0 {
      StepWithTaps(seed);
      BackWithTaps(LfsrStep(seed));
    } else {
      StepWithoutTaps(seed);
      BackWithoutTaps(LfsrStep(seed));
    }
  }

  lemma StepWithTaps(seed: bv32)
    requires seed & 0x8000_0000 != 0
    ensures LfsrStep(seed) & 1 == 1
    ensures ((LfsrStep(seed) ^ 0xc000_0401) >> 1) | 0x8000_0000 == seed
  {
  }

  lemma StepWithoutTaps(seed: bv32)
    requires seed & 0x8000_0000 == 0
    ensures LfsrStep(seed) & 1 == 0
    ensures LfsrStep(seed) >> 1 == seed
  {
  }

  lemma BackWithTaps(next: bv32)
    requires next & 1 == 1
    ensures LfsrBack(next) == ((next ^ 0xc000_0401) >> 1) | 0x8000_0000
  {
  }

  lemma BackWithoutTaps(next: bv32)
    requires next & 1 == 0
    ensures LfsrBack(next) == next >> 1
  {
  }
}

module Perlin {
  import opened Helpers
  import opened Lfsr

  const TableSize: int := 4096
  const Seed0: bv32 := 0x9363_8245

  /** The seed after k steps from seed. */
  function LfsrIter(seed: bv32, k: nat): bv32
    decreases k
  {
    if k == 0 then seed else LfsrStep(LfsrIter(seed, k - 1))
  }

  /** The 4096 sort keys InitPerlin records: entry k is the seed after k steps from 0x93638245,
      read as an unsigned 32-bit number. */
  function Keys(): (r: seq<U32>)
    ensures |r| == TableSize
    ensures forall k :: 0 <= k < TableSize ==> r[k] == LfsrIter(Seed0, k) as int
  {
    seq(TableSize, k requires 0 <= k < TableSize => LfsrIter(Seed0, k) as int)
  }

  /** The first loop of InitPerlin: records 4096 successive seeds. */
  method GenerateKeys(temp: array<U32>)
    requires temp.Length == TableSize
    modifies temp
    ensures temp[..] == Keys()
  {
    var seed := Seed0;
    var i := 0;
    while i < TableSize
      invariant 0 <= i <= TableSize
      invariant seed == LfsrIter(Seed0, i)
      invariant forall k :: 0 <= k < i ==> temp[k] == LfsrIter(Seed0, k) as int
    {
      temp[i] := seed as int;
      seed := LfsrStep(seed);
      i := i + 1;
    }
    assert temp[..] == Keys();
  }

  // ---------------------------------------------------------------------
  // The comparator (generators.cpp:14-20)

  /** InitPerlinCompare as written: the difference of two unsigned keys, wrapped to 32 bits and
      returned as a (two's complement) int. */
  function CompareAsWritten(k1: U32, k2: U32): (r: I32)
    ensures -TWO31 < k1 - k2 < TWO31 ==> r == k1 - k2
  {
    ToInt32(k1 - k2)
  }

  /** Keys 0 and 0x80000000 each compare below the other, so the comparator is no order and the
      sort qsort performs with it is not determined. */
  lemma CompareAsWrittenInconsistent()
    ensures CompareAsWritten(0, 0x8000_0000) < 0 && CompareAsWritten(0x8000_0000, 0) < 0
  {
  }

  /** When the keys are less than 2^31 apart, the comparator as written orders them correctly. */
  lemma CompareAsWrittenNear(k1: U32, k2: U32)
    requires -TWO31 < k1 - k2 < TWO31
    ensures CompareAsWritten(k1, k2) < 0 <==> k1 < k2
    ensures CompareAsWritten(k1, k2) > 0 <==> k1 > k2
  {
  }

  /** The comparison the sort is evidently meant to make: the sign of the unsigned comparison. */
  function CompareKeys(k1: U32, k2: U32): (r: int)
    ensures r < 0 <==> k1 < k2
    ensures r > 0 <==> k2 < k1
  {
    if k1 < k2 then -1 else if k2 < k1 then 1 else 0
  }

  // ---------------------------------------------------------------------
  // Sorting the table (generators.cpp:34-37)

  predicate InRange(s: seq<int>, n: int) {
    forall k :: 0 <= k < |s| ==> 0 <= s[k] < n
  }

  /** The first n entries of s, a sequence of key indices, are in non-decreasing key order. */
  predicate SortedUpTo(s: seq<int>, keys: seq<U32>, n: int)
    requires InRange(s, |keys|) && n <= |s|
  {
    forall a, b :: 0 <= a < b < n ==> keys[s[a]] <= keys[s[b]]
  }

  /** All of s is in non-decreasing key order. */
  predicate SortedByKey(s: seq<int>, keys: seq<U32>) {
    InRange(s, |keys|) && SortedUpTo(s, keys, |s|)
  }

  /** Sorts t by keys[t[i]], standing for the qsort call; insertion by adjacent swaps. */
  method SortByKey(t: array<int>, keys: seq<U32>)
    requires InRange(t[..], |keys|)
    modifies t
    ensures multiset(t[..]) == multiset(old(t[..]))
    ensures SortedByKey(t[..], keys)
  {
    var i := 0;
    while i < t.Length
      invariant 0 <= i <= t.Length
      invariant multiset(t[..]) == multiset(old(t[..]))
      invariant InRange(t[..], |keys|) && SortedUpTo(t[..], keys, i)
    {
      Insert(t, keys, i);
      i := i + 1;
    }
  }

  /** Moves t[i] down into the sorted prefix t[..i]. */
  method Insert(t: array<int>, keys: seq<U32>, i: int)
    requires 0 <= i < t.Length && InRange(t[..], |keys|) && SortedUpTo(t[..], keys, i)
    modifies t
    ensures multiset(t[..]) == multiset(old(t[..]))
    ensures InRange(t[..], |keys|) && SortedUpTo(t[..], keys, i + 1)
  {
    var j := i;
    InsertStart(t[..], keys, i);
    while j > 0 && CompareKeys(keys[t[j - 1]], keys[t[j]]) > 0
      invariant 0 <= j <= i
      invariant multiset(t[..]) == multiset(old(t[..]))
      invariant InRange(t[..], |keys|) && Inserting(t[..], keys, i, j)
    {
      InsertSwap(t[..], keys, i, j);
      t[j - 1], t[j] := t[j], t[j - 1];
      j := j - 1;
    }
    InsertDone(t[..], keys, i, j);
  }

  /** While t[i] moves down it sits at j: the rest of t[..i + 1] is sorted and everything after
      j has a key at least that of t[j]. */
  predicate Inserting(s: seq<int>, keys: seq<U32>, i: int, j: int)
    requires InRange(s, |keys|) && 0 <= j <= i < |s|
  {
    (forall a, b :: 0 <= a < b <= i && a != j && b != j ==> keys[s[a]] <= keys[s[b]]) &&
    (forall b :: j < b <= i ==> keys[s[j]] <= keys[s[b]])
  }

  lemma InsertStart(s: seq<int>, keys: seq<U32>, i: int)
    requires InRange(s, |keys|) && 0 <= i < |s| && SortedUpTo(s, keys, i)
    ensures Inserting(s, keys, i, i)
  {
  }

  lemma InsertSwap(s: seq<int>, keys: seq<U32>, i: int, j: int)
    requires InRange(s, |keys|) && 0 < j <= i < |s| && Inserting(s, keys, i, j)
    requires keys[s[j - 1]] > keys[s[j]]
    ensures var s' := s[j - 1 := s[j]][j := s[j - 1]];
      multiset(s') == multiset(s) && InRange(s', |keys|) && Inserting(s', keys, i, j - 1)
  {
    var s' := s[j - 1 := s[j]][j := s[j - 1]];
    assert forall k :: 0 <= k < |s| && k != j - 1 && k != j ==> s'[k] == s[k];
  }

  lemma InsertDone(s: seq<int>, keys: seq<U32>, i: int, j: int)
    requires InRange(s, |keys|) && 0 <= j <= i < |s| && Inserting(s, keys, i, j)
    requires j == 0 || keys[s[j - 1]] <= keys[s[j]]
    ensures SortedUpTo(s, keys, i + 1)
  {
  }

  // ---------------------------------------------------------------------
  // InitPerlin (generators.cpp:22-41)

  /** 0, 1, ..., n - 1 */
  function Iota(n: nat): (r: seq<int>)
    ensures |r| == n && forall k :: 0 <= k < n ==> r[k] == k
  {
    seq(n, k => k)
  }

  /** A table holding each of 0 .. 4095 exactly once. */
  predicate PerlinTable(t: seq<int>) {
    |t| == TableSize && multiset(t) == multiset(Iota(TableSize))
  }

  /** Fills the table with 0 .. 4095 sorted by the LFSR keys. The source's comparator is
      replaced by CompareKeys (see CompareAsWrittenInconsistent); with either comparator the
      table is a permutation. */
  method InitPerlin(ptable: array<int>)
    requires ptable.Length == TableSize
    modifies ptable
    ensures PerlinTable(ptable[..])
    ensures SortedByKey(ptable[..], Keys())
  {
    var temp := new U32[TableSize];
    GenerateKeys(temp);
    var keys := temp[..];
    var i := 0;
    while i < TableSize
      invariant 0 <= i <= TableSize
      invariant forall k :: 0 <= k < i ==> ptable[k] == k
    {
      ptable[i] := i;
      i := i + 1;
    }
    assert ptable[..] == Iota(TableSize);
    SortByKey(ptable, keys);
  }

  // ---------------------------------------------------------------------
  // What a permutation table gives the lookups

  lemma {:induction false} IotaCount(n: nat, v: int)
    ensures multiset(Iota(n))[v] == if 0 <= v < n then 1 else 0
  {
    if n > 0 {
      assert Iota(n) == Iota(n - 1) + [n - 1];
      IotaCount(n - 1, v);
    } else {
      assert Iota(n) == [];
    }
  }

  /** Every entry of a permutation table lies in 0 .. 4095. */
  lemma TableValues(t: seq<int>)
    requires PerlinTable(t)
    ensures |t| == TableSize && InRange(t, TableSize)
  {
    assert |t| == |multiset(t)| == |multiset(Iota(TableSize))| == TableSize;
    forall k | 0 <= k < |t|
      ensures 0 <= t[k] < TableSize
    {
      assert t[k] in multiset(t);
      IotaCount(TableSize, t[k]);
    }
  }

  /** No value appears twice in a permutation table. */
  lemma TableDistinct(t: seq<int>, i: int, j: int)
    requires PerlinTable(t) && 0 <= i < j < |t|
    ensures t[i] != t[j]
  {
    if t[i] == t[j] {
      var v := t[i];
      assert t == t[..j] + t[j..];
      assert v in multiset(t[..j]) by {
        assert t[..j][i] == v;
      }
      assert v in multiset(t[j..]) by {
        assert t[j..][0] == v;
      }
      assert multiset(t)[v] == multiset(t[..j])[v] + multiset(t[j..])[v];
      IotaCount(TableSize, v);
    }
  }

  // ---------------------------------------------------------------------
  // P and GShuffle (generators.cpp:8-11, 105-119)

  /** P(i): the table entry at i & 4095, for every int i, negative ones included. */
  function P(t: seq<int>, i: int): (r: int)
    requires PerlinTable(t)
    ensures 0 <= r < TableSize
  {
    TableValues(t);
    Mask4095(i);
    t[And32(i, TableSize - 1)]
  }

  /** P reads entry i mod 4096. */
  lemma PIndex(t: seq<int>, i: int)
    requires PerlinTable(t)
    ensures P(t, i) == t[i % TableSize]
  {
    Mask4095(i);
  }

  /** `i & 4095` is i mod 4096, negative i included. */
  lemma Mask4095(i: int)
    ensures And32(i, TableSize - 1) == i % TableSize
  {
    var x := i % TWO32;
    assert And32(i, 4095) == BitAnd(x, 4095);
    assert BitAnd(x, 4095) == x % 4096 by {
      Pow2Values();
      assert Pow2(13) == 2 * Pow2(12);
      BitAndLowMask(x, 12);
    }
    ModOfMod(i, 4096, 0x10_0000);
  }

  /** P repeats with period 4096. */
  lemma PPeriodic(t: seq<int>, i: int)
    requires PerlinTable(t)
    ensures P(t, i + TableSize) == P(t, i)
  {
    PIndex(t, i);
    PIndex(t, i + TableSize);
    assert (i + TableSize) % TableSize == i % TableSize by {
      DivModUnique(i + TableSize, TableSize, i / TableSize + 1, i % TableSize);
    }
  }

  /** Inputs in different residue classes mod 4096 map to different values. */
  lemma PInjective(t: seq<int>, i: int, j: int)
    requires PerlinTable(t) && i % TableSize != j % TableSize
    ensures P(t, i) != P(t, j)
  {
    PIndex(t, i);
    PIndex(t, j);
    TableValues(t);
    var a, b := i % TableSize, j % TableSize;
    if a < b {
      TableDistinct(t, a, b);
    } else {
      TableDistinct(t, b, a);
    }
  }

  /** Every value 0 .. 4095 is reached by some input 0 .. 4095. */
  lemma PSurjective(t: seq<int>, v: int)
    requires PerlinTable(t) && 0 <= v < TableSize
    ensures exists i :: 0 <= i < TableSize && P(t, i) == v
  {
    IotaCount(TableSize, v);
    assert v in multiset(t);
    assert v in t;
    var i :| 0 <= i < |t| && t[i] == v;
    assert P(t, i) == v by {
      PIndex(t, i);
      DivModUnique(i, TableSize, 0, i);
    }
  }

  /** GShuffle(x, y, z) = P(P(P(x) + y) + z), in 0 .. 4095 for all ints x, y, z. */
  function GShuffle(t: seq<int>, x: int, y: int, z: int): (r: int)
    requires PerlinTable(t)
    ensures 0 <= r < TableSize
  {
    P(t, P(t, P(t, x) + y) + z)
  }

  /** GShuffle tiles with period 4096 in each of x, y and z. */
  lemma GShufflePeriodic(t: seq<int>, x: int, y: int, z: int)
    requires PerlinTable(t)
    ensures GShuffle(t, x + TableSize, y, z) == GShuffle(t, x, y, z)
    ensures GShuffle(t, x, y + TableSize, z) == GShuffle(t, x, y, z)
    ensures GShuffle(t, x, y, z + TableSize) == GShuffle(t, x, y, z)
  {
    var a := P(t, x) + y;
    var b := P(t, a) + z;
    assert GShuffle(t, x + TableSize, y, z) == GShuffle(t, x, y, z) by {
      PPeriodic(t, x);
    }
    assert GShuffle(t, x, y + TableSize, z) == GShuffle(t, x, y, z) by {
      assert P(t, x) + (y + TableSize) == a + TableSize;
      PPeriodic(t, a);
    }
    assert GShuffle(t, x, y, z + TableSize) == GShuffle(t, x, y, z) by {
      assert P(t, a) + (z + TableSize) == b + TableSize;
      PPeriodic(t, b);
    }
  }

  /** For fixed x and y, z values in different residue classes give different hashes. */
  lemma GShuffleInjectiveZ(t: seq<int>, x: int, y: int, z1: int, z2: int)
    requires PerlinTable(t) && z1 % TableSize != z2 % TableSize
    ensures GShuffle(t, x, y, z1) != GShuffle(t, x, y, z2)
  {
    var a := P(t, P(t, x) + y);
    assert (a + z1) % TableSize != (a + z2) % TableSize by {
      ShiftResidue(a, z1, z2, TableSize);
    }
    PInjective(t, a + z1, a + z2);
  }

  lemma ShiftResidue(a: int, u: int, w: int, m: int)
    requires m > 0 && u % m != w % m
    ensures (a + u) % m != (a + w) % m
  {
    if (a + u) % m == (a + w) % m {
      var q1, q2 := (a + u) / m, (a + w) / m;
      assert u - w == m * (q1 - q2);
      DivModUnique(u, m, w / m + (q1 - q2), w % m);
    }
  }
}
