/**
 * The frequency table of huffman.cpp:141-144: a map from each byte value that
 * occurs in the input to the number of its occurrences.
 */
module Frequency {
  import opened Bits

  /** `freq[b]` as `operator[]` reads it: an absent key counts as 0. */
  function Get(freq: map<Byte, nat>, b: Byte): nat
  {
    if b in freq then freq[b] else 0
  }

  /** The counts of the byte values `lo`..255. */
  function SumFrom(freq: map<Byte, nat>, lo: nat): nat
    requires lo <= 256
    decreases 256 - lo
  {
    if lo == 256 then 0 else Get(freq, lo) + SumFrom(freq, lo + 1)
  }

  /** The sum of all counts of a table, over the whole byte alphabet. */
  function Total(freq: map<Byte, nat>): nat
  {
    SumFrom(freq, 0)
  }

  /** Changing one count changes the total by the same amount. */
  lemma {:induction false} SumFromUpdate(m: map<Byte, nat>, m': map<Byte, nat>, k: Byte, lo: nat)
    requires lo <= 256
    requires forall b: Byte :: b != k ==> Get(m, b) == Get(m', b)
    ensures SumFrom(m', lo) + (if lo <= k then Get(m, k) else 0)
         == SumFrom(m, lo) + (if lo <= k then Get(m', k) else 0)
    decreases 256 - lo
  {
    if lo < 256 {
      SumFromUpdate(m, m', k, lo + 1);
      assert Get(m, lo) == Get(m', lo) || lo == k;
    }
  }

  /** The empty table has total 0. */
  lemma {:induction false} SumFromEmpty(lo: nat)
    requires lo <= 256
    ensures SumFrom(map[], lo) == 0
    decreases 256 - lo
  {
    if lo < 256 {
      SumFromEmpty(lo + 1);
    }
  }

  /** Total after setting key `k` to `v`. */
  lemma TotalUpdate(m: map<Byte, nat>, k: Byte, v: nat)
    ensures Total(m[k := v]) == Total(m) - Get(m, k) + v
  {
    SumFromUpdate(m, m[k := v], k, 0);
  }

  /** `freq` is the frequency table of `data`. */
  ghost predicate Counts(freq: map<Byte, nat>, data: seq<Byte>)
  {
    (forall b :: b in freq <==> b in data) &&
    (forall b :: b in freq ==> freq[b] == multiset(data)[b] && freq[b] >= 1)
  }

  /** One `frequencyTable[byte]++` extends the table from `data` to `data + [b]`. */
  lemma CountStep(freq: map<Byte, nat>, data: seq<Byte>, b: Byte)
    requires Counts(freq, data)
    ensures Counts(freq[b := Get(freq, b) + 1], data + [b])
    ensures Total(freq[b := Get(freq, b) + 1]) == Total(freq) + 1
  {
    CountsStep(freq, data, b);
    TotalUpdate(freq, b, Get(freq, b) + 1);
  }

  lemma CountsStep(freq: map<Byte, nat>, data: seq<Byte>, b: Byte)
    requires Counts(freq, data)
    ensures Counts(freq[b := Get(freq, b) + 1], data + [b])
  {
    var m := multiset(data + [b]);
    assert m == multiset(data) + multiset{b};
    forall x
      ensures x in data + [b] <==> x in data || x == b
    {
      assert x in data + [b] <==> x in m;
    }
  }

  /**
   * `buildFrequencyTable` (huffman.cpp:141-144): the keys are exactly the byte
   * values of `data`, each mapped to its number of occurrences, and the counts
   * add up to the length of `data`.
   */
  method BuildFrequencyTable(data: seq<Byte>) returns (freq: map<Byte, nat>)
    ensures forall b :: b in freq <==> b in data
    ensures forall b :: b in freq ==> freq[b] == multiset(data)[b] && freq[b] >= 1
    ensures Total(freq) == |data|
  {
    freq := map[];
    SumFromEmpty(0);
    for i := 0 to |data|
      invariant Counts(freq, data[..i])
      invariant Total(freq) == i
    {
      var b := data[i];
      CountStep(freq, data[..i], b);
      assert data[..i + 1] == data[..i] + [b];
      freq := freq[b := (if b in freq then freq[b] else 0) + 1];
    }
    assert data[..|data|] == data;
  }
}
