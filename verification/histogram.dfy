/**
  An insertion-ordered counting dictionary, the shape of the Python `dict`
  that maps each topic to the number of articles carrying it. Python dicts
  remember the order in which keys were first inserted, so the model is a
  sequence of bins rather than a Dafny `map`.
 */
module Histogram {

  /** One key of the dictionary together with its count. */
  datatype Bin = Bin(key: string, count: nat)

  type Hist = seq<Bin>

  /** The keys in dictionary (insertion) order, as `d.keys()` lists them. */
  function Keys(h: Hist): (ks: seq<string>)
    ensures |ks| == |h|
    ensures forall i :: 0 <= i < |h| ==> ks[i] == h[i].key
  {
    if h == [] then [] else [h[0].key] + Keys(h[1..])
  }

  /** A dictionary never holds the same key twice. */
  ghost predicate DistinctKeys(h: Hist) {
    forall i, j :: 0 <= i < j < |h| ==> h[i].key != h[j].key
  }

  /** `d.get(k, 0)`. */
  function Get(h: Hist, k: string): nat {
    if h == [] then 0
    else if h[0].key == k then h[0].count
    else Get(h[1..], k)
  }

  /** A key the dictionary does not hold reads as the default 0. */
  lemma {:induction false} GetAbsent(h: Hist, k: string)
    requires k !in Keys(h)
    ensures Get(h, k) == 0
  {
    if h != [] {
      assert Keys(h)[1..] == Keys(h[1..]);
      GetAbsent(h[1..], k);
    }
  }

  /** The sum of all counts, `sum(d.values())`. */
  function Total(h: Hist): nat {
    if h == [] then 0 else h[0].count + Total(h[1..])
  }

  /** `d[k] = d.get(k, 0) + 1`: an existing key keeps its position, a new one goes last. */
  function Increment(h: Hist, k: string): (r: Hist)
    ensures Get(r, k) == Get(h, k) + 1
    ensures forall k' :: k' != k ==> Get(r, k') == Get(h, k')
  {
    if h == [] then [Bin(k, 1)]
    else if h[0].key == k then [Bin(k, h[0].count + 1)] + h[1..]
    else [h[0]] + Increment(h[1..], k)
  }

  lemma {:induction false} IncrementKeys(h: Hist, k: string)
    ensures Keys(Increment(h, k)) == if k in Keys(h) then Keys(h) else Keys(h) + [k]
  {
    if h == [] {
      assert Keys(Increment(h, k)) == [k];
    } else if h[0].key == k {
      assert Increment(h, k)[1..] == h[1..];
      assert Keys(h)[0] == k;
    } else {
      IncrementKeys(h[1..], k);
      assert Increment(h, k)[1..] == Increment(h[1..], k);
      assert k in Keys(h) <==> k in Keys(h[1..]);
    }
  }

  lemma {:induction false} IncrementTotal(h: Hist, k: string)
    ensures Total(Increment(h, k)) == Total(h) + 1
  {
    if h != [] && h[0].key != k {
      IncrementTotal(h[1..], k);
      assert ([h[0]] + Increment(h[1..], k))[1..] == Increment(h[1..], k);
    } else if h != [] {
      assert Increment(h, k)[1..] == h[1..];
    }
  }

  lemma IncrementDistinct(h: Hist, k: string)
    requires DistinctKeys(h)
    ensures DistinctKeys(Increment(h, k))
  {
    IncrementKeys(h, k);
    var ks := Keys(Increment(h, k));
    assert forall i, j :: 0 <= i < j < |ks| ==> ks[i] != ks[j];
  }

  /** Counting every element of `ks` from left to right into an empty dictionary. */
  function Tally(ks: seq<string>): Hist {
    if ks == [] then [] else Increment(Tally(ks[..|ks| - 1]), ks[|ks| - 1])
  }

  /** A tally holds no key twice, and its keys are exactly the elements of the input. */
  lemma {:induction false} TallyKeys(ks: seq<string>)
    ensures DistinctKeys(Tally(ks))
    ensures forall k :: k in Keys(Tally(ks)) <==> k in ks
  {
    if ks != [] {
      var init := ks[..|ks| - 1];
      var last := ks[|ks| - 1];
      assert ks == init + [last];
      TallyKeys(init);
      IncrementKeys(Tally(init), last);
      IncrementDistinct(Tally(init), last);
    }
  }

  /**
    The count a tally gives each key is the number of times the key occurs in
    the input, and the counts add up to the input's length.
   */
  lemma {:induction false} TallyCounts(ks: seq<string>)
    ensures forall k :: Get(Tally(ks), k) == multiset(ks)[k]
    ensures Total(Tally(ks)) == |ks|
  {
    if ks != [] {
      var init := ks[..|ks| - 1];
      var last := ks[|ks| - 1];
      assert ks == init + [last];
      TallyCounts(init);
      IncrementTotal(Tally(init), last);
    }
  }

  /** Position of the first occurrence of `k` in `ks`. */
  function FirstIndex(ks: seq<string>, k: string): (i: nat)
    requires k in ks
    ensures i < |ks| && ks[i] == k
    ensures forall j :: 0 <= j < i ==> ks[j] != k
  {
    if ks[0] == k then 0 else 1 + FirstIndex(ks[1..], k)
  }

  lemma {:induction false} FirstIndexExtend(ks: seq<string>, x: string, k: string)
    requires k in ks
    ensures k in ks + [x] && FirstIndex(ks + [x], k) == FirstIndex(ks, k)
  {
    if ks[0] != k {
      assert (ks + [x])[1..] == ks[1..] + [x];
      FirstIndexExtend(ks[1..], x, k);
    }
  }

  /** `keys` are elements of `ks` listed in the order of their first occurrence in `ks`. */
  ghost predicate InFirstOccurrenceOrder(keys: seq<string>, ks: seq<string>) {
    forall i, j :: 0 <= i < j < |keys| ==>
      && keys[i] in ks && keys[j] in ks
      && FirstIndex(ks, keys[i]) < FirstIndex(ks, keys[j])
  }

  lemma OrderExtend(keys: seq<string>, ks: seq<string>, x: string)
    requires InFirstOccurrenceOrder(keys, ks)
    requires forall i :: 0 <= i < |keys| ==> keys[i] in ks
    ensures InFirstOccurrenceOrder(keys, ks + [x])
    ensures x !in ks ==> InFirstOccurrenceOrder(keys + [x], ks + [x])
  {
    forall i | 0 <= i < |keys|
      ensures keys[i] in ks + [x] && FirstIndex(ks + [x], keys[i]) == FirstIndex(ks, keys[i])
    {
      FirstIndexExtend(ks, x, keys[i]);
    }
    if x !in ks {
      var keys' := keys + [x];
      assert FirstIndex(ks + [x], x) == |ks|;
      forall i, j | 0 <= i < j < |keys'|
        ensures keys'[i] in ks + [x] && keys'[j] in ks + [x]
        ensures FirstIndex(ks + [x], keys'[i]) < FirstIndex(ks + [x], keys'[j])
      {
        if j < |keys| {
          assert keys'[i] == keys[i] && keys'[j] == keys[j];
        } else {
          assert keys'[i] == keys[i] && keys'[j] == x;
        }
      }
    }
  }

  /** The keys of a tally appear in the order of their first occurrence in the input. */
  lemma {:induction false} TallyFirstOccurrenceOrder(ks: seq<string>)
    ensures InFirstOccurrenceOrder(Keys(Tally(ks)), ks)
  {
    if ks != [] {
      var init := ks[..|ks| - 1];
      var last := ks[|ks| - 1];
      assert ks == init + [last];
      TallyFirstOccurrenceOrder(init);
      TallyKeys(init);
      IncrementKeys(Tally(init), last);
      OrderExtend(Keys(Tally(init)), init, last);
    }
  }
}
