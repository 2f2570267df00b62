/** Frequency counting (codeTree.genFreq in hzipper.py). */
module Frequency {
  import opened Common

  /** genFreq: a table from each distinct byte of `text` to the number of times it occurs. */
  method GenFreq(text: seq<Byte>) returns (freqTable: map<Byte, nat>)
    ensures forall c :: c in freqTable <==> c in text
    ensures forall c :: c in freqTable ==> freqTable[c] == multiset(text)[c] > 0
  {
    freqTable := map[];
    for i := 0 to |text|
      invariant forall c :: c in freqTable <==> c in text[..i]
      invariant forall c :: c in freqTable ==> freqTable[c] == multiset(text[..i])[c]
    {
      var c := text[i];
      assert text[..i + 1] == text[..i] + [c];
      if c in freqTable {
        freqTable := freqTable[c := freqTable[c] + 1];
      } else {
        freqTable := freqTable[c := 1];
      }
    }
    assert text[..|text|] == text;
  }

  predicate Distinct(order: seq<Byte>) {
    forall i, j :: 0 <= i < j < |order| ==> order[i] != order[j]
  }

  /**
   * An order in which the frequency table's keys can be visited: every distinct byte
   * of `text`, each exactly once.
   */
  predicate IsEnumeration(order: seq<Byte>, text: seq<Byte>) {
    Distinct(order) && (forall c :: c in order ==> c in text) && (forall c :: c in text ==> c in order)
  }

  /** The sum of the counts in `m` of the bytes of `order`. */
  function SumCounts(order: seq<Byte>, m: multiset<Byte>): nat {
    if order == [] then 0 else SumCounts(order[..|order| - 1], m) + m[order[|order| - 1]]
  }

  lemma {:induction false} SumCountsEmpty(order: seq<Byte>)
    ensures SumCounts(order, multiset{}) == 0
  {
    if order != [] {
      SumCountsEmpty(order[..|order| - 1]);
    }
  }

  /** One more occurrence of c adds one to the sum exactly when c is listed. */
  lemma {:induction false} SumCountsAdd(order: seq<Byte>, m: multiset<Byte>, c: Byte)
    requires Distinct(order)
    ensures SumCounts(order, m + multiset{c}) == SumCounts(order, m) + (if c in order then 1 else 0)
  {
    if order != [] {
      var init := order[..|order| - 1];
      assert Distinct(init);
      SumCountsAdd(init, m, c);
      assert order == init + [order[|order| - 1]];
      assert c in order <==> c in init || c == order[|order| - 1];
      assert c == order[|order| - 1] ==> c !in init;
    }
  }

  /** The counts of the table sum to the length of the text. */
  lemma {:induction false} CountsSumToLength(order: seq<Byte>, text: seq<Byte>)
    requires Distinct(order) && forall c :: c in text ==> c in order
    ensures SumCounts(order, multiset(text)) == |text|
  {
    if text == [] {
      SumCountsEmpty(order);
    } else {
      var init := text[..|text| - 1];
      var last := text[|text| - 1];
      assert text == init + [last];
      CountsSumToLength(order, init);
      SumCountsAdd(order, multiset(init), last);
    }
  }

  /** The integers 0..n-1. */
  function Below(n: nat): (r: set<int>)
    ensures forall x :: x in r <==> 0 <= x < n
    ensures |r| == n
  {
    if n == 0 then {} else Below(n - 1) + {n - 1}
  }

  /** The set of bytes listed in `order`. */
  function Elements(order: seq<Byte>): (r: set<Byte>)
    ensures forall c :: c in r <==> c in order
  {
    if order == [] then {} else Elements(order[..|order| - 1]) + {order[|order| - 1]}
  }

  lemma {:induction false} DistinctSize(order: seq<Byte>)
    requires Distinct(order)
    ensures |Elements(order)| == |order|
  {
    if order != [] {
      var init := order[..|order| - 1];
      assert Distinct(init);
      DistinctSize(init);
      assert order[|order| - 1] !in init;
    }
  }

  lemma SubsetSize<T>(a: set<T>, b: set<T>)
    requires a <= b
    ensures |a| <= |b|
  {
    assert b == a + (b - a);
  }

  /** There are at most 256 distinct bytes, so the frequency table has at most 256 keys. */
  lemma EnumerationSize(order: seq<Byte>, text: seq<Byte>)
    requires IsEnumeration(order, text)
    ensures |order| <= 256
    ensures |order| == 0 <==> |text| == 0
  {
    DistinctSize(order);
    SubsetSize(Elements(order), Below(256));
    if text != [] {
      assert text[0] in order;
    }
    if order != [] {
      assert order[0] in text;
    }
  }
}
