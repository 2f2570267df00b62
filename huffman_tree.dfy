/**
 * The code tree and its construction (class Node, codeTree.buildTree,
 * insertByFreq and recHuffAlgorithm in hzipper.py).
 */
module HuffmanTree {
  import opened Common
  import opened Frequency

  /**
   * A node of the code tree. A leaf holds one byte, an internal node its two
   * children. Both carry the frequency the construction orders them by; a tree read
   * back from a file has no frequencies (None in the source), modelled as 0.
   */
  datatype Tree =
    | Leaf(freq: nat, sym: Byte)
    | Node(freq: nat, left: Tree, right: Tree)

  /** The leaf bytes of t, left to right. */
  function Symbols(t: Tree): (s: seq<Byte>)
    ensures |s| >= 1
  {
    match t
    case Leaf(_, c) => [c]
    case Node(_, l, r) => Symbols(l) + Symbols(r)
  }

  /** The number of internal nodes of t (merges, for a built tree). */
  function InternalCount(t: Tree): nat {
    match t
    case Leaf(_, _) => 0
    case Node(_, l, r) => 1 + InternalCount(l) + InternalCount(r)
  }

  /** Every tree has one internal node fewer than it has leaves. */
  lemma {:induction false} InternalCountFromLeaves(t: Tree)
    ensures InternalCount(t) == |Symbols(t)| - 1
  {
    match t
    case Leaf(_, _) =>
    case Node(_, l, r) =>
      InternalCountFromLeaves(l);
      InternalCountFromLeaves(r);
  }

  /** Node.isLeaf: a node without children. */
  function IsLeaf(x: Tree): bool {
    x.Leaf?
  }

  /** A node without children is a subtree without internal nodes, holding a single byte. */
  lemma IsLeafCounts(x: Tree)
    ensures IsLeaf(x) <==> InternalCount(x) == 0
    ensures IsLeaf(x) <==> |Symbols(x)| == 1
  {
  }

  /** Every internal node's frequency is the sum of its children's. */
  ghost predicate WellWeighted(t: Tree) {
    match t
    case Leaf(_, _) => true
    case Node(f, l, r) => f == l.freq + r.freq && WellWeighted(l) && WellWeighted(r)
  }

  /** The same tree with every frequency unset (0), as it is read back from a file. */
  function Erase(t: Tree): (e: Tree)
    ensures e.freq == 0
    ensures Symbols(e) == Symbols(t)
    ensures IsLeaf(e) == IsLeaf(t)
  {
    match t
    case Leaf(_, c) => Leaf(0, c)
    case Node(_, l, r) => Node(0, Erase(l), Erase(r))
  }

  // ---------------------------------------------------------------------------
  // The working list of nodes

  /** Non-decreasing frequencies. */
  ghost predicate Sorted(nodes: seq<Tree>) {
    forall i, j :: 0 <= i < j < |nodes| ==> nodes[i].freq <= nodes[j].freq
  }

  function TotalFreq(nodes: seq<Tree>): nat {
    if nodes == [] then 0 else nodes[0].freq + TotalFreq(nodes[1..])
  }

  function TotalInternal(nodes: seq<Tree>): nat {
    if nodes == [] then 0 else InternalCount(nodes[0]) + TotalInternal(nodes[1..])
  }

  /** All the leaf bytes of all the trees of the list. */
  function SymbolBag(nodes: seq<Tree>): multiset<Byte> {
    if nodes == [] then multiset{} else multiset(Symbols(nodes[0])) + SymbolBag(nodes[1..])
  }

  ghost predicate AllWellWeighted(nodes: seq<Tree>) {
    forall i :: 0 <= i < |nodes| ==> WellWeighted(nodes[i])
  }

  /** The list summaries add up over concatenation. */
  lemma {:induction false} ListSums(a: seq<Tree>, b: seq<Tree>)
    ensures TotalFreq(a + b) == TotalFreq(a) + TotalFreq(b)
    ensures TotalInternal(a + b) == TotalInternal(a) + TotalInternal(b)
    ensures SymbolBag(a + b) == SymbolBag(a) + SymbolBag(b)
  {
    if a == [] {
      assert a + b == b;
    } else {
      assert (a + b)[1..] == a[1..] + b;
      ListSums(a[1..], b);
    }
  }

  /** The index insertByFreq stops at: the first node whose frequency is at least f. */
  function FirstAtLeast(nodes: seq<Tree>, f: nat): (k: nat)
    ensures k <= |nodes|
    ensures forall j :: 0 <= j < k ==> nodes[j].freq < f
    ensures k < |nodes| ==> nodes[k].freq >= f
  {
    if nodes == [] || nodes[0].freq >= f then 0 else 1 + FirstAtLeast(nodes[1..], f)
  }

  /** The parts of a + [x] + b. */
  lemma Splice<T>(a: seq<T>, x: T, b: seq<T>)
    ensures var r := a + [x] + b;
      |r| == |a| + 1 + |b| && r[..|a|] == a && r[|a|] == x && r[|a| + 1..] == b &&
      (forall i :: 0 <= i < |a| ==> r[i] == a[i]) &&
      (forall i :: |a| < i < |r| ==> r[i] == b[i - |a| - 1])
  {
    var r := a + [x] + b;
    assert r[..|a|] == a;
    assert r[|a| + 1..] == b;
  }

  /** A list is its prefix followed by the rest. */
  lemma SplitJoin<T>(s: seq<T>, k: nat)
    requires k <= |s|
    ensures s[..k] + s[k..] == s
  {
  }

  /** a + [x] + b regrouped, and its elements. */
  lemma SpliceJoin<T>(a: seq<T>, x: T, b: seq<T>)
    ensures a + [x] + b == a + ([x] + b)
    ensures multiset(a + [x] + b) == multiset(a + b) + multiset{x}
  {
  }

  /** The list after insertByFreq(x, nodes): x placed before the first node whose frequency is at least its own. */
  function Inserted(x: Tree, nodes: seq<Tree>): (r: seq<Tree>)
    ensures |r| == |nodes| + 1
  {
    var k := FirstAtLeast(nodes, x.freq);
    nodes[..k] + [x] + nodes[k..]
  }

  /** Insertion adds x to the list's totals and keeps every other node. */
  lemma InsertedSums(x: Tree, nodes: seq<Tree>)
    ensures var r := Inserted(x, nodes);
      TotalFreq(r) == TotalFreq(nodes) + x.freq &&
      TotalInternal(r) == TotalInternal(nodes) + InternalCount(x) &&
      SymbolBag(r) == SymbolBag(nodes) + multiset(Symbols(x)) &&
      multiset(r) == multiset(nodes) + multiset{x}
  {
    var k := FirstAtLeast(nodes, x.freq);
    var a, b := nodes[..k], nodes[k..];
    SpliceJoin(a, x, b);
    ListSums(a, [x] + b);
    ListSums([x], b);
    ListSums(a, b);
    SplitJoin(nodes, k);
  }

  /** Where each node of the list ends up after insertion. */
  lemma InsertedAt(x: Tree, nodes: seq<Tree>, i: nat)
    requires i <= |nodes|
    ensures var k := FirstAtLeast(nodes, x.freq);
      Inserted(x, nodes)[i] == if i < k then nodes[i] else if i == k then x else nodes[i - 1]
  {
    var k := FirstAtLeast(nodes, x.freq);
    Splice(nodes[..k], x, nodes[k..]);
  }

  /** Insertion into a list sorted by frequency leaves it sorted. */
  lemma InsertedSorted(x: Tree, nodes: seq<Tree>)
    requires Sorted(nodes)
    ensures Sorted(Inserted(x, nodes))
  {
    var r := Inserted(x, nodes);
    var k := FirstAtLeast(nodes, x.freq);
    forall i, j | 0 <= i < j < |r|
      ensures r[i].freq <= r[j].freq
    {
      InsertedAt(x, nodes, i);
      InsertedAt(x, nodes, j);
      if i <= k < j {
        assert nodes[k].freq >= x.freq;
      }
    }
  }

  /** Insertion of a well-weighted node among well-weighted nodes. */
  lemma InsertedWellWeighted(x: Tree, nodes: seq<Tree>)
    requires AllWellWeighted(nodes) && WellWeighted(x)
    ensures AllWellWeighted(Inserted(x, nodes))
  {
    var r := Inserted(x, nodes);
    var k := FirstAtLeast(nodes, x.freq);
    Splice(nodes[..k], x, nodes[k..]);
    forall i | 0 <= i < |r|
      ensures WellWeighted(r[i])
    {
      if i < k {
        assert r[i] == nodes[i];
      } else if i > k {
        assert r[i] == nodes[i - 1];
      }
    }
  }

  /**
   * Where insertion puts x: at the index where the scan stops, and removing x gives
   * back the other nodes in their original order.
   */
  lemma InsertedPosition(x: Tree, nodes: seq<Tree>)
    ensures var r := Inserted(x, nodes);
      var k := FirstAtLeast(nodes, x.freq);
      r[k] == x && r[..k] + r[k + 1..] == nodes
  {
    var k := FirstAtLeast(nodes, x.freq);
    var a, b := nodes[..k], nodes[k..];
    Splice(a, x, b);
    SplitJoin(nodes, k);
  }

  /**
   * The tie-break: x goes in front of every node whose frequency is at least its
   * own, equal ones included.
   */
  lemma InsertedTieBreak(x: Tree, nodes: seq<Tree>, j: nat)
    requires j < |nodes| && nodes[j].freq >= x.freq
    ensures var r := Inserted(x, nodes);
      FirstAtLeast(nodes, x.freq) <= j && r[j + 1] == nodes[j]
  {
    InsertedAt(x, nodes, j + 1);
  }

  /** insertByFreq: inserts x before the first node whose frequency is at least x's. */
  method InsertByFreq(x: Tree, nodes: seq<Tree>) returns (r: seq<Tree>)
    ensures r == Inserted(x, nodes)
  {
    var i := 0;
    while i < |nodes| && x.freq > nodes[i].freq
      invariant 0 <= i <= |nodes|
      invariant forall j :: 0 <= j < i ==> nodes[j].freq < x.freq
    {
      i := i + 1;
    }
    r := nodes[..i] + [x] + nodes[i..];
  }

  // ---------------------------------------------------------------------------
  // The Huffman algorithm

  /** One merge: the two front nodes become the children of a new node, inserted back. */
  function Merged(nodes: seq<Tree>): (r: seq<Tree>)
    requires |nodes| >= 2
    ensures |r| == |nodes| - 1
  {
    var min1 := nodes[0];
    var min2 := nodes[1];
    Inserted(Node(min1.freq + min2.freq, min1, min2), nodes[2..])
  }

  /** Merged spelled out. */
  lemma MergedUnfold(nodes: seq<Tree>)
    requires |nodes| >= 2
    ensures Merged(nodes) == Inserted(Node(nodes[0].freq + nodes[1].freq, nodes[0], nodes[1]), nodes[2..])
  {
  }

  /** The summaries of a one-node list are those of the node. */
  lemma SingletonSums(t: Tree)
    ensures TotalFreq([t]) == t.freq
    ensures TotalInternal([t]) == InternalCount(t)
    ensures SymbolBag([t]) == multiset(Symbols(t))
  {
    assert [t][1..] == [];
  }

  /** The summaries of a list of two or more, split after its first two nodes. */
  lemma FrontTwoSums(nodes: seq<Tree>)
    requires |nodes| >= 2
    ensures TotalFreq(nodes) == nodes[0].freq + nodes[1].freq + TotalFreq(nodes[2..])
    ensures TotalInternal(nodes) == InternalCount(nodes[0]) + InternalCount(nodes[1]) + TotalInternal(nodes[2..])
    ensures SymbolBag(nodes) == multiset(Symbols(nodes[0])) + multiset(Symbols(nodes[1])) + SymbolBag(nodes[2..])
  {
    assert nodes[1..][1..] == nodes[2..];
  }

  /** A merge keeps the list's total frequency. */
  lemma MergedFreq(nodes: seq<Tree>)
    requires |nodes| >= 2
    ensures TotalFreq(Merged(nodes)) == TotalFreq(nodes)
  {
    var merged := Node(nodes[0].freq + nodes[1].freq, nodes[0], nodes[1]);
    assert TotalFreq(Inserted(merged, nodes[2..])) == TotalFreq(nodes) by {
      InsertedSums(merged, nodes[2..]);
      FrontTwoSums(nodes);
    }
    MergedUnfold(nodes);
  }

  /** A merge adds one internal node. */
  lemma MergedInternal(nodes: seq<Tree>)
    requires |nodes| >= 2
    ensures TotalInternal(Merged(nodes)) == TotalInternal(nodes) + 1
  {
    var merged := Node(nodes[0].freq + nodes[1].freq, nodes[0], nodes[1]);
    assert TotalInternal(Inserted(merged, nodes[2..])) == TotalInternal(nodes) + 1 by {
      InsertedSums(merged, nodes[2..]);
      FrontTwoSums(nodes);
    }
    MergedUnfold(nodes);
  }

  /** A merge keeps the list's leaf bytes. */
  lemma MergedSymbols(nodes: seq<Tree>)
    requires |nodes| >= 2
    ensures SymbolBag(Merged(nodes)) == SymbolBag(nodes)
  {
    var merged := Node(nodes[0].freq + nodes[1].freq, nodes[0], nodes[1]);
    assert SymbolBag(Inserted(merged, nodes[2..])) == SymbolBag(nodes) by {
      InsertedSums(merged, nodes[2..]);
      FrontTwoSums(nodes);
    }
    MergedUnfold(nodes);
  }

  /** A merge keeps every node well weighted. */
  lemma MergedWellWeighted(nodes: seq<Tree>)
    requires |nodes| >= 2 && AllWellWeighted(nodes)
    ensures AllWellWeighted(Merged(nodes))
  {
    var min1, min2, rest := nodes[0], nodes[1], nodes[2..];
    var merged := Node(min1.freq + min2.freq, min1, min2);
    assert AllWellWeighted(Inserted(merged, rest)) by {
      assert WellWeighted(merged);
      forall i | 0 <= i < |rest| ensures WellWeighted(rest[i]) {
        assert rest[i] == nodes[i + 2];
      }
      InsertedWellWeighted(merged, rest);
    }
    MergedUnfold(nodes);
  }

  /**
   * Where a merge puts the new node: the first popped node is its left child and
   * the second its right, it goes where the scan over the rest stops, and removing
   * it gives back the rest of the list in its original order.
   */
  lemma MergedPosition(nodes: seq<Tree>)
    requires |nodes| >= 2
    ensures var merged := Node(nodes[0].freq + nodes[1].freq, nodes[0], nodes[1]);
      var k := FirstAtLeast(nodes[2..], merged.freq);
      var r := Merged(nodes);
      r[k] == merged && r[..k] + r[k + 1..] == nodes[2..]
  {
    MergedUnfold(nodes);
    InsertedPosition(Node(nodes[0].freq + nodes[1].freq, nodes[0], nodes[1]), nodes[2..]);
  }

  /** A suffix of a sorted list is sorted. */
  lemma SortedSuffix(nodes: seq<Tree>, k: nat)
    requires k <= |nodes| && Sorted(nodes)
    ensures Sorted(nodes[k..])
  {
    var rest := nodes[k..];
    forall i, j | 0 <= i < j < |rest| ensures rest[i].freq <= rest[j].freq {
      assert rest[i] == nodes[i + k] && rest[j] == nodes[j + k];
    }
  }

  /** A merge keeps the list sorted by frequency. */
  lemma MergedSorted(nodes: seq<Tree>)
    requires |nodes| >= 2 && Sorted(nodes)
    ensures Sorted(Merged(nodes))
  {
    var merged := Node(nodes[0].freq + nodes[1].freq, nodes[0], nodes[1]);
    assert Sorted(Inserted(merged, nodes[2..])) by {
      SortedSuffix(nodes, 2);
      InsertedSorted(merged, nodes[2..]);
    }
    MergedUnfold(nodes);
  }

  /** The list left once recHuffAlgorithm has merged until fewer than two nodes remain. */
  function Huffman(nodes: seq<Tree>): (r: seq<Tree>)
    ensures |nodes| == 0 ==> r == []
    ensures |nodes| >= 1 ==> |r| == 1
    decreases |nodes|
  {
    if |nodes| < 2 then nodes else Huffman(Merged(nodes))
  }

  /**
   * The merges keep the total frequency and the leaf bytes of the list, make one
   * internal node per merge, and keep every node well weighted.
   */
  lemma {:induction false} HuffmanFacts(nodes: seq<Tree>)
    ensures var r := Huffman(nodes);
      TotalFreq(r) == TotalFreq(nodes) &&
      SymbolBag(r) == SymbolBag(nodes) &&
      (|nodes| >= 1 ==> TotalInternal(r) == TotalInternal(nodes) + |nodes| - 1) &&
      (AllWellWeighted(nodes) ==> AllWellWeighted(r))
    decreases |nodes|
  {
    if |nodes| >= 2 {
      MergedFreq(nodes);
      MergedInternal(nodes);
      MergedSymbols(nodes);
      if AllWellWeighted(nodes) {
        MergedWellWeighted(nodes);
      }
      HuffmanFacts(Merged(nodes));
    }
  }

  /** recHuffAlgorithm: merges the two front nodes and recurses while two or more remain. */
  method RecHuffAlgorithm(nodes: seq<Tree>) returns (r: seq<Tree>)
    ensures r == Huffman(nodes)
    decreases |nodes|
  {
    if |nodes| < 2 {
      r := nodes;
    } else {
      var min1 := nodes[0];
      var min2 := nodes[1];
      var rest := nodes[2..];
      var merged := Node(min1.freq + min2.freq, min1, min2);
      rest := InsertByFreq(merged, rest);
      r := RecHuffAlgorithm(rest);
    }
  }

  /** The sorted list buildTree has made after inserting a leaf for each byte of `order`. */
  function InitialList(order: seq<Byte>, counts: multiset<Byte>): (r: seq<Tree>)
    ensures |r| == |order|
  {
    if order == [] then []
    else
      var c := order[|order| - 1];
      Inserted(Leaf(counts[c], c), InitialList(order[..|order| - 1], counts))
  }

  /**
   * The initial list is sorted, has no internal node, its leaf bytes are exactly
   * the listed bytes, and its frequencies sum to the counts of the listed bytes.
   */
  lemma {:induction false} InitialListFacts(order: seq<Byte>, counts: multiset<Byte>)
    ensures var r := InitialList(order, counts);
      Sorted(r) && TotalFreq(r) == SumCounts(order, counts) && TotalInternal(r) == 0 &&
      SymbolBag(r) == multiset(order) && AllWellWeighted(r)
  {
    if order != [] {
      var init := order[..|order| - 1];
      var c := order[|order| - 1];
      assert order == init + [c];
      InitialListFacts(init, counts);
      var leaf := Leaf(counts[c], c);
      InsertedSums(leaf, InitialList(init, counts));
      InsertedSorted(leaf, InitialList(init, counts));
      InsertedWellWeighted(leaf, InitialList(init, counts));
    }
  }

  /** x is a leaf whose frequency is its byte's count in `counts`. */
  ghost predicate LeafWithCount(x: Tree, counts: multiset<Byte>) {
    x.Leaf? && x.freq == counts[x.sym]
  }

  /** Every node of the initial list is a leaf carrying its own byte's count. */
  lemma {:induction false} InitialListLeaves(order: seq<Byte>, counts: multiset<Byte>)
    ensures forall i :: 0 <= i < |order| ==> LeafWithCount(InitialList(order, counts)[i], counts)
  {
    if order != [] {
      var init := order[..|order| - 1];
      var c := order[|order| - 1];
      var prev := InitialList(init, counts);
      InitialListLeaves(init, counts);
      var leaf := Leaf(counts[c], c);
      var k := FirstAtLeast(prev, leaf.freq);
      Splice(prev[..k], leaf, prev[k..]);
      var r := InitialList(order, counts);
      assert r == prev[..k] + [leaf] + prev[k..];
      forall i | 0 <= i < |r|
        ensures LeafWithCount(r[i], counts)
      {
        if i < k {
          assert r[i] == prev[i];
        } else if i > k {
          assert r[i] == prev[k..][i - k - 1] == prev[i - 1];
        } else {
          assert |prev[..k]| == k;
          assert r[i] == leaf;
        }
      }
    }
  }

  /**
   * The tree buildTree makes from `text`, visiting the frequency table's keys in
   * `order`; an empty text leaves no node to take as the root.
   */
  function BuiltTree(text: seq<Byte>, order: seq<Byte>): Result<Tree> {
    var nodes := Huffman(InitialList(order, multiset(text)));
    if |nodes| == 0 then Err(EmptyInput) else Ok(nodes[0])
  }

  /** buildTree: count the bytes, list one leaf per byte by frequency, then merge. */
  method BuildTree(text: seq<Byte>, order: seq<Byte>) returns (root: Result<Tree>)
    requires IsEnumeration(order, text)
    ensures root == BuiltTree(text, order)
  {
    var freqTable := GenFreq(text);
    var nodes := [];
    for i := 0 to |order|
      invariant nodes == InitialList(order[..i], multiset(text))
    {
      var c := order[i];
      var node := Leaf(freqTable[c], c);
      assert order[..i + 1][..i] == order[..i];
      nodes := InsertByFreq(node, nodes);
    }
    assert order[..|order|] == order;
    nodes := RecHuffAlgorithm(nodes);
    if |nodes| == 0 {
      root := Err(EmptyInput);
    } else {
      root := Ok(nodes[0]);
    }
  }

  /**
   * What construction guarantees: a tree exactly when the text is non-empty, with
   * one leaf per distinct byte, one merge fewer than leaves, every internal
   * frequency the sum of its children's, and the text's length at the root; the
   * root is a leaf exactly when the text has a single distinct byte.
   */
  lemma BuiltTreeFacts(text: seq<Byte>, order: seq<Byte>)
    requires IsEnumeration(order, text)
    ensures BuiltTree(text, order).Ok? <==> |text| > 0
    ensures BuiltTree(text, order).Ok? ==>
      var t := BuiltTree(text, order).value;
      WellWeighted(t) && t.freq == |text| &&
      multiset(Symbols(t)) == multiset(order) &&
      InternalCount(t) == |order| - 1 &&
      (IsLeaf(t) <==> |order| == 1)
  {
    EnumerationSize(order, text);
    CountsSumToLength(order, text);
    InitialListFacts(order, multiset(text));
    HuffmanFacts(InitialList(order, multiset(text)));
    var nodes := Huffman(InitialList(order, multiset(text)));
    if |order| > 0 {
      var t := nodes[0];
      assert nodes == [t];
      assert TotalFreq(nodes) == t.freq;
      assert SymbolBag(nodes) == multiset(Symbols(t));
      assert TotalInternal(nodes) == InternalCount(t);
      assert AllWellWeighted(nodes);
      assert IsLeaf(t) <==> |order| == 1 by {
        IsLeafCounts(t);
      }
    }
  }
}
