/**
 * The codebook (codeTree.genCodeBook and codeTree.recCB in hzipper.py): every leaf
 * byte of the tree mapped to its path from the root, False for a step to the left
 * child and True for a step to the right.
 */
module Codebook {
  import opened Common
  import opened HuffmanTree

  type CodeBook = map<Byte, seq<bool>>

  /** The subtree reached from x by following `path`, if the path stays inside the tree. */
  function Subtree(x: Tree, path: seq<bool>): Option<Tree>
    decreases |path|
  {
    if path == [] then Some(x)
    else match x
      case Leaf(_, _) => None
      case Node(_, l, r) => Subtree(if path[0] then r else l, path[1..])
  }

  /** Following `path` from x ends exactly at a leaf holding c. */
  ghost predicate LeadsTo(x: Tree, path: seq<bool>, c: Byte) {
    var s := Subtree(x, path);
    s.Some? && s.value.Leaf? && s.value.sym == c
  }

  /** p is a prefix of q. */
  predicate IsPrefix(p: seq<bool>, q: seq<bool>) {
    |p| <= |q| && q[..|p|] == p
  }

  /** No code is a prefix of another byte's code. */
  ghost predicate PrefixFree(cb: CodeBook) {
    forall c, d :: c in cb && d in cb && c != d ==> !IsPrefix(cb[c], cb[d])
  }

  /**
   * recCB: adds to cb the code of every leaf of x, the subtree reached by `path`;
   * the right subtree is visited after the left, so a byte met twice keeps its
   * later code.
   */
  function RecCB(x: Tree, path: seq<bool>, cb: CodeBook): CodeBook
    decreases x
  {
    match x
    case Leaf(_, c) => cb[c := path]
    case Node(_, l, r) => RecCB(r, path + [true], RecCB(l, path + [false], cb))
  }

  /** genCodeBook: a leaf root gets the one-bit code [True]; otherwise recCB from both children. */
  function GenCodeBook(t: Tree): CodeBook {
    match t
    case Leaf(_, c) => map[c := [true]]
    case Node(_, l, r) => RecCB(r, [true], RecCB(l, [false], map[]))
  }

  /** A path into a subtree continues into the tree above it. */
  lemma {:induction false} SubtreeAppend(x: Tree, p: seq<bool>, q: seq<bool>)
    ensures Subtree(x, p + q) == if Subtree(x, p).Some? then Subtree(Subtree(x, p).value, q) else None
    decreases |p|
  {
    if p == [] {
      assert p + q == q;
    } else if x.Node? {
      assert (p + q)[1..] == p[1..] + q;
      SubtreeAppend(if p[0] then x.right else x.left, p[1..], q);
    }
  }

  /**
   * What recCB adds: the bytes of x gain codes that start with `path` and continue
   * to their leaf in x; every other entry of cb is kept.
   */
  lemma {:induction false} RecCBCodes(x: Tree, path: seq<bool>, cb: CodeBook)
    ensures var m := RecCB(x, path, cb);
      (forall c :: c in m <==> c in cb || c in Symbols(x)) &&
      (forall c :: c in m && c !in Symbols(x) ==> m[c] == cb[c]) &&
      (forall c :: c in Symbols(x) ==>
        |m[c]| >= |path| && m[c][..|path|] == path && LeadsTo(x, m[c][|path|..], c))
    decreases x
  {
    match x
    case Leaf(_, c) =>
      assert Subtree(x, []) == Some(x);
      assert path[|path|..] == [];
    case Node(_, l, r) =>
      var pl, pr := path + [false], path + [true];
      var m1 := RecCB(l, pl, cb);
      var m := RecCB(r, pr, m1);
      RecCBCodes(l, pl, cb);
      RecCBCodes(r, pr, m1);
      forall c | c in Symbols(x)
        ensures |m[c]| >= |path| && m[c][..|path|] == path && LeadsTo(x, m[c][|path|..], c)
      {
        var (child, p) := if c in Symbols(r) then (r, pr) else (l, pl);
        assert |m[c]| >= |p| && m[c][..|p|] == p && LeadsTo(child, m[c][|p|..], c);
        var tail := m[c][|path|..];
        assert tail[0] == p[|path|];
        assert tail[1..] == m[c][|p|..];
      }
  }

  /** Exactly the leaf bytes of the tree have codes; a root that is a leaf gets [True]. */
  lemma CodeBookKeys(t: Tree)
    ensures forall c :: c in GenCodeBook(t) <==> c in Symbols(t)
    ensures t.Leaf? ==> GenCodeBook(t)[t.sym] == [true]
  {
    if t.Node? {
      RecCBCodes(t.left, [false], map[]);
      RecCBCodes(t.right, [true], RecCB(t.left, [false], map[]));
    }
  }

  /**
   * Below a root with two children every code is the non-empty path from the root
   * to a leaf holding its byte.
   */
  lemma CodeBookPaths(t: Tree)
    requires t.Node?
    ensures forall c :: c in GenCodeBook(t) ==> |GenCodeBook(t)[c]| >= 1 && LeadsTo(t, GenCodeBook(t)[c], c)
  {
    var m1 := RecCB(t.left, [false], map[]);
    var m := RecCB(t.right, [true], m1);
    RecCBCodes(t.left, [false], map[]);
    RecCBCodes(t.right, [true], m1);
    forall c | c in m
      ensures |m[c]| >= 1 && LeadsTo(t, m[c], c)
    {
      if c in Symbols(t.right) {
        assert m[c] == [true] + m[c][1..];
      } else {
        assert m[c] == [false] + m[c][1..];
      }
    }
  }

  /** Paths that end at leaves are never proper prefixes of one another. */
  lemma LeafPathsPrefixFree(t: Tree, p: seq<bool>, q: seq<bool>, c: Byte, d: Byte)
    requires LeadsTo(t, p, c) && LeadsTo(t, q, d) && IsPrefix(p, q)
    ensures p == q && c == d
  {
    assert q == p + q[|p|..];
    SubtreeAppend(t, p, q[|p|..]);
  }

  /** The codebook is prefix-free. */
  lemma CodeBookPrefixFree(t: Tree)
    ensures PrefixFree(GenCodeBook(t))
  {
    if t.Node? {
      var cb := GenCodeBook(t);
      CodeBookPaths(t);
      forall c, d | c in cb && d in cb && c != d
        ensures !IsPrefix(cb[c], cb[d])
      {
        if IsPrefix(cb[c], cb[d]) {
          LeafPathsPrefixFree(t, cb[c], cb[d], c, d);
        }
      }
    }
  }

  /** Frequencies play no part in the codes. */
  lemma {:induction false} RecCBErase(x: Tree, path: seq<bool>, cb: CodeBook)
    ensures RecCB(Erase(x), path, cb) == RecCB(x, path, cb)
    decreases x
  {
    match x
    case Leaf(_, _) =>
    case Node(_, l, r) =>
      RecCBErase(l, path + [false], cb);
      RecCBErase(r, path + [true], RecCB(l, path + [false], cb));
  }

  /** The tree read back from a file has the codebook of the tree that was written. */
  lemma CodeBookErase(t: Tree)
    ensures GenCodeBook(Erase(t)) == GenCodeBook(t)
  {
    if t.Node? {
      RecCBErase(t.left, [false], map[]);
      RecCBErase(t.right, [true], RecCB(t.left, [false], map[]));
    }
  }
}
