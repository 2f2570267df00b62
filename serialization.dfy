/**
 * The preorder bit encoding of a code tree (codeTree.traverse and
 * codeTree.treeFromTraversal in hzipper.py): a leaf is a 1 followed by its byte,
 * most significant bit first; an internal node is a 0 followed by the encodings of
 * its left and right subtrees.
 */
module Serialization {
  import opened Common
  import opened BitStream
  import opened HuffmanTree

  /** The bits traverse appends for the subtree x. */
  function TreeBits(x: Tree): (bits: seq<bool>)
    ensures |bits| >= 9 && bits[0] == x.Leaf?
  {
    match x
    case Leaf(_, c) => [true] + ByteBits(c)
    case Node(_, l, r) => [false] + TreeBits(l) + TreeBits(r)
  }

  /** The encoding has nine bits per leaf and one per internal node. */
  lemma {:induction false} TreeBitsLength(x: Tree)
    ensures |TreeBits(x)| == 9 * |Symbols(x)| + InternalCount(x)
  {
    match x
    case Leaf(_, _) =>
    case Node(_, l, r) =>
      TreeBitsLength(l);
      TreeBitsLength(r);
  }

  /** Frequencies are not written: a tree and its erased copy have the same encoding. */
  lemma {:induction false} TreeBitsErase(x: Tree)
    ensures TreeBits(Erase(x)) == TreeBits(x)
  {
    match x
    case Leaf(_, _) =>
    case Node(_, l, r) =>
      TreeBitsErase(l);
      TreeBitsErase(r);
  }

  /** traverse: appends the preorder encoding of x to toWrite. */
  method Traverse(x: Tree, toWrite: seq<bool>) returns (out: seq<bool>)
    ensures out == toWrite + TreeBits(x)
    decreases x
  {
    if IsLeaf(x) {
      out := toWrite + [true];
      out := AppendByteBits(x.sym, out);
      assert out == toWrite + ([true] + ByteBits(x.sym));
    } else {
      ghost var lb, rb := TreeBits(x.left), TreeBits(x.right);
      out := toWrite + [false];
      out := Traverse(x.left, out);
      out := Traverse(x.right, out);
      assert out == toWrite + ([false] + lb + rb);
    }
  }

  /**
   * What treeFromTraversal returns for `bits`, together with the bits it leaves
   * unconsumed; it fails when the bits run out before the tree is complete. The
   * nodes it makes carry no frequency (0).
   */
  function ParseTree(bits: seq<bool>): (r: Result<(Tree, seq<bool>)>)
    ensures r.Ok? ==> |r.value.1| < |bits|
    ensures r.Ok? ==> r.value.0.freq == 0
    decreases |bits|
  {
    if |bits| == 0 then Err(TreeTruncated)
    else if bits[0] then
      if |bits| < 9 then Err(TreeTruncated)
      else
        assert Pow2(|bits[1..9]|) == Pow2(8) == 256;
        Ok((Leaf(0, ValueOf(bits[1..9])), bits[9..]))
    else
      match ParseTree(bits[1..])
      case Err(e) => Err(e)
      case Ok((l, rest)) =>
        match ParseTree(rest)
        case Err(e) => Err(e)
        case Ok((r, rest2)) => Ok((Node(0, l, r), rest2))
  }

  /** A leaf's encoding reads back as the leaf. */
  lemma ParseLeafBits(c: Byte, rest: seq<bool>)
    ensures ParseTree([true] + ByteBits(c) + rest) == Ok((Leaf(0, c), rest))
  {
    var bits := [true] + ByteBits(c) + rest;
    assert bits[1..9] == ByteBits(c);
    assert bits[9..] == rest;
    ValueOfBitsOf(c, 8);
  }

  /** An internal node's bit followed by two subtrees reads back as the node. */
  lemma ParseNode(bits: seq<bool>, l: Tree, mid: seq<bool>, r: Tree, rest: seq<bool>)
    requires bits != [] && !bits[0]
    requires ParseTree(bits[1..]) == Ok((l, mid)) && ParseTree(mid) == Ok((r, rest))
    ensures ParseTree(bits) == Ok((Node(0, l, r), rest))
  {
  }

  /**
   * Reading back what traverse wrote gives the same tree (without frequencies)
   * and consumes exactly its bits, leaving whatever follows untouched.
   */
  lemma {:induction false} ParseTreeBits(x: Tree, rest: seq<bool>)
    ensures ParseTree(TreeBits(x) + rest) == Ok((Erase(x), rest))
  {
    match x
    case Leaf(_, c) =>
      ParseLeafBits(c, rest);
    case Node(_, l, r) =>
      var bits, mid := TreeBits(x) + rest, TreeBits(r) + rest;
      assert bits[1..] == TreeBits(l) + mid;
      ParseTreeBits(l, mid);
      ParseTreeBits(r, rest);
      ParseNode(bits, Erase(l), mid, Erase(r), rest);
  }

  /** Every proper prefix of an encoding runs out of bits. */
  lemma {:induction false} ParseTreeTruncated(x: Tree, k: nat)
    requires k < |TreeBits(x)|
    ensures ParseTree(TreeBits(x)[..k]) == Err(TreeTruncated)
  {
    var bits := TreeBits(x)[..k];
    match x
    case Leaf(_, _) =>
    case Node(_, l, r) =>
      if k > 0 {
        var lb, rb := TreeBits(l), TreeBits(r);
        if k - 1 < |lb| {
          assert bits[1..] == lb[..k - 1];
          ParseTreeTruncated(l, k - 1);
        } else {
          var j := k - 1 - |lb|;
          assert bits[1..] == lb + rb[..j];
          ParseTreeBits(l, rb[..j]);
          ParseTreeTruncated(r, j);
        }
      }
  }

  /** The eight-bit loop of treeFromTraversal: the byte spelled by bits[start..start + 8]. */
  method ReadByte(bits: seq<bool>, start: nat) returns (byte: Byte)
    requires start + 8 <= |bits|
    ensures byte == ValueOf(bits[start..start + 8])
  {
    var b := 0;
    var i := 0;
    while i < 8
      invariant 0 <= i <= 8
      invariant b == ValueOf(bits[start..start + i])
    {
      ghost var seg := bits[start..start + i + 1];
      assert seg[..i] == bits[start..start + i] && seg[i] == bits[start + i];
      assert ShiftLeft(b, 1) == 2 * ShiftLeft(b, 0) == 2 * b;
      b := ShiftLeft(b, 1);
      if bits[start + i] {
        b := b + 1;
      }
      i := i + 1;
    }
    assert Pow2(8) == 256;
    byte := b;
  }

  /**
   * treeFromTraversal: pops the encoding of one subtree off the front of `bits`;
   * popping from an exhausted list fails.
   */
  method TreeFromTraversal(bits: seq<bool>) returns (r: Result<(Tree, seq<bool>)>)
    ensures r == ParseTree(bits)
    decreases |bits|
  {
    if |bits| == 0 {
      return Err(TreeTruncated);
    }
    var bit := bits[0];
    var rest := bits[1..];
    if bit {
      if |rest| < 8 {
        return Err(TreeTruncated);
      }
      var byte := ReadByte(bits, 1);
      return Ok((Leaf(0, byte), bits[9..]));
    }
    var left := TreeFromTraversal(rest);
    if left.Err? {
      return Err(left.error);
    }
    var (l, rest1) := left.value;
    var right := TreeFromTraversal(rest1);
    if right.Err? {
      return Err(right.error);
    }
    var (rt, rest2) := right.value;
    return Ok((Node(0, l, rt), rest2));
  }
}
