/**
 * Encoding a text with a codebook and decoding bits by walking the code tree
 * (encode and decode in hzipper.py).
 */
module Codec {
  import opened Common
  import opened HuffmanTree
  import opened Codebook

  // ---------------------------------------------------------------------------
  // encode

  /**
   * What encode returns: the codes of the bytes of `text`, concatenated in order.
   * A byte without a code fails the lookup (the first such byte is reported).
   */
  function Encoded(text: seq<Byte>, cb: CodeBook): (r: Result<seq<bool>>)
    ensures r.Ok? <==> forall c :: c in text ==> c in cb
    ensures r.Err? ==> r.error.UnknownSymbol? && r.error.sym in text && r.error.sym !in cb
  {
    if text == [] then Ok([])
    else
      var init, c := text[..|text| - 1], text[|text| - 1];
      assert text == init + [c];
      match Encoded(init, cb)
      case Err(e) => Err(e)
      case Ok(bits) => if c in cb then Ok(bits + cb[c]) else Err(UnknownSymbol(c))
  }

  /** Once a prefix of the text fails, the whole text fails the same way. */
  lemma {:induction false} EncodedPrefixErr(text: seq<Byte>, cb: CodeBook, i: nat)
    requires i <= |text| && Encoded(text[..i], cb).Err?
    ensures Encoded(text, cb) == Encoded(text[..i], cb)
    decreases |text|
  {
    if i < |text| {
      var init := text[..|text| - 1];
      assert init[..i] == text[..i];
      EncodedPrefixErr(init, cb, i);
    } else {
      assert text[..i] == text;
    }
  }

  /** encode: looks up the code of each byte in turn and appends it. */
  method Encode(text: seq<Byte>, codebook: CodeBook) returns (r: Result<seq<bool>>)
    ensures r == Encoded(text, codebook)
  {
    var bools := [];
    for i := 0 to |text|
      invariant Encoded(text[..i], codebook) == Ok(bools)
    {
      var c := text[i];
      assert text[..i + 1][..i] == text[..i];
      if c !in codebook {
        EncodedPrefixErr(text, codebook, i + 1);
        return Err(UnknownSymbol(c));
      }
      bools := bools + codebook[c];
    }
    assert text[..|text|] == text;
    return Ok(bools);
  }

  // ---------------------------------------------------------------------------
  // decode

  /** What decode appends on reaching x: the byte of a leaf, nothing at an internal node. */
  function Emitted(x: Tree): seq<Byte> {
    if x.Leaf? then [x.sym] else []
  }

  /**
   * Where decode goes from x on reading bit b: a leaf restarts at the root, and
   * then, unless it is at a leaf, True moves to the right child and False to the left.
   */
  function Next(root: Tree, x: Tree, b: bool): Tree {
    var y := if x.Leaf? then root else x;
    if y.Leaf? then y else if b then y.right else y.left
  }

  /**
   * The bytes decode emits from the current node x on, with `bits` still to read;
   * after the last bit a leaf x emits its byte once more.
   */
  function Run(root: Tree, x: Tree, bits: seq<bool>): seq<Byte>
    decreases |bits|
  {
    if bits == [] then Emitted(x)
    else Emitted(x) + Run(root, Next(root, x, bits[0]), bits[1..])
  }

  /** What decode returns for `bits` and the tree with root `root`. */
  function Decoded(bits: seq<bool>, root: Tree): seq<Byte> {
    Run(root, root, bits)
  }

  /** One iteration of decode's loop keeps what has been emitted plus what is still to come. */
  lemma RunStep(root: Tree, x: Tree, bits: seq<bool>, i: nat, s: seq<Byte>)
    requires i < |bits|
    ensures (s + Emitted(x)) + Run(root, Next(root, x, bits[i]), bits[i + 1..]) == s + Run(root, x, bits[i..])
  {
    assert bits[i..][1..] == bits[i + 1..];
  }

  /** decode: walks the tree bit by bit, emitting a byte at every leaf. */
  method Decode(bitstring: seq<bool>, root: Tree) returns (s: seq<Byte>)
    ensures s == Decoded(bitstring, root)
  {
    s := [];
    var x := root;
    assert bitstring[0..] == bitstring;
    for i := 0 to |bitstring|
      invariant s + Run(root, x, bitstring[i..]) == Decoded(bitstring, root)
    {
      var b := bitstring[i];
      ghost var s0, x0 := s, x;
      if IsLeaf(x) {
        s := s + [x.sym];
        x := root;
      }
      if !IsLeaf(x) {
        if b {
          x := x.right;
        } else {
          x := x.left;
        }
      }
      assert s == s0 + Emitted(x0) && x == Next(root, x0, b);
      RunStep(root, x0, bitstring, i, s0);
    }
    if IsLeaf(x) {
      s := s + [x.sym];
    }
  }

  /** Below a root with two children, reaching a leaf emits its byte and restarts at the root. */
  lemma LeafStep(root: Tree, leaf: Tree, rest: seq<bool>)
    requires root.Node? && leaf.Leaf?
    ensures Run(root, leaf, rest) == [leaf.sym] + Run(root, root, rest)
  {
    if rest != [] {
      assert Run(root, root, rest) == Run(root, if rest[0] then root.right else root.left, rest[1..]);
    }
  }

  /** Reading a code from a node walks down to its leaf, emits its byte and restarts at the root. */
  lemma {:induction false} WalkCode(root: Tree, x: Tree, p: seq<bool>, c: Byte, rest: seq<bool>)
    requires root.Node? && x.Node? && |p| >= 1 && LeadsTo(x, p, c)
    ensures Run(root, x, p + rest) == [c] + Run(root, root, rest)
    decreases |p|
  {
    var z := if p[0] then x.right else x.left;
    assert (p + rest)[1..] == p[1..] + rest;
    assert Run(root, x, p + rest) == Run(root, z, p[1..] + rest);
    assert Subtree(x, p) == Subtree(z, p[1..]);
    if |p| == 1 {
      assert p[1..] == [];
      assert p[1..] + rest == rest;
      LeafStep(root, z, rest);
    } else {
      WalkCode(root, z, p[1..], c, rest);
    }
  }

  /** Decoding the encoding of `text` from the root emits `text` and goes on from the root. */
  lemma {:induction false} DecodeEncodedRun(t: Tree, text: seq<Byte>, rest: seq<bool>)
    requires t.Node? && Encoded(text, GenCodeBook(t)).Ok?
    ensures Run(t, t, Encoded(text, GenCodeBook(t)).value + rest) == text + Run(t, t, rest)
    decreases |text|
  {
    if text != [] {
      var cb := GenCodeBook(t);
      var init, c := text[..|text| - 1], text[|text| - 1];
      assert text == init + [c];
      var before := Encoded(init, cb).value;
      assert Encoded(text, cb).value == before + cb[c];
      assert before + cb[c] + rest == before + (cb[c] + rest);
      DecodeEncodedRun(t, init, cb[c] + rest);
      CodeBookPaths(t);
      WalkCode(t, t, cb[c], c, rest);
    } else {
      assert [] + rest == rest;
    }
  }

  /**
   * For a root with two children, decoding the encoding of a text whose bytes all
   * occur in the tree gives the text back.
   */
  lemma DecodeEncode(t: Tree, text: seq<Byte>)
    requires t.Node? && forall c :: c in text ==> c in Symbols(t)
    ensures Encoded(text, GenCodeBook(t)).Ok?
    ensures Decoded(Encoded(text, GenCodeBook(t)).value, t) == text
  {
    CodeBookKeys(t);
    var bits := Encoded(text, GenCodeBook(t)).value;
    DecodeEncodedRun(t, text, []);
    assert bits + [] == bits;
  }

  /** With a leaf for root, decode emits the leaf's byte once per bit and once more. */
  lemma {:induction false} DecodeLeafRoot(t: Tree, bits: seq<bool>)
    requires t.Leaf?
    ensures Decoded(bits, t) == Repeat(t.sym, |bits| + 1)
    decreases |bits|
  {
    if bits != [] {
      assert Run(t, t, bits) == [t.sym] + Run(t, t, bits[1..]);
      DecodeLeafRoot(t, bits[1..]);
    }
    var r := Decoded(bits, t);
    assert forall i :: 0 <= i < |r| ==> r[i] == Repeat(t.sym, |bits| + 1)[i];
  }

  /** With a leaf for root, every byte of the text is coded as the single bit True. */
  lemma {:induction false} EncodedLeafRoot(t: Tree, text: seq<Byte>)
    requires t.Leaf? && forall c :: c in text ==> c == t.sym
    ensures Encoded(text, GenCodeBook(t)) == Ok(Repeat(true, |text|))
    decreases |text|
  {
    if text != [] {
      var init := text[..|text| - 1];
      assert text == init + [text[|text| - 1]];
      assert forall c :: c in init ==> c in text;
      EncodedLeafRoot(t, init);
    }
  }

  /** One byte coded with a leaf for root decodes to two copies of it. */
  lemma SingleLeafCounterexample()
    ensures Decoded(Encoded([97], GenCodeBook(Leaf(1, 97))).value, Leaf(1, 97)) == [97, 97]
  {
    var t := Leaf(1, 97);
    EncodedLeafRoot(t, [97]);
    DecodeLeafRoot(t, [true]);
  }

  /** decode as intended: with a leaf for root, one byte per bit. */
  function DecodedIntended(bits: seq<bool>, root: Tree): seq<Byte> {
    if root.Leaf? then Repeat(root.sym, |bits|) else Decoded(bits, root)
  }

  /** Decoding as intended inverts encoding for every tree. */
  lemma DecodeEncodeIntended(t: Tree, text: seq<Byte>)
    requires forall c :: c in text ==> c in Symbols(t)
    ensures Encoded(text, GenCodeBook(t)).Ok?
    ensures DecodedIntended(Encoded(text, GenCodeBook(t)).value, t) == text
  {
    if t.Node? {
      DecodeEncode(t, text);
    } else {
      EncodedLeafRoot(t, text);
      var r := Repeat(t.sym, |text|);
      assert forall i :: 0 <= i < |text| ==> r[i] == text[i];
    }
  }
}
