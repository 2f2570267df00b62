/**
 * The compressed file (hzip, unzip, codeTree.writeTree and codeTree.readTree in
 * hzipper.py), with the files as byte sequences. A compressed file is
 *   two bytes, little-endian: the number n of bytes of the packed tree encoding;
 *   n bytes: the preorder encoding of the code tree, packed;
 *   one byte r: the length of the encoded message modulo 8;
 *   the encoded message, packed.
 */
module Container {
  import opened Common
  import opened BitStream
  import opened Frequency
  import opened HuffmanTree
  import opened Serialization
  import opened Codebook
  import opened Codec

  /** struct.pack('<H', n): n as two bytes, the low one first. */
  function Uint16LE(n: nat): (r: seq<Byte>)
    requires n < 65536
    ensures |r| == 2 && r[0] as int + 256 * r[1] as int == n
  {
    [n % 256, n / 256]
  }

  /** writeTree's Nbytes: whole bytes needed for n bits, rounded up. */
  function CeilBytes(n: nat): (k: nat)
    ensures 8 * k >= n && 8 * k < n + 8
  {
    n / 8 + (if n % 8 != 0 then 1 else 0)
  }

  /** The tree header is the number of bytes its packed encoding takes. */
  lemma CeilBytesPack(bits: seq<bool>)
    ensures CeilBytes(|bits|) == |Pack(bits)|
  {
  }

  // ---------------------------------------------------------------------------
  // writeTree and readTree

  /**
   * What writeTree writes for t: the byte count of the packed encoding, then the
   * packed encoding. struct.pack('<H', _) refuses a count above 65535.
   */
  function WrittenTree(t: Tree): Result<seq<Byte>> {
    var bools := TreeBits(t);
    var nbytes := CeilBytes(|bools|);
    if nbytes > 65535 then Err(TreeTooLarge) else Ok(Uint16LE(nbytes) + Pack(bools))
  }

  /** writeTree: traverse the tree, write the byte count, then the packed bits. */
  method WriteTree(t: Tree) returns (r: Result<seq<Byte>>)
    ensures r == WrittenTree(t)
  {
    var bools := Traverse(t, []);
    assert bools == TreeBits(t);
    var nbytes := |bools| / 8;
    if |bools| % 8 != 0 {
      nbytes := nbytes + 1;
    }
    assert nbytes == CeilBytes(|bools|);
    if nbytes > 65535 {
      return Err(TreeTooLarge);
    }
    var header: seq<Byte> := [nbytes % 256, nbytes / 256];
    assert header == Uint16LE(nbytes);
    var packed := WriteBits(bools);
    return Ok(header + packed);
  }

  /**
   * How many of the `available` bytes readBits(f, n) takes: f.read(n) stops at
   * the end of the data, and n = 0 (falsy) reads everything.
   */
  function ReadCount(n: nat, available: nat): (k: nat)
    ensures k <= available
    ensures 0 < n <= available ==> k == n
    ensures n > available ==> k == available
    ensures n == 0 ==> k == available
  {
    if n == 0 || n > available then available else n
  }

  /**
   * What readTree makes of `data`: the tree and the bytes after its encoding.
   * A header of fewer than two bytes fails struct.unpack; the tree is parsed from
   * all the bits of the bytes the header counts, whatever follows it is ignored.
   */
  function TreeFromFile(data: seq<Byte>): Result<(Tree, seq<Byte>)> {
    if |data| < 2 then Err(HeaderTruncated)
    else
      var rest := data[2..];
      var k := ReadCount(data[0] as int + 256 * data[1] as int, |rest|);
      match ParseTree(Unpack(rest[..k], 8))
      case Err(e) => Err(e)
      case Ok((t, _)) => Ok((t, rest[k..]))
  }

  /** readTree: read the byte count, then the tree's bytes, then parse the bits. */
  method ReadTree(data: seq<Byte>) returns (r: Result<(Tree, seq<Byte>)>)
    ensures r == TreeFromFile(data)
  {
    if |data| < 2 {
      return Err(HeaderTruncated);
    }
    var nbytes := data[0] as int + 256 * data[1] as int;
    var rest := data[2..];
    var k := |rest|;
    if nbytes != 0 && nbytes <= |rest| {
      k := nbytes;
    }
    var treebits := ReadBits(rest[..k], 8);
    var parsed := TreeFromTraversal(treebits);
    if parsed.Err? {
      return Err(parsed.error);
    }
    return Ok((parsed.value.0, rest[k..]));
  }

  /** A written tree reads back (without frequencies), leaving exactly what follows it. */
  lemma ReadWrittenTree(t: Tree, tail: seq<Byte>)
    requires WrittenTree(t).Ok?
    ensures TreeFromFile(WrittenTree(t).value + tail) == Ok((Erase(t), tail))
  {
    var bools := TreeBits(t);
    var packed := Pack(bools);
    var data := WrittenTree(t).value + tail;
    CeilBytesPack(bools);
    assert data[2..] == packed + tail;
    assert (packed + tail)[..|packed|] == packed;
    assert (packed + tail)[|packed|..] == tail;
    UnpackPackWhole(bools);
    ParseTreeBits(t, Repeat(false, Padding(|bools|)));
  }

  /** A tree of at most 256 leaves with one internal node fewer fits the header. */
  lemma WrittenTreeFits(t: Tree)
    requires |Symbols(t)| <= 256 && InternalCount(t) == |Symbols(t)| - 1
    ensures WrittenTree(t).Ok?
    ensures CeilBytes(|TreeBits(t)|) <= 320
  {
    TreeBitsLength(t);
  }

  // ---------------------------------------------------------------------------
  // hzip and unzip

  /**
   * What hzip writes for `text`, the frequency table's keys being visited in
   * `order`: the tree, the bit count of the last byte (the length of the
   * encoding modulo 8) and the packed encoding.
   */
  function Compressed(text: seq<Byte>, order: seq<Byte>): Result<seq<Byte>> {
    match BuiltTree(text, order)
    case Err(e) => Err(e)
    case Ok(t) =>
      match WrittenTree(t)
      case Err(e) => Err(e)
      case Ok(treeBytes) =>
        match Encoded(text, GenCodeBook(t))
        case Err(e) => Err(e)
        case Ok(encoded) => Ok(treeBytes + [|encoded| % 8] + Pack(encoded))
  }

  /** hzip, with the input and output files as byte sequences. */
  method HZip(text: seq<Byte>, order: seq<Byte>) returns (r: Result<seq<Byte>>)
    requires IsEnumeration(order, text)
    ensures r == Compressed(text, order)
  {
    var t := BuildTree(text, order);
    if t.Err? {
      return Err(t.error);
    }
    var written := WriteTree(t.value);
    if written.Err? {
      return Err(written.error);
    }
    var cb := GenCodeBook(t.value);
    var encoded := Encode(text, cb);
    if encoded.Err? {
      return Err(encoded.error);
    }
    var body := WriteBits(encoded.value);
    return Ok(written.value + [|encoded.value| % 8] + body);
  }

  /**
   * What unzip writes for the compressed file `data`: the tree, then the bit-count
   * byte (its absence fails struct.unpack), then the rest of the file read as bits
   * and decoded.
   */
  function Decompressed(data: seq<Byte>): Result<seq<Byte>> {
    match TreeFromFile(data)
    case Err(e) => Err(e)
    case Ok((t, rest)) =>
      if rest == [] then Err(RemainderMissing)
      else Ok(Decoded(Unpack(rest[1..], rest[0]), t))
  }

  /** unzip, with the input and output files as byte sequences. */
  method Unzip(data: seq<Byte>) returns (r: Result<seq<Byte>>)
    ensures r == Decompressed(data)
  {
    var tree := ReadTree(data);
    if tree.Err? {
      return Err(tree.error);
    }
    var (t, rest) := tree.value;
    if |rest| < 1 {
      return Err(RemainderMissing);
    }
    var lastByteBits := rest[0];
    var bits := ReadBits(rest[1..], lastByteBits);
    var text := Decode(bits, t);
    return Ok(text);
  }

  /** unzip with both corrections: a bit count of 0 means a full last byte, and a leaf root decodes one byte per bit. */
  function DecompressedIntended(data: seq<Byte>): Result<seq<Byte>> {
    match TreeFromFile(data)
    case Err(e) => Err(e)
    case Ok((t, rest)) =>
      if rest == [] then Err(RemainderMissing)
      else Ok(DecodedIntended(UnpackIntended(rest[1..], rest[0]), t))
  }

  // ---------------------------------------------------------------------------
  // What compression guarantees

  /** Every code of a tree with two or more leaves has at least one bit. */
  lemma {:induction false} EncodedLength(t: Tree, text: seq<Byte>)
    requires t.Node? && Encoded(text, GenCodeBook(t)).Ok?
    ensures |Encoded(text, GenCodeBook(t)).value| >= |text|
    decreases |text|
  {
    if text != [] {
      var init := text[..|text| - 1];
      assert text == init + [text[|text| - 1]];
      CodeBookPaths(t);
      EncodedLength(t, init);
    }
  }

  /**
   * For a non-empty text every step of hzip succeeds: the tree is built, fits the
   * header, and has a code for every byte of the text. The root is a leaf exactly
   * when the text has one distinct byte, and then it holds that byte.
   */
  lemma CompressedParts(text: seq<Byte>, order: seq<Byte>)
    requires IsEnumeration(order, text) && |text| > 0
    ensures BuiltTree(text, order).Ok?
    ensures var t := BuiltTree(text, order).value;
      WrittenTree(t).Ok? && Encoded(text, GenCodeBook(t)).Ok? &&
      (forall c :: c in text ==> c in Symbols(t)) &&
      (t.Node? <==> |order| >= 2) && (t.Leaf? ==> t.sym == order[0])
  {
    BuiltTreeLeaves(text, order);
    var t := BuiltTree(text, order).value;
    assert WrittenTree(t).Ok? by {
      InternalCountFromLeaves(t);
      WrittenTreeFits(t);
    }
    assert Encoded(text, GenCodeBook(t)).Ok? by {
      CodeBookKeys(t);
    }
  }

  /**
   * The tree hzip builds for a non-empty text has one leaf per distinct byte, among
   * them every byte of the text; its root is a leaf exactly when the text has one
   * distinct byte, and then it holds that byte.
   */
  lemma BuiltTreeLeaves(text: seq<Byte>, order: seq<Byte>)
    requires IsEnumeration(order, text) && |text| > 0
    ensures BuiltTree(text, order).Ok?
    ensures var t := BuiltTree(text, order).value;
      |Symbols(t)| == |order| <= 256 &&
      (forall c :: c in text ==> c in Symbols(t)) &&
      (t.Node? <==> |order| >= 2) && (t.Leaf? ==> t.sym == order[0])
  {
    BuiltTreeFacts(text, order);
    EnumerationSize(order, text);
    var t := BuiltTree(text, order).value;
    assert |Symbols(t)| == |order| by {
      assert |multiset(Symbols(t))| == |multiset(order)|;
    }
    forall c | c in text
      ensures c in Symbols(t)
    {
      assert multiset(order)[c] > 0;
    }
    if t.Leaf? {
      assert multiset(Symbols(t)) == multiset{t.sym};
      assert order == [order[0]];
      assert multiset(order) == multiset{order[0]};
    }
  }

  /** The tree hzip builds for a non-empty text. */
  ghost function TreeOf(text: seq<Byte>, order: seq<Byte>): (t: Tree)
    requires IsEnumeration(order, text) && |text| > 0
    ensures BuiltTree(text, order) == Ok(t)
  {
    CompressedParts(text, order);
    BuiltTree(text, order).value
  }

  /** The encoding hzip makes of a non-empty text. */
  ghost function EncodingOf(text: seq<Byte>, order: seq<Byte>): (enc: seq<bool>)
    requires IsEnumeration(order, text) && |text| > 0
    ensures Encoded(text, GenCodeBook(TreeOf(text, order))) == Ok(enc)
  {
    CompressedParts(text, order);
    Encoded(text, GenCodeBook(TreeOf(text, order))).value
  }

  /** hzip succeeds exactly on a non-empty text (an empty one has no tree). */
  lemma CompressedOk(text: seq<Byte>, order: seq<Byte>)
    requires IsEnumeration(order, text)
    ensures Compressed(text, order).Ok? <==> |text| > 0
    ensures |text| == 0 ==> Compressed(text, order) == Err(EmptyInput)
  {
    BuiltTreeFacts(text, order);
    if |text| > 0 {
      CompressedParts(text, order);
    }
  }

  /**
   * Unzipping a compressed file: the tree reads back, and the message is the
   * encoding read with the stored bit count, decoded with that tree.
   */
  lemma DecompressCompressed(text: seq<Byte>, order: seq<Byte>)
    requires IsEnumeration(order, text) && |text| > 0
    ensures Compressed(text, order).Ok?
    ensures var t, enc := TreeOf(text, order), EncodingOf(text, order);
      Decompressed(Compressed(text, order).value) == Ok(Decoded(Unpack(Pack(enc), |enc| % 8), Erase(t))) &&
      DecompressedIntended(Compressed(text, order).value) ==
        Ok(DecodedIntended(UnpackIntended(Pack(enc), |enc| % 8), Erase(t)))
  {
    CompressedParts(text, order);
    var t, enc := TreeOf(text, order), EncodingOf(text, order);
    var tail := [|enc| % 8 as Byte] + Pack(enc);
    assert Compressed(text, order).value == WrittenTree(t).value + tail;
    ReadWrittenTree(t, tail);
    assert tail[1..] == Pack(enc);
  }

  /**
   * With two or more distinct bytes and an encoding whose length is not a multiple
   * of 8, unzip gives the text back.
   */
  lemma RoundTrip(text: seq<Byte>, order: seq<Byte>)
    requires IsEnumeration(order, text) && |text| > 0 && |order| >= 2
    requires |EncodingOf(text, order)| % 8 != 0
    ensures Compressed(text, order).Ok?
    ensures Decompressed(Compressed(text, order).value) == Ok(text)
  {
    CompressedParts(text, order);
    var t, enc := TreeOf(text, order), EncodingOf(text, order);
    DecompressCompressed(text, order);
    UnpackPack(enc);
    CodeBookErase(t);
    DecodeEncode(Erase(t), text);
  }

  /**
   * With two or more distinct bytes and an encoding whose length is a multiple of
   * 8, the bit count stored is 0 and unzip decodes the encoding without its last
   * eight bits.
   */
  lemma FullByteLoss(text: seq<Byte>, order: seq<Byte>)
    requires IsEnumeration(order, text) && |text| > 0 && |order| >= 2
    requires |EncodingOf(text, order)| % 8 == 0
    ensures Compressed(text, order).Ok?
    ensures var enc := EncodingOf(text, order);
      |enc| >= 8 &&
      Decompressed(Compressed(text, order).value) == Ok(Decoded(enc[..|enc| - 8], Erase(TreeOf(text, order))))
  {
    var t, enc := TreeOf(text, order), EncodingOf(text, order);
    assert |enc| >= 8 by {
      CompressedParts(text, order);
      EncodedLength(t, text);
      FullByteLength(|enc|);
    }
    assert Unpack(Pack(enc), |enc| % 8) == enc[..|enc| - 8] by {
      UnpackPackFullByte(enc);
    }
    DecompressCompressed(text, order);
  }

  /** The tree built for four 0s then four 1s, 0 listed first: the leaf of 1 goes in front of the equal leaf of 0. */
  lemma ExampleTree()
    ensures BuiltTree([0, 0, 0, 0, 1, 1, 1, 1], [0, 1]) == Ok(Node(8, Leaf(4, 1), Leaf(4, 0)))
  {
    var text: seq<Byte> := [0, 0, 0, 0, 1, 1, 1, 1];
    var order: seq<Byte> := [0, 1];
    var m := multiset(text);
    assert m[0] == 4 && m[1] == 4;
    var leaf0, leaf1 := Leaf(4, 0), Leaf(4, 1);
    assert InitialList(order[..1], m) == [leaf0] by {
      assert order[..1] == [0] && order[..1][..0] == [];
      assert Inserted(leaf0, []) == [leaf0];
    }
    var leaves := InitialList(order, m);
    assert leaves == Inserted(leaf1, [leaf0]);
    assert leaves == [leaf1, leaf0] by {
      assert FirstAtLeast([leaf0], 4) == 0;
    }
    var t := Node(8, leaf1, leaf0);
    assert Merged(leaves) == [t] by {
      MergedUnfold(leaves);
      assert leaves[2..] == [];
      assert Inserted(t, []) == [t];
    }
    assert Huffman(leaves) == [t];
  }

  /** Eight bytes, four of each of two values, compress to a file that unzips to nothing. */
  lemma FullByteCounterexampleFile()
    ensures IsEnumeration([0, 1], [0, 0, 0, 0, 1, 1, 1, 1])
    ensures Compressed([0, 0, 0, 0, 1, 1, 1, 1], [0, 1]).Ok?
    ensures Decompressed(Compressed([0, 0, 0, 0, 1, 1, 1, 1], [0, 1]).value) == Ok([])
  {
    var text: seq<Byte> := [0, 0, 0, 0, 1, 1, 1, 1];
    var order: seq<Byte> := [0, 1];
    assert IsEnumeration(order, text) by {
      assert text[0] == 0 && text[4] == 1;
    }
    var t := Node(8, Leaf(4, 1), Leaf(4, 0));
    assert TreeOf(text, order) == t by {
      ExampleTree();
    }
    assert |EncodingOf(text, order)| == 8 by {
      var cb := GenCodeBook(t);
      assert cb == map[1 := [false], 0 := [true]];
      EncodedUnitCodes(text, cb);
    }
    FullByteLoss(text, order);
  }

  /** With one-bit codes the encoding has one bit per byte. */
  lemma {:induction false} EncodedUnitCodes(text: seq<Byte>, cb: CodeBook)
    requires forall c :: c in cb ==> |cb[c]| == 1
    requires Encoded(text, cb).Ok?
    ensures |Encoded(text, cb).value| == |text|
    decreases |text|
  {
    if text != [] {
      var init := text[..|text| - 1];
      assert text == init + [text[|text| - 1]];
      EncodedUnitCodes(init, cb);
    }
  }

  /** A positive multiple of 8 is at least 8. */
  lemma FullByteLength(n: nat)
    requires n > 0 && n % 8 == 0
    ensures n >= 8
  {
  }

  /** With a single distinct byte the root is a leaf holding it and the encoding is all True. */
  lemma SingleSymbolEncoding(text: seq<Byte>, order: seq<Byte>)
    requires IsEnumeration(order, text) && |text| > 0 && |order| == 1
    ensures TreeOf(text, order).Leaf? && TreeOf(text, order).sym == order[0]
    ensures EncodingOf(text, order) == Repeat(true, |text|)
  {
    CompressedParts(text, order);
    var t := TreeOf(text, order);
    forall c | c in text
      ensures c == t.sym
    {
      assert c in order;
    }
    EncodedLeafRoot(t, text);
  }

  /**
   * With a single distinct byte, unzip writes one copy more than the text has, or
   * seven fewer when the text's length is a multiple of 8.
   */
  lemma SingleSymbol(text: seq<Byte>, order: seq<Byte>)
    requires IsEnumeration(order, text) && |text| > 0 && |order| == 1
    ensures Compressed(text, order).Ok?
    ensures Decompressed(Compressed(text, order).value) ==
      Ok(Repeat(order[0], if |text| % 8 != 0 then |text| + 1 else |text| - 7))
  {
    SingleSymbolEncoding(text, order);
    var t := TreeOf(text, order);
    var enc := Repeat(true, |text|);
    DecompressCompressed(text, order);
    var bits := Unpack(Pack(enc), |enc| % 8);
    if |text| % 8 != 0 {
      assert bits == enc by {
        UnpackPack(enc);
      }
    } else {
      FullByteLength(|enc|);
      assert bits == enc[..|enc| - 8] by {
        UnpackPackFullByte(enc);
      }
    }
    DecodeLeafRoot(Erase(t), bits);
  }

  /** Read as intended, every compressed file unzips to the text it was made from. */
  lemma RoundTripIntended(text: seq<Byte>, order: seq<Byte>)
    requires IsEnumeration(order, text) && |text| > 0
    ensures Compressed(text, order).Ok?
    ensures DecompressedIntended(Compressed(text, order).value) == Ok(text)
  {
    CompressedParts(text, order);
    var t, enc := TreeOf(text, order), EncodingOf(text, order);
    DecompressCompressed(text, order);
    UnpackIntendedPack(enc);
    CodeBookErase(t);
    DecodeEncodeIntended(Erase(t), text);
  }
}
