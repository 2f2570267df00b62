/**
 * Bit packing and unpacking (writeBits and readBits in hzipper.py).
 * Bits are booleans; a byte holds eight of them, most significant first.
 */
module BitStream {
  import opened Common

  function Pow2(k: nat): (p: nat)
    ensures p >= 1
  {
    if k == 0 then 1 else 2 * Pow2(k - 1)
  }

  /** The k low-order binary digits of b, most significant first. */
  function BitsOf(b: nat, k: nat): (r: seq<bool>)
    ensures |r| == k
  {
    if k == 0 then [] else BitsOf(b / 2, k - 1) + [b % 2 == 1]
  }

  /** The number whose binary digits, most significant first, are `bits`. */
  function ValueOf(bits: seq<bool>): (v: nat)
    ensures v < Pow2(|bits|)
  {
    if bits == [] then 0
    else 2 * ValueOf(bits[..|bits| - 1]) + (if bits[|bits| - 1] then 1 else 0)
  }

  /** The eight bits of a byte, most significant first. */
  function ByteBits(b: Byte): (r: seq<bool>)
    ensures |r| == 8
  {
    BitsOf(b, 8)
  }

  /** How many zero bits pad a message of n bits up to a whole number of bytes. */
  function Padding(n: nat): (p: nat)
    ensures p < 8 && (n + p) % 8 == 0
  {
    if n % 8 == 0 then 0 else 8 - n % 8
  }

  /**
   * The bytes writeBits emits for `bits`: eight bits per byte, most significant
   * first, the last byte shifted left so that its unused low bits are zero.
   */
  function Pack(bits: seq<bool>): (r: seq<Byte>)
    ensures |r| == (|bits| + 7) / 8
    decreases |bits|
  {
    if |bits| == 0 then []
    else if |bits| < 8 then
      var padded := bits + Repeat(false, 8 - |bits|);
      assert Pow2(|padded|) == Pow2(8) == 256;
      [ValueOf(padded)]
    else [ValueOf(bits[..8])] + Pack(bits[8..])
  }

  /** Every byte of `data` spelled out as its eight bits, in order. */
  function Expand(data: seq<Byte>): (bits: seq<bool>)
    ensures |bits| == 8 * |data|
  {
    if data == [] then [] else ByteBits(data[0]) + Expand(data[1..])
  }

  /** The length of Python's s[:stop] for a list s of length n (negative stops count from the end). */
  function SliceEnd(n: nat, stop: int): (k: nat)
    ensures k <= n
    ensures 0 <= stop <= n ==> k == stop
  {
    if stop >= n then n
    else if stop >= 0 then stop
    else if n + stop >= 0 then n + stop
    else 0
  }

  /**
   * What readBits returns for the bytes `data` and the count `remainder`: every bit
   * of every byte, then cut to the first 8 * |data| - 8 + remainder of them.
   */
  function Unpack(data: seq<Byte>, remainder: nat): (bits: seq<bool>)
    ensures |bits| <= 8 * |data| && bits == Expand(data)[..|bits|]
    ensures data != [] && remainder <= 8 ==> |bits| == 8 * |data| - 8 + remainder
    ensures data == [] ==> bits == []
  {
    var all := Expand(data);
    all[..SliceEnd(|all|, |all| - 8 + remainder)]
  }

  /**
   * A corrected reading of the trailing-bit count. The writer stores len % 8, which
   * is 0 when the last byte is full, while the documented format assumes r < 8 and
   * keeps 8(n - 1) + r bits. Here r bits of the last byte are message bits, and
   * r = 0 stands for a full last byte, so that reading inverts writing.
   */
  function UnpackIntended(data: seq<Byte>, remainder: nat): (bits: seq<bool>)
    ensures data != [] && remainder < 8 ==>
      |bits| == 8 * |data| - (if remainder == 0 then 0 else 8 - remainder)
  {
    Unpack(data, if remainder == 0 then 8 else remainder)
  }

  // ---------------------------------------------------------------------------
  // Digits of a number

  lemma {:induction false} ValueOfBitsOf(b: nat, k: nat)
    requires b < Pow2(k)
    ensures ValueOf(BitsOf(b, k)) == b
  {
    if k > 0 {
      ValueOfBitsOf(b / 2, k - 1);
      var r := BitsOf(b, k);
      assert r[..k - 1] == BitsOf(b / 2, k - 1);
    }
  }

  lemma {:induction false} BitsOfValueOf(bits: seq<bool>)
    ensures BitsOf(ValueOf(bits), |bits|) == bits
  {
    if bits != [] {
      var n := |bits|;
      BitsOfValueOf(bits[..n - 1]);
      assert ValueOf(bits) / 2 == ValueOf(bits[..n - 1]);
      assert bits == bits[..n - 1] + [bits[n - 1]];
    }
  }

  /** b >> j: b with its j low-order bits shifted out. */
  function ShiftRight(b: nat, j: nat): nat
  {
    if j == 0 then b else ShiftRight(b / 2, j - 1)
  }

  /** Python's a & b on non-negative integers, digit by digit. */
  function BitAnd(a: nat, b: nat): nat
  {
    if a == 0 || b == 0 then 0
    else 2 * BitAnd(a / 2, b / 2) + (if a % 2 == 1 && b % 2 == 1 then 1 else 0)
  }

  /** Masking with 2^j keeps the mask exactly when digit j of b is set. */
  lemma {:induction false} BitAndPow2(b: nat, j: nat)
    ensures (BitAnd(b, Pow2(j)) == Pow2(j)) == (ShiftRight(b, j) % 2 == 1)
  {
    if j > 0 && b > 0 {
      BitAndPow2(b / 2, j - 1);
    } else if j > 0 {
      assert ShiftRight(0, j) == ShiftRight(0, j - 1);
      BitAndPow2(0, j - 1);
    }
  }

  /** Bit i of BitsOf(b, k) is digit k-1-i of b. */
  lemma {:induction false} BitsOfAt(b: nat, k: nat, i: nat)
    requires i < k
    ensures BitsOf(b, k)[i] == (ShiftRight(b, k - 1 - i) % 2 == 1)
  {
    if i < k - 1 {
      BitsOfAt(b / 2, k - 1, i);
    }
  }

  /** b << k: b with k zero digits appended. */
  function ShiftLeft(b: nat, k: nat): nat
  {
    if k == 0 then b else 2 * ShiftLeft(b, k - 1)
  }

  lemma {:induction false} ValueOfZeros(bits: seq<bool>, k: nat)
    ensures ValueOf(bits + Repeat(false, k)) == ShiftLeft(ValueOf(bits), k)
  {
    if k == 0 {
      assert bits + Repeat(false, 0) == bits;
    } else {
      var s := bits + Repeat(false, k);
      ValueOfZeros(bits, k - 1);
      assert s[..|s| - 1] == bits + Repeat(false, k - 1);
    }
  }

  // ---------------------------------------------------------------------------
  // Packing

  lemma {:induction false} PackAppend(a: seq<bool>, c: seq<bool>)
    requires |a| % 8 == 0
    ensures Pack(a + c) == Pack(a) + Pack(c)
    decreases |a|
  {
    if |a| == 0 {
      assert a + c == c;
    } else {
      assert (a + c)[..8] == a[..8];
      assert (a + c)[8..] == a[8..] + c;
      PackAppend(a[8..], c);
    }
  }

  lemma {:induction false} ExpandAppend(a: seq<Byte>, b: seq<Byte>)
    ensures Expand(a + b) == Expand(a) + Expand(b)
  {
    if a == [] {
      assert a + b == b;
    } else {
      assert (a + b)[1..] == a[1..] + b;
      ExpandAppend(a[1..], b);
    }
  }

  /** Unpacking the packed bytes gives back the bits followed by the zero padding. */
  lemma {:induction false} ExpandPack(bits: seq<bool>)
    ensures Expand(Pack(bits)) == bits + Repeat(false, Padding(|bits|))
    decreases |bits|
  {
    var zeros := Repeat(false, Padding(|bits|));
    if |bits| == 0 {
      assert zeros == [];
    } else if |bits| < 8 {
      var padded := bits + Repeat(false, 8 - |bits|);
      var x := ValueOf(padded);
      assert Pack(bits) == [x];
      assert Expand([x]) == padded by {
        BitsOfValueOf(padded);
        assert [x][1..] == [];
      }
      assert padded == bits + zeros by {
        assert Padding(|bits|) == 8 - |bits|;
      }
    } else {
      var v := ValueOf(bits[..8]);
      var rest := Pack(bits[8..]);
      assert Pack(bits) == [v] + rest;
      assert Expand(rest) == bits[8..] + zeros by {
        ExpandPack(bits[8..]);
        assert Padding(|bits| - 8) == Padding(|bits|);
      }
      assert Expand([v] + rest) == bits[..8] + Expand(rest) by {
        BitsOfValueOf(bits[..8]);
        assert ([v] + rest)[1..] == rest;
      }
      assert bits[..8] + (bits[8..] + zeros) == bits + zeros;
    }
  }

  /** The length arithmetic of readBits applied to the output of writeBits. */
  lemma UnpackPackLength(bits: seq<bool>, remainder: nat)
    ensures var all := Expand(Pack(bits));
      all == bits + Repeat(false, Padding(|bits|)) &&
      Unpack(Pack(bits), remainder) == all[..SliceEnd(|bits| + Padding(|bits|), |bits| + Padding(|bits|) - 8 + remainder)]
  {
    ExpandPack(bits);
  }

  /** readBits inverts writeBits when the message does not fill its last byte. */
  lemma UnpackPack(bits: seq<bool>)
    requires |bits| % 8 != 0
    ensures Unpack(Pack(bits), |bits| % 8) == bits
  {
    var n := |bits|;
    UnpackPackLength(bits, n % 8);
    assert Padding(n) == 8 - n % 8;
    assert SliceEnd(n + Padding(n), n + Padding(n) - 8 + n % 8) == n;
  }

  /**
   * With a remainder of 0, a message that fills its last byte comes back without
   * that byte: the last 8 bits are lost.
   */
  lemma UnpackPackFullByte(bits: seq<bool>)
    requires |bits| > 0 && |bits| % 8 == 0
    ensures Unpack(Pack(bits), |bits| % 8) == bits[..|bits| - 8]
  {
    var n := |bits|;
    var all := Expand(Pack(bits));
    assert all == bits by {
      ExpandPack(bits);
      assert Padding(n) == 0;
      assert Repeat(false, 0) == [];
    }
    assert SliceEnd(n, n - 8) == n - 8;
  }

  /** A concrete message that does not survive writeBits then readBits: eight one-bits. */
  lemma FullByteCounterexample()
    ensures Unpack(Pack(Repeat(true, 8)), 8 % 8) == []
  {
    UnpackPackFullByte(Repeat(true, 8));
  }

  /** The default remainder of 8 keeps every bit, padding included (readTree's use). */
  lemma UnpackPackWhole(bits: seq<bool>)
    ensures Unpack(Pack(bits), 8) == bits + Repeat(false, Padding(|bits|))
  {
    var all := Expand(Pack(bits));
    ExpandPack(bits);
    assert all[..SliceEnd(|all|, |all|)] == all;
  }

  /** The intended reading inverts writeBits on every message. */
  lemma UnpackIntendedPack(bits: seq<bool>)
    ensures UnpackIntended(Pack(bits), |bits| % 8) == bits
  {
    var n := |bits|;
    if n % 8 == 0 {
      UnpackPackWhole(bits);
      assert Padding(n) == 0;
    } else {
      UnpackPack(bits);
    }
  }

  // ---------------------------------------------------------------------------
  // The loops of hzipper.py

  /** Masking with the k-th mask from the top yields bit k of the byte. */
  lemma MaskStep(byte: Byte, k: nat)
    requires k < 8
    ensures ByteBits(byte)[..k + 1] == ByteBits(byte)[..k] + [BitAnd(byte, Pow2(7 - k)) == Pow2(7 - k)]
  {
    BitAndPow2(byte, 7 - k);
    BitsOfAt(byte, 8, k);
  }

  /**
   * Appends the bits of `byte`, most significant first, by walking a one-bit mask
   * from 128 down to 1 (the mask loops of readBits and traverse).
   */
  method AppendByteBits(byte: Byte, acc: seq<bool>) returns (out: seq<bool>)
    ensures out == acc + ByteBits(byte)
  {
    out := acc;
    var mask := 128;
    ghost var k := 0;
    assert Pow2(7) == 128;
    while mask > 0
      invariant 0 <= k <= 8
      invariant mask == if k < 8 then Pow2(7 - k) else 0
      invariant out == acc + ByteBits(byte)[..k]
    {
      var bit := BitAnd(byte, mask) == mask;
      MaskStep(byte, k);
      out := out + [bit];
      assert ShiftRight(mask, 1) == mask / 2;
      mask := ShiftRight(mask, 1);
      k := k + 1;
    }
    assert ByteBits(byte)[..8] == ByteBits(byte);
  }

  /** At most eight bits pack into one byte: the bits shifted up to the top of the byte. */
  lemma PackLastByte(chunk: seq<bool>)
    requires 0 < |chunk| <= 8
    ensures ShiftLeft(ValueOf(chunk), 8 - |chunk|) < 256
    ensures Pack(chunk) == [ShiftLeft(ValueOf(chunk), 8 - |chunk|)]
  {
    var v := ShiftLeft(ValueOf(chunk), 8 - |chunk|);
    var padded := chunk + Repeat(false, 8 - |chunk|);
    assert ValueOf(padded) == v && v < 256 by {
      ValueOfZeros(chunk, 8 - |chunk|);
      assert |padded| == 8;
      assert Pow2(8) == 256;
    }
    if |chunk| == 8 {
      assert Pack(chunk) == [v] by {
        assert padded == chunk;
        assert chunk[..8] == chunk;
        assert Pack(chunk[8..]) == [];
      }
    }
  }

  /** One step of writeBits' packing: a chunk of at most 8 bits after whole bytes becomes one byte. */
  lemma PackChunk(done: seq<bool>, chunk: seq<bool>)
    requires |done| % 8 == 0 && 0 < |chunk| <= 8
    ensures ShiftLeft(ValueOf(chunk), 8 - |chunk|) < 256
    ensures Pack(done + chunk) == Pack(done) + [ShiftLeft(ValueOf(chunk), 8 - |chunk|)]
  {
    PackLastByte(chunk);
    PackAppend(done, chunk);
  }

  /** The bytes writeBits has emitted once the bits before `end` are in, `start` being the last byte boundary. */
  lemma WriteBitsStep(bools: seq<bool>, start: nat, end: nat)
    requires start % 8 == 0 && start < end <= |bools| && end - start <= 8
    ensures ShiftLeft(ValueOf(bools[start..end]), 8 - (end - start)) < 256
    ensures Pack(bools[..start]) + [ShiftLeft(ValueOf(bools[start..end]), 8 - (end - start))] == Pack(bools[..end])
  {
    var done, chunk := bools[..start], bools[start..end];
    assert done + chunk == bools[..end];
    PackChunk(done, chunk);
  }

  /** Shifting bit i into the byte that holds bools[start..i] gives the byte holding bools[start..i + 1]. */
  lemma ShiftInBit(bools: seq<bool>, start: nat, i: nat)
    requires start <= i < |bools|
    ensures 2 * ValueOf(bools[start..i]) + (if bools[i] then 1 else 0) == ValueOf(bools[start..i + 1])
  {
    var seg := bools[start..i + 1];
    assert seg[..i - start] == bools[start..i];
    assert seg[i - start] == bools[i];
  }

  /** writeBits' full-byte branch: the eight bits from `start` are one packed byte, and the next byte starts empty. */
  lemma FullByte(bools: seq<bool>, start: nat, i: nat)
    requires start % 8 == 0 && i == start + 8 && i <= |bools|
    ensures ValueOf(bools[start..i]) < 256
    ensures Pack(bools[..start]) + [ValueOf(bools[start..i])] == Pack(bools[..i])
    ensures ValueOf(bools[i..i]) == 0 && i % 8 == 0
  {
    WriteBitsStep(bools, start, i);
    assert bools[i..i] == [];
  }

  /** writeBits' final branch: the last bits shifted up to the top of a byte complete the packing. */
  lemma LastByte(bools: seq<bool>, start: nat, i: nat)
    requires start % 8 == 0 && start < i == |bools| && i - start < 8
    ensures ShiftLeft(ValueOf(bools[start..i]), 8 - (i - start)) < 256
    ensures Pack(bools[..start]) + [ShiftLeft(ValueOf(bools[start..i]), 8 - (i - start))] == Pack(bools[..i])
    ensures bools[..i] == bools
  {
    WriteBitsStep(bools, start, i);
  }

  /** writeBits: packs `bools` into bytes, most significant bit first, zero-padding the last byte. */
  method WriteBits(bools: seq<bool>) returns (out: seq<Byte>)
    ensures out == Pack(bools)
  {
    out := [];
    var bits := 0;
    var byte := 0;
    var i := 0;
    ghost var start := 0;  // where the byte being filled begins
    while i < |bools|
      invariant 0 <= bits < 8 && start <= i <= |bools|
      invariant out == Pack(bools[..start])
      invariant i < |bools| ==> start % 8 == 0 && start + bits == i && byte == ValueOf(bools[start..i])
      invariant i == |bools| ==> start == i
    {
      ShiftInBit(bools, start, i);
      byte := byte * 2;
      if bools[i] {
        byte := byte + 1;
      }
      bits := bits + 1;
      i := i + 1;
      assert byte == ValueOf(bools[start..i]) && bits == i - start;
      if bits >= 8 {
        FullByte(bools, start, i);
        out := out + [byte];
        byte := 0;
        bits := 0;
        start := i;
        assert out == Pack(bools[..start]) && byte == ValueOf(bools[start..i]);
      } else if i == |bools| {
        LastByte(bools, start, i);
        var pad := 8 - bits;
        byte := ShiftLeft(byte, pad);
        out := out + [byte];
        start := i;
        assert out == Pack(bools[..start]);
      }
    }
    assert bools[..start] == bools;
  }

  /** readBits: every byte of `data` as eight bits, cut by the `remainder` count. */
  method ReadBits(data: seq<Byte>, remainder: nat) returns (bools: seq<bool>)
    ensures bools == Unpack(data, remainder)
  {
    bools := [];
    for i := 0 to |data|
      invariant bools == Expand(data[..i])
    {
      bools := AppendByteBits(data[i], bools);
      ExpandAppend(data[..i], [data[i]]);
      assert data[..i + 1] == data[..i] + [data[i]];
    }
    assert data[..|data|] == data;
    bools := bools[..SliceEnd(|bools|, |bools| - 8 + remainder)];
  }
}
