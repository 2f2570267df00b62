/** Values shared by every part of the codec: bytes, and the ways a call can fail. */
module Common {

  /** A byte as the codec handles it: an integer in 0..255 (what struct.pack('<B', _) accepts). */
  type Byte = b: int | 0 <= b < 256

  /** The failures the codec can raise; each names the Python exception site it stands for. */
  datatype Error =
    | EmptyInput             // buildTree: nodes[0] on an empty node list (IndexError)
    | UnknownSymbol(sym: Byte) // encode: codebook[c] for a byte with no code (KeyError)
    | TreeTruncated          // treeFromTraversal: bits.pop(0) on an exhausted list (IndexError)
    | HeaderTruncated        // readTree: struct.unpack('<H', _) on fewer than 2 bytes
    | RemainderMissing       // unzip: struct.unpack('<B', _) on an empty read
    | TreeTooLarge           // writeTree: struct.pack('<H', n) with n > 65535

  datatype Result<T> = Ok(value: T) | Err(error: Error)

  datatype Option<T> = None | Some(value: T)

  /** n copies of x. */
  function Repeat<T>(x: T, n: nat): (r: seq<T>)
    ensures |r| == n
    ensures forall i :: 0 <= i < n ==> r[i] == x
  {
    if n == 0 then [] else Repeat(x, n - 1) + [x]
  }
}
