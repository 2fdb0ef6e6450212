/**
  The page codec of the B-tree: how a key or a value is laid out as bytes
  inside a page.

  A fixed-width value is stored as its native little-endian bytes; the model
  instantiates it at `int32_t`, the key type of the tree.  A string is stored
  as an 8-byte (`size_t`) little-endian length followed by its bytes, with no
  terminator.  Decoding a string takes the length from the FIRST byte of the
  prefix only, so strings of 256 bytes or more do not survive a round trip:
  this module models that behaviour as written.
 */
module Codec {

  /** An unsigned byte of page memory. */
  type byte = x: int | 0 <= x < 0x100
  type uint16 = x: int | 0 <= x < 0x1_0000
  type uint32 = x: int | 0 <= x < 0x1_0000_0000
  type int32 = x: int | -0x8000_0000 <= x < 0x8000_0000

  /** `sizeof(size_t)`: the width of a string's length prefix. */
  const SizeOfSizeT: nat := 8
  /** `sizeof(int32_t)`. */
  const SizeOfInt32: nat := 4

  function Pow256(n: nat): (r: nat)
    ensures r > 0
  {
    if n == 0 then 1 else 256 * Pow256(n - 1)
  }

  /** The `n` little-endian bytes of the unsigned number `x`. */
  function LittleEndian(x: nat, n: nat): (r: seq<byte>)
    requires x < Pow256(n)
    ensures |r| == n
  {
    if n == 0 then []
    else
      assert x / 256 < Pow256(n - 1);
      [x % 256] + LittleEndian(x / 256, n - 1)
  }

  /** The unsigned number whose little-endian bytes are `b`. */
  function FromLittleEndian(b: seq<byte>): (r: nat)
    ensures r < Pow256(|b|)
  {
    if b == [] then 0 else b[0] + 256 * FromLittleEndian(b[1..])
  }

  /** Reading back the little-endian bytes of a number gives the number. */
  lemma {:induction false} LittleEndianRoundTrip(x: nat, n: nat)
    requires x < Pow256(n)
    ensures FromLittleEndian(LittleEndian(x, n)) == x
  {
    if n > 0 {
      var b := LittleEndian(x, n);
      assert b[1..] == LittleEndian(x / 256, n - 1);
      LittleEndianRoundTrip(x / 256, n - 1);
    }
  }

  /** Encoding is injective the other way round: bytes are rebuilt from their number. */
  lemma {:induction false} FromLittleEndianRoundTrip(b: seq<byte>)
    ensures LittleEndian(FromLittleEndian(b), |b|) == b
  {
    if b != [] {
      var x := FromLittleEndian(b);
      assert x % 256 == b[0] && x / 256 == FromLittleEndian(b[1..]);
      FromLittleEndianRoundTrip(b[1..]);
    }
  }

  /** The lowest byte of a little-endian encoding is the number modulo 256. */
  lemma LittleEndianFirstByte(x: nat, n: nat)
    requires 0 < n && x < Pow256(n)
    ensures LittleEndian(x, n)[0] == x % 256
  {
  }

  // ----- int32_t -----

  /** `getSerializedSize<int32_t>`: `sizeof(int32_t)`. */
  function SerializedSizeInt(x: int32): nat
  {
    SizeOfInt32
  }

  /** `serialize<int32_t>`: the two's-complement bytes of `x`, little-endian. */
  function SerializeInt(x: int32): (r: seq<byte>)
    ensures |r| == SerializedSizeInt(x)
  {
    LittleEndian(if x < 0 then x + 0x1_0000_0000 else x, SizeOfInt32)
  }

  /**
    `deserialize<int32_t>`: reads the first four bytes at the address.  Every
    four bytes are the encoding of what they read as, so no bit pattern is lost.
   */
  function DeserializeInt(b: seq<byte>): (r: int32)
    requires |b| >= SizeOfInt32
    ensures SerializeInt(r) == b[..SizeOfInt32]
  {
    var u := FromLittleEndian(b[..SizeOfInt32]);
    FromLittleEndianRoundTrip(b[..SizeOfInt32]);
    if u >= 0x8000_0000 then u - 0x1_0000_0000 else u
  }

  /** Whatever follows it in memory, a serialized int32 reads back as itself. */
  lemma IntRoundTrip(x: int32, rest: seq<byte>)
    ensures DeserializeInt(SerializeInt(x) + rest) == x
  {
    var u := if x < 0 then x + 0x1_0000_0000 else x;
    assert (SerializeInt(x) + rest)[..SizeOfInt32] == LittleEndian(u, SizeOfInt32);
    LittleEndianRoundTrip(u, SizeOfInt32);
  }

  // ----- std::string -----

  /** `getSerializedSize<std::string>`: the byte length plus the prefix width. */
  function SerializedSizeString(s: seq<byte>): nat
  {
    |s| + SizeOfSizeT
  }

  /** `serialize<std::string>`: the 8-byte length, then the bytes themselves. */
  function SerializeString(s: seq<byte>): (r: seq<byte>)
    requires |s| < Pow256(SizeOfSizeT)
    ensures |r| == SerializedSizeString(s)
    ensures r[SizeOfSizeT..] == s
    ensures FromLittleEndian(r[..SizeOfSizeT]) == |s|
  {
    var prefix := LittleEndian(|s|, SizeOfSizeT);
    LittleEndianRoundTrip(|s|, SizeOfSizeT);
    assert (prefix + s)[..SizeOfSizeT] == prefix;
    prefix + s
  }

  /** Enough bytes follow the address for `DeserializeString` to read. */
  predicate StringReadable(b: seq<byte>)
  {
    SizeOfSizeT <= |b| && SizeOfSizeT + b[0] <= |b|
  }

  /**
    `deserialize<std::string>`: builds the string from the bytes after the
    prefix, taking its length from the first byte of the prefix (`*addr`).
   */
  function DeserializeString(b: seq<byte>): (r: seq<byte>)
    requires StringReadable(b)
    ensures |r| < 256
    ensures r <= b[SizeOfSizeT..]
  {
    b[SizeOfSizeT .. SizeOfSizeT + b[0]]
  }

  /** A serialized string can always be read back, whatever follows it. */
  lemma StringReadableAfterSerialize(s: seq<byte>, rest: seq<byte>)
    requires |s| < Pow256(SizeOfSizeT)
    ensures StringReadable(SerializeString(s) + rest)
    ensures (SerializeString(s) + rest)[0] == |s| % 256
  {
    LittleEndianFirstByte(|s|, SizeOfSizeT);
  }

  /**
    `getSerializedSize` is the number of bytes `serialize` writes, so adding it
    to an address lands right after the field, on whatever was written next.
   */
  lemma SerializedSizeSkipsField(x: int32, s: seq<byte>, rest: seq<byte>)
    requires |s| < Pow256(SizeOfSizeT)
    ensures (SerializeInt(x) + rest)[SerializedSizeInt(x)..] == rest
    ensures (SerializeString(s) + rest)[SerializedSizeString(s)..] == rest
  {
  }

  /** The round trip returns the string cut to its length modulo 256. */
  lemma StringRoundTrip(s: seq<byte>, rest: seq<byte>)
    requires |s| < Pow256(SizeOfSizeT)
    ensures StringReadable(SerializeString(s) + rest)
    ensures DeserializeString(SerializeString(s) + rest) == s[..|s| % 256]
  {
    StringReadableAfterSerialize(s, rest);
    var b := SerializeString(s) + rest;
    assert b[SizeOfSizeT .. SizeOfSizeT + |s| % 256] == s[..|s| % 256];
  }

  /** The round trip is exact exactly for strings shorter than 256 bytes. */
  lemma StringRoundTripExact(s: seq<byte>, rest: seq<byte>)
    requires |s| < Pow256(SizeOfSizeT)
    ensures StringReadable(SerializeString(s) + rest)
    ensures DeserializeString(SerializeString(s) + rest) == s <==> |s| < 256
  {
    StringRoundTrip(s, rest);
    if |s| >= 256 {
      assert |s[..|s| % 256]| < |s|;
    }
  }
}
