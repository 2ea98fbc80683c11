/** Machine words, bytes and the small Option wrapper shared by every module.

    The parser works on C++ `uint64_t` addresses and `uint32_t` checksums, so
    the model keeps those widths explicit: `u64` is an integer in [0, 2^64)
    and every sum that can overflow in the source goes through `Wrap64`.
 */
module Words {

  type byte = bv8

  const U64_LIMIT: int := 0x1_0000_0000_0000_0000

  /** A C++ `uint64_t`. */
  type u64 = x: int | 0 <= x < U64_LIMIT

  datatype Option<+T> = None | Some(value: T)

  /** Unsigned 64-bit wrap-around, as `uint64_t` arithmetic does it. */
  function Wrap64(x: int): (r: u64)
    ensures 0 <= x < U64_LIMIT ==> r == x
    ensures U64_LIMIT <= x < 2 * U64_LIMIT ==> r == x - U64_LIMIT
    ensures -U64_LIMIT <= x < 0 ==> r == x + U64_LIMIT
  {
    x % U64_LIMIT
  }

  /** Little-endian 32-bit word read from four bytes of a buffer (the byte
      order of the x86 and AArch64 hosts the tool runs on). */
  function ReadLe32(buf: seq<byte>, off: nat): bv32
    requires off + 4 <= |buf|
  {
    (buf[off] as bv32)
    | ((buf[off + 1] as bv32) << 8)
    | ((buf[off + 2] as bv32) << 16)
    | ((buf[off + 3] as bv32) << 24)
  }

  /** The four bytes a little-endian host stores for `x`. */
  function EncodeLe32(x: bv32): (r: seq<byte>)
    ensures |r| == 4
  {
    [(x & 0xff) as byte, ((x >> 8) & 0xff) as byte,
     ((x >> 16) & 0xff) as byte, ((x >> 24) & 0xff) as byte]
  }

  /** Reading back what a little-endian store wrote yields the same word,
      wherever the four bytes sit in a buffer. */
  lemma ReadEncodeLe32(prefix: seq<byte>, x: bv32, suffix: seq<byte>)
    ensures ReadLe32(prefix + EncodeLe32(x) + suffix, |prefix|) == x
  {
    var buf := prefix + EncodeLe32(x) + suffix;
    var e := EncodeLe32(x);
    assert buf[|prefix|] == e[0] && buf[|prefix| + 1] == e[1];
    assert buf[|prefix| + 2] == e[2] && buf[|prefix| + 3] == e[3];
  }

  /** Four bytes that a little-endian store wrote read back as the word. */
  lemma ReadLe32At(buf: seq<byte>, off: nat, x: bv32)
    requires off + 4 <= |buf| && buf[off..off + 4] == EncodeLe32(x)
    ensures ReadLe32(buf, off) == x
  {
    assert buf == buf[..off] + EncodeLe32(x) + buf[off + 4..];
    ReadEncodeLe32(buf[..off], x, buf[off + 4..]);
  }

  /** A byte of a C string seen as a character of a `std::string`. */
  function ByteToChar(b: byte): (c: char)
    ensures c as int == b as int
  {
    (b as int) as char
  }

  function BytesToString(bs: seq<byte>): (s: string)
    ensures |s| == |bs|
    ensures forall i :: 0 <= i < |bs| ==> s[i] as int == bs[i] as int
  {
    seq(|bs|, i requires 0 <= i < |bs| => ByteToChar(bs[i]))
  }
}
