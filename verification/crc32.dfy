/** Byte-wise CRC registers in general: a register fed front to back by a
    step function, with an involution applied on entry and exit. */
module CrcRegister {
  import opened Words

  /** A register fed with `buf`, front to back, one `step` per byte. */
  function Fold<R>(step: (R, byte) -> R, c: R, buf: seq<byte>): R
    decreases |buf|
  {
    if |buf| == 0 then c else Fold(step, step(c, buf[0]), buf[1..])
  }

  /** A CRC that applies `inv` to the seed on entry and to the register on
      exit, around a byte-wise step. */
  function Crc<R>(step: (R, byte) -> R, inv: R -> R, crc: R, buf: seq<byte>): R
  {
    inv(Fold(step, inv(crc), buf))
  }

  ghost predicate Involution<R(!new)>(inv: R -> R)
  {
    forall x :: inv(inv(x)) == x
  }

  lemma FoldCons<R>(step: (R, byte) -> R, c: R, buf: seq<byte>)
    requires |buf| > 0
    ensures Fold(step, c, buf) == Fold(step, step(c, buf[0]), buf[1..])
  {
  }

  /** Feeding a concatenation is feeding its parts in turn. */
  lemma {:induction false} FoldAppend<R>(step: (R, byte) -> R, c: R, a: seq<byte>, b: seq<byte>)
    ensures Fold(step, c, a + b) == Fold(step, Fold(step, c, a), b)
    decreases |a|
  {
    if |a| == 0 {
      assert a + b == b;
    } else {
      assert (a + b)[0] == a[0];
      assert (a + b)[1..] == a[1..] + b;
      FoldAppend(step, step(c, a[0]), a[1..], b);
    }
  }

  /** With an involution on entry and exit a CRC is resumable: the CRC of
      `a`, fed back as the seed, continues over `b`. */
  lemma CrcChainsFor<R(!new)>(step: (R, byte) -> R, inv: R -> R, crc: R, a: seq<byte>, b: seq<byte>)
    requires Involution(inv)
    ensures Crc(step, inv, Crc(step, inv, crc, a), b) == Crc(step, inv, crc, a + b)
  {
    FoldAppend(step, inv(crc), a, b);
  }

  /** Nothing fed leaves the seed unchanged. */
  lemma CrcOfNothing<R(!new)>(step: (R, byte) -> R, inv: R -> R, crc: R)
    requires Involution(inv)
    ensures Crc(step, inv, crc, []) == crc
  {
  }
}

/** `debugLinkCrc32`, the CRC-32 that the GDB manual's "Separate Debug
    Files" section prescribes for `.gnu_debuglink` files: the reflected
    IEEE 802.3 polynomial 0xEDB88320, driven by a 256-entry table, with the
    running value complemented on entry and on exit (the frame check
    sequence of section 3.2.9 of IEEE 802.3).

    The table is kept exactly as the source spells it, split into sixteen
    rows of sixteen entries, and is proved equal, entry by entry, to the
    table the polynomial generates.
 */
module Crc32 {
  import opened Words
  import opened CrcRegister

  const POLYNOMIAL: bv32 := 0xEDB88320

  /** Row `h` of the source's table: entries 16*h .. 16*h + 15. */
  function TableRow(h: nat): (row: seq<bv32>)
    requires h < 16
    ensures |row| == 16
  {
    match h
    case 0 => [0x00000000, 0x77073096, 0xee0e612c, 0x990951ba, 0x076dc419, 0x706af48f, 0xe963a535, 0x9e6495a3,
              0x0edb8832, 0x79dcb8a4, 0xe0d5e91e, 0x97d2d988, 0x09b64c2b, 0x7eb17cbd, 0xe7b82d07, 0x90bf1d91]
    case 1 => [0x1db71064, 0x6ab020f2, 0xf3b97148, 0x84be41de, 0x1adad47d, 0x6ddde4eb, 0xf4d4b551, 0x83d385c7,
              0x136c9856, 0x646ba8c0, 0xfd62f97a, 0x8a65c9ec, 0x14015c4f, 0x63066cd9, 0xfa0f3d63, 0x8d080df5]
    case 2 => [0x3b6e20c8, 0x4c69105e, 0xd56041e4, 0xa2677172, 0x3c03e4d1, 0x4b04d447, 0xd20d85fd, 0xa50ab56b,
              0x35b5a8fa, 0x42b2986c, 0xdbbbc9d6, 0xacbcf940, 0x32d86ce3, 0x45df5c75, 0xdcd60dcf, 0xabd13d59]
    case 3 => [0x26d930ac, 0x51de003a, 0xc8d75180, 0xbfd06116, 0x21b4f4b5, 0x56b3c423, 0xcfba9599, 0xb8bda50f,
              0x2802b89e, 0x5f058808, 0xc60cd9b2, 0xb10be924, 0x2f6f7c87, 0x58684c11, 0xc1611dab, 0xb6662d3d]
    case 4 => [0x76dc4190, 0x01db7106, 0x98d220bc, 0xefd5102a, 0x71b18589, 0x06b6b51f, 0x9fbfe4a5, 0xe8b8d433,
              0x7807c9a2, 0x0f00f934, 0x9609a88e, 0xe10e9818, 0x7f6a0dbb, 0x086d3d2d, 0x91646c97, 0xe6635c01]
    case 5 => [0x6b6b51f4, 0x1c6c6162, 0x856530d8, 0xf262004e, 0x6c0695ed, 0x1b01a57b, 0x8208f4c1, 0xf50fc457,
              0x65b0d9c6, 0x12b7e950, 0x8bbeb8ea, 0xfcb9887c, 0x62dd1ddf, 0x15da2d49, 0x8cd37cf3, 0xfbd44c65]
    case 6 => [0x4db26158, 0x3ab551ce, 0xa3bc0074, 0xd4bb30e2, 0x4adfa541, 0x3dd895d7, 0xa4d1c46d, 0xd3d6f4fb,
              0x4369e96a, 0x346ed9fc, 0xad678846, 0xda60b8d0, 0x44042d73, 0x33031de5, 0xaa0a4c5f, 0xdd0d7cc9]
    case 7 => [0x5005713c, 0x270241aa, 0xbe0b1010, 0xc90c2086, 0x5768b525, 0x206f85b3, 0xb966d409, 0xce61e49f,
              0x5edef90e, 0x29d9c998, 0xb0d09822, 0xc7d7a8b4, 0x59b33d17, 0x2eb40d81, 0xb7bd5c3b, 0xc0ba6cad]
    case 8 => [0xedb88320, 0x9abfb3b6, 0x03b6e20c, 0x74b1d29a, 0xead54739, 0x9dd277af, 0x04db2615, 0x73dc1683,
              0xe3630b12, 0x94643b84, 0x0d6d6a3e, 0x7a6a5aa8, 0xe40ecf0b, 0x9309ff9d, 0x0a00ae27, 0x7d079eb1]
    case 9 => [0xf00f9344, 0x8708a3d2, 0x1e01f268, 0x6906c2fe, 0xf762575d, 0x806567cb, 0x196c3671, 0x6e6b06e7,
              0xfed41b76, 0x89d32be0, 0x10da7a5a, 0x67dd4acc, 0xf9b9df6f, 0x8ebeeff9, 0x17b7be43, 0x60b08ed5]
    case 10 => [0xd6d6a3e8, 0xa1d1937e, 0x38d8c2c4, 0x4fdff252, 0xd1bb67f1, 0xa6bc5767, 0x3fb506dd, 0x48b2364b,
              0xd80d2bda, 0xaf0a1b4c, 0x36034af6, 0x41047a60, 0xdf60efc3, 0xa867df55, 0x316e8eef, 0x4669be79]
    case 11 => [0xcb61b38c, 0xbc66831a, 0x256fd2a0, 0x5268e236, 0xcc0c7795, 0xbb0b4703, 0x220216b9, 0x5505262f,
              0xc5ba3bbe, 0xb2bd0b28, 0x2bb45a92, 0x5cb36a04, 0xc2d7ffa7, 0xb5d0cf31, 0x2cd99e8b, 0x5bdeae1d]
    case 12 => [0x9b64c2b0, 0xec63f226, 0x756aa39c, 0x026d930a, 0x9c0906a9, 0xeb0e363f, 0x72076785, 0x05005713,
              0x95bf4a82, 0xe2b87a14, 0x7bb12bae, 0x0cb61b38, 0x92d28e9b, 0xe5d5be0d, 0x7cdcefb7, 0x0bdbdf21]
    case 13 => [0x86d3d2d4, 0xf1d4e242, 0x68ddb3f8, 0x1fda836e, 0x81be16cd, 0xf6b9265b, 0x6fb077e1, 0x18b74777,
              0x88085ae6, 0xff0f6a70, 0x66063bca, 0x11010b5c, 0x8f659eff, 0xf862ae69, 0x616bffd3, 0x166ccf45]
    case 14 => [0xa00ae278, 0xd70dd2ee, 0x4e048354, 0x3903b3c2, 0xa7672661, 0xd06016f7, 0x4969474d, 0x3e6e77db,
              0xaed16a4a, 0xd9d65adc, 0x40df0b66, 0x37d83bf0, 0xa9bcae53, 0xdebb9ec5, 0x47b2cf7f, 0x30b5ffe9]
    case 15 => [0xbdbdf21c, 0xcabac28a, 0x53b39330, 0x24b4a3a6, 0xbad03605, 0xcdd70693, 0x54de5729, 0x23d967bf,
              0xb3667a2e, 0xc4614ab8, 0x5d681b02, 0x2a6f2b94, 0xb40bbe37, 0xc30c8ea1, 0x5a05df1b, 0x2d02ef8d]
  }

  /** `crc32_table[i]` */
  function TableEntry(i: byte): bv32
  {
    TableRow((i >> 4) as nat)[(i & 15) as nat]
  }

  /** One shift of the bit-serial reflected CRC register. */
  function ShiftOnce(c: bv32): bv32
  {
    if c & 1 == 1 then (c >> 1) ^ POLYNOMIAL else c >> 1
  }

  /** Eight shifts: the effect of one byte on the register, bit by bit. */
  function ShiftByte(c: bv32): bv32
  {
    ShiftOnce(ShiftOnce(ShiftOnce(ShiftOnce(ShiftOnce(ShiftOnce(ShiftOnce(ShiftOnce(c))))))))
  }

  lemma Row0FromPolynomial(i: byte)
    requires i >> 4 == 0
    ensures TableEntry(i) == ShiftByte(i as bv32)
  {
  }

  lemma Row1FromPolynomial(i: byte)
    requires i >> 4 == 1
    ensures TableEntry(i) == ShiftByte(i as bv32)
  {
  }

  lemma Row2FromPolynomial(i: byte)
    requires i >> 4 == 2
    ensures TableEntry(i) == ShiftByte(i as bv32)
  {
  }

  lemma Row3FromPolynomial(i: byte)
    requires i >> 4 == 3
    ensures TableEntry(i) == ShiftByte(i as bv32)
  {
  }

  lemma Row4FromPolynomial(i: byte)
    requires i >> 4 == 4
    ensures TableEntry(i) == ShiftByte(i as bv32)
  {
  }

  lemma Row5FromPolynomial(i: byte)
    requires i >> 4 == 5
    ensures TableEntry(i) == ShiftByte(i as bv32)
  {
  }

  lemma Row6FromPolynomial(i: byte)
    requires i >> 4 == 6
    ensures TableEntry(i) == ShiftByte(i as bv32)
  {
  }

  lemma Row7FromPolynomial(i: byte)
    requires i >> 4 == 7
    ensures TableEntry(i) == ShiftByte(i as bv32)
  {
  }

  lemma Row8FromPolynomial(i: byte)
    requires i >> 4 == 8
    ensures TableEntry(i) == ShiftByte(i as bv32)
  {
  }

  lemma Row9FromPolynomial(i: byte)
    requires i >> 4 == 9
    ensures TableEntry(i) == ShiftByte(i as bv32)
  {
  }

  lemma Row10FromPolynomial(i: byte)
    requires i >> 4 == 10
    ensures TableEntry(i) == ShiftByte(i as bv32)
  {
  }

  lemma Row11FromPolynomial(i: byte)
    requires i >> 4 == 11
    ensures TableEntry(i) == ShiftByte(i as bv32)
  {
  }

  lemma Row12FromPolynomial(i: byte)
    requires i >> 4 == 12
    ensures TableEntry(i) == ShiftByte(i as bv32)
  {
  }

  lemma Row13FromPolynomial(i: byte)
    requires i >> 4 == 13
    ensures TableEntry(i) == ShiftByte(i as bv32)
  {
  }

  lemma Row14FromPolynomial(i: byte)
    requires i >> 4 == 14
    ensures TableEntry(i) == ShiftByte(i as bv32)
  {
  }

  lemma Row15FromPolynomial(i: byte)
    requires i >> 4 == 15
    ensures TableEntry(i) == ShiftByte(i as bv32)
  {
  }

  /** Every entry of the source's table is the polynomial's own entry. */
  lemma TableFromPolynomial(i: byte)
    ensures TableEntry(i) == ShiftByte(i as bv32)
  {
    match (i >> 4) as nat
    case 0 => Row0FromPolynomial(i);
    case 1 => Row1FromPolynomial(i);
    case 2 => Row2FromPolynomial(i);
    case 3 => Row3FromPolynomial(i);
    case 4 => Row4FromPolynomial(i);
    case 5 => Row5FromPolynomial(i);
    case 6 => Row6FromPolynomial(i);
    case 7 => Row7FromPolynomial(i);
    case 8 => Row8FromPolynomial(i);
    case 9 => Row9FromPolynomial(i);
    case 10 => Row10FromPolynomial(i);
    case 11 => Row11FromPolynomial(i);
    case 12 => Row12FromPolynomial(i);
    case 13 => Row13FromPolynomial(i);
    case 14 => Row14FromPolynomial(i);
    case 15 => Row15FromPolynomial(i);
  }
  /** The table's entry 128 is the polynomial itself. */
  lemma TableEntry128IsPolynomial()
    ensures TableEntry(128) == POLYNOMIAL
  {
  }

  /** `crc = crc32_table[(crc ^ *buf) & 0xff] ^ (crc >> 8)` */
  function TableStep(c: bv32, b: byte): bv32
  {
    TableEntry(((c ^ (b as bv32)) & 0xff) as byte) ^ (c >> 8)
  }

  function Complement(x: bv32): bv32
  {
    !x
  }

  lemma ComplementIsInvolution()
    ensures Involution(Complement)
  {
    forall x: bv32 ensures Complement(Complement(x)) == x {
      ComplementTwice(x);
    }
  }

  lemma ComplementTwice(x: bv32)
    ensures !(!x) == x
  {
  }

  /** `debugLinkCrc32(crc, buf, len)`: complement on entry, the table loop,
      complement on exit. */
  function DebugLinkCrc32(crc: bv32, buf: seq<byte>): bv32
  {
    Crc(TableStep, Complement, crc, buf)
  }

  /** The loop of the source, over a byte sequence instead of a pointer pair. */
  method ComputeDebugLinkCrc32(crc: bv32, buf: seq<byte>) returns (r: bv32)
    ensures r == DebugLinkCrc32(crc, buf)
  {
    var c := !crc;
    var i := 0;
    while i < |buf|
      invariant 0 <= i <= |buf|
      invariant Fold(TableStep, c, buf[i..]) == Fold(TableStep, !crc, buf)
    {
      assert buf[i..][1..] == buf[i + 1..];
      c := TableStep(c, buf[i]);
      i := i + 1;
    }
    r := !c;
  }

  /** The CRC of nothing is its seed. */
  lemma CrcOfEmpty(crc: bv32)
    ensures DebugLinkCrc32(crc, []) == crc
  {
    ComplementIsInvolution();
    CrcOfNothing(TableStep, Complement, crc);
  }

  /** The CRC of `a`, fed back as the seed, continues over `b`: a file can
      be checksummed in pieces. */
  lemma CrcChaining(crc: bv32, a: seq<byte>, b: seq<byte>)
    ensures DebugLinkCrc32(DebugLinkCrc32(crc, a), b) == DebugLinkCrc32(crc, a + b)
  {
    ComplementIsInvolution();
    CrcChainsFor(TableStep, Complement, crc, a, b);
  }

  /** The register after each of the nine digits "123456789". */
  lemma CheckSteps()
    ensures TableStep(0xffffffff, 0x31) == 0x7c231048
    ensures TableStep(0x7c231048, 0x32) == 0xb0acbb32
    ensures TableStep(0xb0acbb32, 0x33) == 0x77b79c2d
    ensures TableStep(0x77b79c2d, 0x34) == 0x641c1f5c
    ensures TableStep(0x641c1f5c, 0x35) == 0x340ac5e3
    ensures TableStep(0x340ac5e3, 0x36) == 0xf68d2c9e
    ensures TableStep(0xf68d2c9e, 0x37) == 0xaffc9660
    ensures TableStep(0xaffc9660, 0x38) == 0x651f2550
    ensures TableStep(0x651f2550, 0x39) == 0x340bc6d9
  {
  }

  /** The standard check value of this CRC: the ASCII digits "123456789"
      give 0xCBF43926. */
  lemma CrcCheckValue()
    ensures DebugLinkCrc32(0, [0x31, 0x32, 0x33, 0x34, 0x35, 0x36, 0x37, 0x38, 0x39]) == 0xCBF43926
  {
    var s: seq<byte> := [0x31, 0x32, 0x33, 0x34, 0x35, 0x36, 0x37, 0x38, 0x39];
    CheckSteps();
    FoldCons(TableStep, 0xffffffff, s);
    FoldCons(TableStep, 0x7c231048, s[1..]);
    FoldCons(TableStep, 0xb0acbb32, s[2..]);
    FoldCons(TableStep, 0x77b79c2d, s[3..]);
    FoldCons(TableStep, 0x641c1f5c, s[4..]);
    FoldCons(TableStep, 0x340ac5e3, s[5..]);
    FoldCons(TableStep, 0xf68d2c9e, s[6..]);
    FoldCons(TableStep, 0xaffc9660, s[7..]);
    FoldCons(TableStep, 0x651f2550, s[8..]);
    assert s[8..][1..] == [];
  }
}
