/** zlib's CRC-32 (the ISO 3309 / IEEE 802.3 cyclic redundancy check of section 8 of RFC 1952: reflected
    polynomial 0xEDB88320, register preset to all ones and complemented at the end), and the chunked
    checksum of `_calculate_checksum` (backup.py:220-227). */
module Crc {
  import opened Base
  import opened Hex

  const Polynomial: bv32 := 0xEDB88320

  /** One bit of the shift register: shift right, folding in the polynomial when a one falls out. */
  function ShiftBit(c: bv32): bv32
  {
    if c & 1 == 1 then (c >> 1) ^ Polynomial else c >> 1
  }

  /** Eight bits of the shift register, as RFC 1952's `make_crc_table` runs them for each table entry. */
  function ShiftBits(c: bv32, k: nat): bv32
    decreases k
  {
    if k == 0 then c else ShiftBits(ShiftBit(c), k - 1)
  }

  /** Entry `n` of RFC 1952's `crc_table`. */
  function TableEntry(n: bv32): bv32
  {
    ShiftBits(n, 8)
  }

  /** The register after one more byte: one step of RFC 1952's `update_crc`. */
  function Update(c: bv32, b: byte): bv32
  {
    TableEntry((c ^ (b as bv32)) & 0xFF) ^ (c >> 8)
  }

  /** The register after the bytes of `s`, without the pre- and post-conditioning. */
  function Register(c: bv32, s: seq<byte>): bv32
    decreases |s|
  {
    if s == [] then c else Register(Update(c, s[0]), s[1..])
  }

  /** `zlib.crc32(data, value)`: the running checksum `value` continued over `data`. */
  function Crc32(data: seq<byte>, value: bv32): bv32
  {
    Register(value ^ 0xFFFF_FFFF, data) ^ 0xFFFF_FFFF
  }

  lemma {:induction false} RegisterAppend(c: bv32, a: seq<byte>, b: seq<byte>)
    ensures Register(c, a + b) == Register(Register(c, a), b)
    decreases |a|
  {
    if a == [] {
      assert a + b == b;
    } else {
      assert (a + b)[1..] == a[1..] + b;
      RegisterAppend(Update(c, a[0]), a[1..], b);
    }
  }

  /** Continuing a checksum over more data is the checksum of the concatenation: the property that lets
      `zlib.crc32` be fed in pieces. */
  lemma Crc32Concat(a: seq<byte>, b: seq<byte>, value: bv32)
    ensures Crc32(b, Crc32(a, value)) == Crc32(a + b, value)
  {
    var r := Register(value ^ 0xFFFF_FFFF, a);
    assert Crc32(a, value) ^ 0xFFFF_FFFF == r;
    RegisterAppend(value ^ 0xFFFF_FFFF, a, b);
  }

  /** The CRC of nothing is the running value unchanged; in particular `zlib.crc32(b'') == 0`. */
  lemma Crc32Empty(value: bv32)
    ensures Crc32([], value) == value
  {
  }

  function Flatten(chunks: seq<seq<byte>>): seq<byte>
  {
    if chunks == [] then [] else chunks[0] + Flatten(chunks[1..])
  }

  /** `checksum = zlib.crc32(chunk, checksum)` folded over the chunks. */
  function FoldCrc(chunks: seq<seq<byte>>, acc: bv32): bv32
  {
    if chunks == [] then acc else FoldCrc(chunks[1..], Crc32(chunks[0], acc))
  }

  /** Folding the checksum over consecutive chunks gives the checksum of their concatenation, however
      the content was cut. */
  lemma {:induction false} FoldCrcFlatten(chunks: seq<seq<byte>>, acc: bv32)
    ensures FoldCrc(chunks, acc) == Crc32(Flatten(chunks), acc)
    decreases |chunks|
  {
    if chunks != [] {
      FoldCrcFlatten(chunks[1..], Crc32(chunks[0], acc));
      Crc32Concat(chunks[0], Flatten(chunks[1..]), acc);
    }
  }

  /** The pieces `f.read(size)` returns one after another: `size` bytes each, the last one shorter. */
  function Chunks(content: seq<byte>, size: nat): (chunks: seq<seq<byte>>)
    requires size >= 1
    ensures Flatten(chunks) == content
    ensures forall i :: 0 <= i < |chunks| ==> 1 <= |chunks[i]| <= size
    decreases |content|
  {
    if content == [] then []
    else if |content| <= size then
      assert Flatten([content][1..]) == [];
      [content]
    else
      var rest := Chunks(content[size..], size);
      assert ([content[..size]] + rest)[1..] == rest;
      [content[..size]] + rest
  }

  /** Whatever the chunk size, the chunked checksum is the checksum of the whole content. */
  lemma ChunkSizeIrrelevant(content: seq<byte>, size: nat)
    requires size >= 1
    ensures FoldCrc(Chunks(content, size), 0) == Crc32(content, 0)
  {
    FoldCrcFlatten(Chunks(content, size), 0);
  }

  /** The checksum `_calculate_checksum` reports for a file with this content when it reads it in pieces
      of `chunkSize` bytes: a read of size zero returns nothing and ends the loop at once, a negative
      size reads the rest of the file. */
  function Checksum(content: seq<byte>, chunkSize: int): string
  {
    PyHex(if chunkSize == 0 then 0 else Crc32(content, 0) as nat)
  }

  /** `_calculate_checksum`: read the file a chunk at a time, continue the CRC over each chunk until a
      read comes back empty, render the result with `hex()`. */
  method CalculateChecksum(content: seq<byte>, chunkSize: int) returns (digest: string)
    ensures digest == Checksum(content, chunkSize)
  {
    var checksum: bv32 := 0;
    var pos := 0;
    while true
      invariant 0 <= pos <= |content|
      invariant checksum == (if chunkSize == 0 then 0 else Crc32(content[..pos], 0))
      invariant chunkSize == 0 ==> pos == 0
      decreases |content| - pos
    {
      var n := if chunkSize < 0 || chunkSize > |content| - pos then |content| - pos else chunkSize;
      var chunk := content[pos..pos + n];
      if chunk == [] {
        break;
      }
      Crc32Concat(content[..pos], chunk, 0);
      assert content[..pos] + chunk == content[..pos + n];
      checksum := Crc32(chunk, checksum);
      pos := pos + n;
    }
    assert chunkSize != 0 ==> content[..pos] == content;
    digest := PyHex(checksum as nat);
  }

  /** The check value of the CRC-32 catalogue: the checksum of the ASCII text `123456789`. */
  lemma CheckValue()
    ensures Crc32([0x31, 0x32, 0x33, 0x34, 0x35, 0x36, 0x37, 0x38, 0x39], 0) == 0xCBF43926
  {
    var s: seq<byte> := [0x31, 0x32, 0x33, 0x34, 0x35, 0x36, 0x37, 0x38, 0x39];
    CheckRegisters();
    assert s[0..] == s;
    assert Register(0xFFFF_FFFF, s[0..]) == Register(0x7c231048, s[1..]);
    assert Register(0x7c231048, s[1..]) == Register(0xb0acbb32, s[2..]);
    assert Register(0xb0acbb32, s[2..]) == Register(0x77b79c2d, s[3..]);
    assert Register(0x77b79c2d, s[3..]) == Register(0x641c1f5c, s[4..]);
    assert Register(0x641c1f5c, s[4..]) == Register(0x340ac5e3, s[5..]);
    assert Register(0x340ac5e3, s[5..]) == Register(0xf68d2c9e, s[6..]);
    assert Register(0xf68d2c9e, s[6..]) == Register(0xaffc9660, s[7..]);
    assert Register(0xaffc9660, s[7..]) == Register(0x651f2550, s[8..]);
    assert Register(0x651f2550, s[8..]) == Register(0x340bc6d9, s[9..]);
    assert s[9..] == [];
  }

  /** The register after each byte of `123456789`. */
  lemma CheckRegisters()
    ensures Update(0xFFFF_FFFF, 0x31) == 0x7c231048
    ensures Update(0x7c231048, 0x32) == 0xb0acbb32
    ensures Update(0xb0acbb32, 0x33) == 0x77b79c2d
    ensures Update(0x77b79c2d, 0x34) == 0x641c1f5c
    ensures Update(0x641c1f5c, 0x35) == 0x340ac5e3
    ensures Update(0x340ac5e3, 0x36) == 0xf68d2c9e
    ensures Update(0xf68d2c9e, 0x37) == 0xaffc9660
    ensures Update(0xaffc9660, 0x38) == 0x651f2550
    ensures Update(0x651f2550, 0x39) == 0x340bc6d9
  {
  }
}
