/** The PNG encoder of evals/rpc.eval.ts and a strict reader for what it writes.

    The encoder fills buffers in place, as the source does; the reader follows sections 3.1,
    3.2, 4.1.1 and 6.2 of RFC 2083.  The deflater is a parameter. */
module Png {
  import opened Words
  import opened Checksum
  import CrcPolynomial

  datatype Error = RangeError | BadSignature | Truncated | TooLong | BadCrc | BadFilter | BadHeader
                 | BadLayout
  datatype Result<+T> = Ok(value: T) | Err(error: Error)

  // ---------------------------------------------------------------------------
  // Big-endian numbers
  // ---------------------------------------------------------------------------

  function EncodeU32(v: word): (b: seq<byte>)
    ensures |b| == 4
  {
    var v1 := v / 256;
    var v2 := v1 / 256;
    [(v2 / 256) as byte, (v2 % 256) as byte, (v1 % 256) as byte, (v % 256) as byte]
  }

  function DecodeU32(b: seq<byte>): (v: word)
    requires |b| == 4
  {
    var v2 := b[0] as nat * 256 + b[1] as nat;
    var v1 := v2 * 256 + b[2] as nat;
    v1 * 256 + b[3] as nat
  }

  /** The most significant byte comes first. */
  lemma BigEndian(v: word)
    ensures var b := EncodeU32(v);
            v == b[0] as nat * 0x100_0000 + b[1] as nat * 0x1_0000 + b[2] as nat * 0x100 + b[3] as nat
  {}

  lemma DecodeEncode(v: word)
    ensures DecodeU32(EncodeU32(v)) == v
  {}

  lemma EncodeDecode(b: seq<byte>)
    requires |b| == 4
    ensures EncodeU32(DecodeU32(b)) == b
  {
    var v2 := b[0] as nat * 256 + b[1] as nat;
    var v1 := v2 * 256 + b[2] as nat;
    var v := v1 * 256 + b[3] as nat;
    assert v / 256 == v1 && v1 / 256 == v2 && v2 / 256 == b[0] as nat;
    assert v % 256 == b[3] as nat && v1 % 256 == b[2] as nat && v2 % 256 == b[1] as nat;
    assert EncodeU32(v) == [b[0], b[1], b[2], b[3]];
  }

  /** `Buffer.writeUInt32BE`: refuses a value that does not fit and then leaves the buffer. */
  method WriteUInt32BE(buf: array<byte>, value: nat, offset: nat) returns (ok: bool)
    requires offset + 4 <= buf.Length
    modifies buf
    ensures ok == (value < WORD_LIMIT)
    ensures ok ==> buf[..] == old(buf[..offset]) + EncodeU32(value) + old(buf[offset + 4..])
    ensures !ok ==> buf[..] == old(buf[..])
  {
    if value >= WORD_LIMIT {
      return false;
    }
    var bytes := EncodeU32(value);
    buf[offset], buf[offset + 1] := bytes[0], bytes[1];
    buf[offset + 2], buf[offset + 3] := bytes[2], bytes[3];
    return true;
  }

  // ---------------------------------------------------------------------------
  // Chunks
  // ---------------------------------------------------------------------------

  type Tag = t: seq<byte> | |t| == 4 witness [0, 0, 0, 0]
  datatype Chunk = Chunk(tag: Tag, data: seq<byte>)

  const IHDR: Tag := [73, 72, 68, 82]
  const IDAT: Tag := [73, 68, 65, 84]
  const IEND: Tag := [73, 69, 78, 68]
  const SIGNATURE: seq<byte> := [0x89, 0x50, 0x4e, 0x47, 0x0d, 0x0a, 0x1a, 0x0a]

  /** The longest data field section 3.2 of RFC 2083 permits. */
  const MAX_DATA: nat := 0x7fff_ffff

  lemma CrcFits(data: seq<byte>)
    ensures BitSerial(data) < WORD_LIMIT
  {
    FeedFits(ALL_ONES, Bits(data));
    XorIsWord(Feed(ALL_ONES, Bits(data)), ALL_ONES);
  }

  lemma {:induction false} FeedFits(reg: word, bits: seq<bool>)
    ensures Feed(reg, bits) < WORD_LIMIT
    decreases bits
  {
    if bits != [] {
      var c := Xor(reg, BitWord(bits[0]));
      XorIsWord(reg, BitWord(bits[0]));
      XorIsWord(Feedback(Odd(c)), c / 2);
      FeedFits(Step(c), bits[1..]);
    }
  }

  ghost function ChecksumOf(data: seq<byte>): word {
    CrcFits(data);
    BitSerial(data)
  }

  ghost function EncodeChunk(c: Chunk): seq<byte>
    requires |c.data| < WORD_LIMIT
  {
    EncodeU32(|c.data|) + c.tag + c.data + EncodeU32(ChecksumOf(c.tag + c.data))
  }

  method PngChunk(table: array<word>, tag: Tag, data: seq<byte>) returns (r: Result<seq<byte>>)
    requires IsCrcTable(table[..])
    ensures |data| < WORD_LIMIT ==> r == Ok(EncodeChunk(Chunk(tag, data)))
    ensures |data| >= WORD_LIMIT ==> r == Err(RangeError)
  {
    hide EncodeU32, IsCrcTable, BitSerial;
    var length := new byte[4];
    var fits := WriteUInt32BE(length, |data|, 0);
    if !fits {
      return Err(RangeError);
    }
    var sum := Crc32(table, tag + data);
    var crc := new byte[4];
    fits := WriteUInt32BE(crc, sum, 0);
    assert length[..] == EncodeU32(|data|) && crc[..] == EncodeU32(sum);
    return Ok(length[..] + tag + data + crc[..]);
  }

  /** Read one chunk and return it with the bytes after it. */
  ghost function ReadChunk(b: seq<byte>): Result<(Chunk, seq<byte>)> {
    if |b| < 12 then Err(Truncated) else
    var n := DecodeU32(b[..4]);
    if n > MAX_DATA then Err(TooLong)
    else if |b| < 12 + n then Err(Truncated)
    else if DecodeU32(b[8 + n..12 + n]) != ChecksumOf(b[4..8] + b[8..8 + n]) then Err(BadCrc)
    else Ok((Chunk(b[4..8], b[8..8 + n]), b[12 + n..]))
  }

  ghost function ReadChunks(b: seq<byte>): Result<seq<Chunk>> {
    if b == [] then Ok([]) else
    match ReadChunk(b)
    case Err(e) => Err(e)
    case Ok((c, rest)) =>
      match ReadChunks(rest)
      case Err(e) => Err(e)
      case Ok(cs) => Ok([c] + cs)
  }

  /** The strict reader: every byte belongs to the signature or to a sound chunk. */
  ghost function ReadPng(b: seq<byte>): Result<seq<Chunk>> {
    if SIGNATURE <= b then ReadChunks(b[8..]) else Err(BadSignature)
  }

  ghost predicate Readable(cs: seq<Chunk>) { forall c | c in cs :: |c.data| <= MAX_DATA }

  ghost function EncodeChunks(cs: seq<Chunk>): seq<byte>
    requires Readable(cs)
  {
    if cs == [] then [] else EncodeChunk(cs[0]) + EncodeChunks(cs[1..])
  }

  /** How the reader takes a chunk apart. */
  lemma ReadFields(length: seq<byte>, tag: Tag, data: seq<byte>, crc: seq<byte>, rest: seq<byte>)
    requires |length| == |crc| == 4 && DecodeU32(length) == |data|
    ensures ReadChunk(length + tag + data + crc + rest)
         == if |data| > MAX_DATA then Err(TooLong)
            else if DecodeU32(crc) != ChecksumOf(tag + data) then Err(BadCrc)
            else Ok((Chunk(tag, data), rest))
  {
    hide DecodeU32, ChecksumOf;
    var b, n := length + tag + data + crc + rest, |data|;
    assert b[..4] == length && b[4..8] == tag && b[8..8 + n] == data;
    assert b[8 + n..12 + n] == crc && b[12 + n..] == rest;
  }

  lemma ReadEncodedChunk(c: Chunk, rest: seq<byte>)
    requires |c.data| < WORD_LIMIT
    ensures ReadChunk(EncodeChunk(c) + rest)
         == if |c.data| <= MAX_DATA then Ok((c, rest)) else Err(TooLong)
  {
    hide EncodeU32, DecodeU32, ChecksumOf, ReadChunk;
    var sum := ChecksumOf(c.tag + c.data);
    DecodeEncode(|c.data|);
    DecodeEncode(sum);
    ReadFields(EncodeU32(|c.data|), c.tag, c.data, EncodeU32(sum), rest);
  }

  lemma ReadChunkIsExact(b: seq<byte>, c: Chunk, rest: seq<byte>)
    requires ReadChunk(b) == Ok((c, rest))
    ensures |c.data| <= MAX_DATA && b == EncodeChunk(c) + rest
  {
    hide EncodeU32, DecodeU32, ChecksumOf;
    var n := |c.data|;
    EncodeDecode(b[..4]);
    EncodeDecode(b[8 + n..12 + n]);
    assert b == b[..4] + b[4..8] + b[8..8 + n] + b[8 + n..12 + n] + b[12 + n..];
  }

  lemma {:induction false} ReadEncodedChunks(cs: seq<Chunk>)
    requires Readable(cs)
    ensures ReadChunks(EncodeChunks(cs)) == Ok(cs)
  {
    if cs != [] {
      ReadEncodedChunk(cs[0], EncodeChunks(cs[1..]));
      ReadEncodedChunks(cs[1..]);
      assert cs == [cs[0]] + cs[1..];
    }
  }

  lemma {:induction false} ReadChunksIsExact(b: seq<byte>, cs: seq<Chunk>)
    requires ReadChunks(b) == Ok(cs)
    ensures Readable(cs) && b == EncodeChunks(cs)
    decreases |b|
  {
    if b != [] {
      var (c, rest) := ReadChunk(b).value;
      ReadChunkIsExact(b, c, rest);
      ReadChunksIsExact(rest, cs[1..]);
      assert cs == [c] + cs[1..];
    }
  }

  /** Writer and reader are inverse to each other: a file has one reading, a chunk list one
      encoding, and nothing but an encoding is accepted. */
  lemma ReaderInvertsWriter(b: seq<byte>, cs: seq<Chunk>)
    ensures ReadPng(b) == Ok(cs) <==> Readable(cs) && b == SIGNATURE + EncodeChunks(cs)
  {
    if ReadPng(b) == Ok(cs) {
      ReadChunksIsExact(b[8..], cs);
      assert b == SIGNATURE + b[8..];
    }
    if Readable(cs) && b == SIGNATURE + EncodeChunks(cs) {
      assert b[8..] == EncodeChunks(cs);
      ReadEncodedChunks(cs);
    }
  }

  /** A burst of up to 32 bits in a chunk's type or data no longer matches the stored CRC. */
  lemma BurstInChunkRejected(c: Chunk, got: Chunk, start: int, rest: seq<byte>)
    requires |got.data| == |c.data| <= MAX_DATA && got != c
    requires forall i | 0 <= i < 8 * (4 + |c.data|)
               && Bits(c.tag + c.data)[i] != Bits(got.tag + got.data)[i] :: start <= i < start + 32
    ensures ReadChunk(EncodeU32(|c.data|) + got.tag + got.data
                      + EncodeU32(ChecksumOf(c.tag + c.data)) + rest) == Err(BadCrc)
  {
    var sum := ChecksumOf(c.tag + c.data);
    assert c.tag == (c.tag + c.data)[..4] && got.tag == (got.tag + got.data)[..4];
    assert c.data == (c.tag + c.data)[4..] && got.data == (got.tag + got.data)[4..];
    CrcPolynomial.BurstDetected(c.tag + c.data, got.tag + got.data, start);
    hide EncodeU32, DecodeU32, BitSerial, ReadChunk;
    DecodeEncode(|c.data|);
    DecodeEncode(sum);
    ReadFields(EncodeU32(|c.data|), got.tag, got.data, EncodeU32(sum), rest);
  }

  // ---------------------------------------------------------------------------
  // Scanlines
  // ---------------------------------------------------------------------------

  datatype Pixel = Pixel(red: byte, green: byte, blue: byte)

  const RED := Pixel(220, 30, 30)

  function Stride(size: nat): nat { 1 + size * 3 }

  function RowStart(y: nat, stride: nat): nat { y * stride }

  function PixelBytes(n: nat): (b: seq<byte>)
    ensures |b| == n * 3
  {
    if n == 0 then [] else PixelBytes(n - 1) + [RED.red, RED.green, RED.blue]
  }

  /** `count` scanlines of `width` red pixels, each behind a filter byte of 0. */
  function Scanlines(width: nat, count: nat): (b: seq<byte>) {
    if count == 0 then [] else [0] + PixelBytes(width) + Scanlines(width, count - 1)
  }

  lemma {:induction false} ScanlinesLength(width: nat, count: nat)
    ensures |Scanlines(width, count)| == RowStart(count, Stride(width))
  {
    if count > 0 {
      ScanlinesLength(width, count - 1);
      NextRowStart(count - 1, Stride(width));
    }
  }

  lemma NextRowStart(n: nat, stride: nat)
    ensures RowStart(n + 1, stride) == RowStart(n, stride) + stride
    ensures RowStart(0, stride) == 0
  {}

  lemma {:induction false} PixelAt(n: nat, x: nat)
    requires x < n
    ensures var b := PixelBytes(n);
            Pixel(b[3 * x], b[3 * x + 1], b[3 * x + 2]) == RED
  {
    if x < n - 1 {
      PixelAt(n - 1, x);
    }
  }

  /** The bytes of one scanline, at their offsets in the whole buffer. */
  lemma {:induction false} ScanlineAt(width: nat, count: nat, y: nat, x: nat)
    requires y < count
    ensures RowStart(y, Stride(width)) + Stride(width) <= |Scanlines(width, count)|
    ensures Scanlines(width, count)[RowStart(y, Stride(width))] == 0
    ensures x < width ==>
              RedAt(Scanlines(width, count), RowStart(y, Stride(width)) + 1 + x * 3)
    decreases count
  {
    hide RowStart, PixelBytes;
    var raw, rest := Scanlines(width, count), Scanlines(width, count - 1);
    var line := [0] + PixelBytes(width);
    assert raw == line + rest;
    hide Scanlines;
    if y == 0 {
      NextRowStart(0, Stride(width));
      if x < width {
        PixelAt(width, x);
        assert RedAt(line, 1 + x * 3);
      }
    } else {
      NextRowStart(y - 1, Stride(width));
      ScanlineAt(width, count - 1, y - 1, x);
      LaterRow(line, rest, RowStart(y - 1, Stride(width)), RowStart(y - 1, Stride(width)) + 1 + x * 3);
    }
  }

  lemma LaterRow(line: seq<byte>, rest: seq<byte>, i: nat, k: nat)
    ensures i < |rest| ==> (line + rest)[|line| + i] == rest[i]
    ensures RedAt(rest, k) ==> RedAt(line + rest, |line| + k)
  {}

  ghost predicate RedAt(raw: seq<byte>, i: nat) {
    i + 2 < |raw| && Pixel(raw[i], raw[i + 1], raw[i + 2]) == RED
  }

  /** Each offset up to the length once, in order. */
  ghost predicate InOrder(offsets: seq<nat>) {
    forall k | 0 <= k < |offsets| :: offsets[k] == k
  }

  lemma InOrderNone()
    ensures InOrder([])
  {}

  lemma InOrderNext(offsets: seq<nat>, n: nat)
    requires InOrder(offsets) && |offsets| == n
    ensures InOrder(offsets + [n]) && InOrder(offsets + [n, n + 1, n + 2])
  {}

  /** The two nested loops: every write is in bounds and every byte is determined, whatever
      the buffer held before.  `written` logs the offsets: each is written once, in order. */
  method FillScanlines(size: nat) returns (raw: array<byte>, ghost written: seq<nat>)
    ensures fresh(raw)
    ensures raw[..] == Scanlines(size, size)
    ensures |written| == raw.Length && InOrder(written)
  {
    hide InOrder;
    var stride := Stride(size);
    ghost var picture := Scanlines(size, size);
    ScanlinesLength(size, size);
    raw := new byte[RowStart(size, stride)];
    written := [];
    InOrderNone();
    NextRowStart(0, stride);
    for y := 0 to size
      invariant |written| == RowStart(y, stride) && InOrder(written)
      invariant forall i | 0 <= i < RowStart(y, stride) :: i < |picture| && raw[i] == picture[i]
    {
      var rowStart := RowStart(y, stride);
      ScanlineAt(size, size, y, 0);
      NextRowStart(y, stride);
      raw[rowStart] := 0;
      InOrderNext(written, rowStart);
      written := written + [rowStart];
      for x := 0 to size
        invariant |written| == rowStart + 1 + x * 3 && InOrder(written)
        invariant forall i | 0 <= i < rowStart + 1 + x * 3 :: raw[i] == picture[i]
      {
        var offset := rowStart + 1 + x * 3;
        ScanlineAt(size, size, y, x);
        raw[offset] := 220;
        raw[offset + 1] := 30;
        raw[offset + 2] := 30;
        InOrderNext(written, offset);
        written := written + [offset, offset + 1, offset + 2];
      }
    }
  }

  /** Undo the filtering of an 8-bit truecolour image (section 6.2 of RFC 2083), for scanlines
      whose filter byte is 0. */
  function Unfilter(raw: seq<byte>, width: nat, height: nat): Result<seq<seq<Pixel>>>
    decreases height
  {
    if height == 0 then (if raw == [] then Ok([]) else Err(TooLong))
    else if |raw| < Stride(width) then Err(Truncated)
    else if raw[0] != 0 then Err(BadFilter)
    else
      match Unfilter(raw[Stride(width)..], width, height - 1)
      case Err(e) => Err(e)
      case Ok(rows) =>
        Ok([seq(width, x requires 0 <= x < width =>
                  Pixel(raw[1 + 3 * x], raw[2 + 3 * x], raw[3 + 3 * x]))] + rows)
  }

  function Solid(width: nat, height: nat, p: Pixel): seq<seq<Pixel>> {
    seq(height, y => seq(width, x => p))
  }

  lemma FirstScanline(raw: seq<byte>, width: nat, rest: seq<byte>)
    requires raw == [0] + PixelBytes(width) + rest
    ensures |raw| >= Stride(width) && raw[0] == 0 && raw[Stride(width)..] == rest
    ensures seq(width, x requires 0 <= x < width =>
                  Pixel(raw[1 + 3 * x], raw[2 + 3 * x], raw[3 + 3 * x])) == seq(width, x => RED)
  {
    var line := PixelBytes(width);
    hide PixelBytes;
    forall x: nat | x < width ensures Pixel(raw[1 + 3 * x], raw[2 + 3 * x], raw[3 + 3 * x]) == RED {
      PixelAt(width, x);
      assert raw[1 + 3 * x] == line[3 * x] && raw[2 + 3 * x] == line[3 * x + 1];
      assert raw[3 + 3 * x] == line[3 * x + 2];
    }
  }

  lemma {:induction false} ScanlinesAreRed(width: nat, height: nat)
    ensures Unfilter(Scanlines(width, height), width, height) == Ok(Solid(width, height, Pixel(220, 30, 30)))
    decreases height
  {
    if height > 0 {
      hide PixelBytes, Stride;
      FirstScanline(Scanlines(width, height), width, Scanlines(width, height - 1));
      ScanlinesAreRed(width, height - 1);
      assert Solid(width, height, RED)
          == [seq(width, x => RED)] + Solid(width, height - 1, RED);
    }
  }

  // ---------------------------------------------------------------------------
  // The whole file
  // ---------------------------------------------------------------------------

  datatype Header = Header(width: nat, height: nat, depth: byte, colour: byte,
                           compression: byte, filter: byte, interlace: byte)

  /** The combinations of bit depth and colour type that section 4.1.1 of RFC 2083 allows. */
  predicate DepthFits(depth: byte, colour: byte) {
    match colour
    case 0 => depth in {1, 2, 4, 8, 16}
    case 3 => depth in {1, 2, 4, 8}
    case 2 => depth in {8, 16}
    case 4 => depth in {8, 16}
    case 6 => depth in {8, 16}
    case _ => false
  }

  /** The IHDR fields of section 4.1.1 of RFC 2083: a dimension is neither zero nor over the
      limit, and the codes are defined ones. */
  function DecodeHeader(data: seq<byte>): Result<Header> {
    if |data| != 13 then Err(Truncated) else
    var h := Header(DecodeU32(data[..4]), DecodeU32(data[4..8]),
                    data[8], data[9], data[10], data[11], data[12]);
    if 1 <= h.width <= MAX_DATA && 1 <= h.height <= MAX_DATA && DepthFits(h.depth, h.colour)
       && h.compression == 0 && h.filter == 0 && h.interlace <= 1
    then Ok(h)
    else Err(BadHeader)
  }

  /** Read a whole file of the kind written here: one image header for 8-bit truecolour without
      interlacing, one data chunk, an empty end chunk. */
  ghost function ReadPicture(b: seq<byte>, inflate: seq<byte> -> seq<byte>)
    : Result<seq<seq<Pixel>>>
  {
    match ReadPng(b)
    case Err(e) => Err(e)
    case Ok(cs) => PictureOf(cs, inflate)
  }

  ghost function PictureOf(cs: seq<Chunk>, inflate: seq<byte> -> seq<byte>)
    : Result<seq<seq<Pixel>>>
  {
    if |cs| != 3 || cs[0].tag != IHDR || cs[1].tag != IDAT || cs[2] != Chunk(IEND, [])
    then Err(BadLayout)
    else
      match DecodeHeader(cs[0].data)
      case Err(e) => Err(e)
      case Ok(h) =>
        if (h.depth, h.colour, h.interlace) != (8, 2, 0) then Err(BadLayout)
        else Unfilter(inflate(cs[1].data), h.width, h.height)
  }

  function HeaderData(size: word): seq<byte> {
    EncodeU32(size) + EncodeU32(size) + [8, 2, 0, 0, 0]
  }

  ghost function RedChunks(size: word, idat: seq<byte>): seq<Chunk> {
    [Chunk(IHDR, HeaderData(size)), Chunk(IDAT, idat), Chunk(IEND, [])]
  }

  ghost function FileBytes(size: word, idat: seq<byte>): seq<byte>
    requires |idat| < WORD_LIMIT
  {
    SIGNATURE + EncodeChunk(Chunk(IHDR, HeaderData(size))) + EncodeChunk(Chunk(IDAT, idat))
      + EncodeChunk(Chunk(IEND, []))
  }

  /** The bytes of one chunk. */
  lemma ChunkExact(tag: Tag, data: seq<byte>, length: seq<byte>, body: seq<byte>)
    requires |data| < WORD_LIMIT && length == EncodeU32(|data|) && body == tag + data
    ensures EncodeChunk(Chunk(tag, data)) == length + body + EncodeU32(ChecksumOf(body))
  {
    hide EncodeU32, ChecksumOf;
    assert length + tag + data == length + body;
  }

  /** The file, byte for byte: signature, image header, image data, image trailer. */
  lemma FileExact(size: word, idat: seq<byte>)
    requires |idat| < WORD_LIMIT
    ensures FileBytes(size, idat)
         == [0x89, 0x50, 0x4e, 0x47, 0x0d, 0x0a, 0x1a, 0x0a]
          + ([0, 0, 0, 13] + HeaderBytes(size) + EncodeU32(ChecksumOf(HeaderBytes(size))))
          + (EncodeU32(|idat|) + ([73, 68, 65, 84] + idat)
             + EncodeU32(ChecksumOf([73, 68, 65, 84] + idat)))
          + ([0, 0, 0, 0] + [73, 69, 78, 68] + EncodeU32(ChecksumOf([73, 69, 78, 68])))
  {
    SmallLengths();
    hide EncodeU32, ChecksumOf, EncodeChunk;
    var data := HeaderData(size);
    assert IHDR + data == HeaderBytes(size);
    ChunkExact(IHDR, data, [0, 0, 0, 13], HeaderBytes(size));
    ChunkExact(IDAT, idat, EncodeU32(|idat|), [73, 68, 65, 84] + idat);
    assert IEND + [] == [73, 69, 78, 68];
    ChunkExact(IEND, [], [0, 0, 0, 0], [73, 69, 78, 68]);
    hide *;
  }

  lemma SmallLengths()
    ensures EncodeU32(13) == [0, 0, 0, 13] && EncodeU32(0) == [0, 0, 0, 0]
  {}

  /** Type and data of the image header chunk. */
  ghost function HeaderBytes(size: word): seq<byte> {
    [73, 72, 68, 82] + EncodeU32(size) + EncodeU32(size) + [8, 2, 0, 0, 0]
  }

  /** The encoder up to its base64 step. */
  method BuildRedPng(table: array<word>, size: nat, deflate: seq<byte> -> seq<byte>)
    returns (r: Result<seq<byte>>)
    requires IsCrcTable(table[..])
    ensures var idat := deflate(Scanlines(size, size));
            r == if size < WORD_LIMIT && |idat| < WORD_LIMIT then Ok(FileBytes(size, idat))
                 else Err(RangeError)
  {
    hide EncodeChunk, Scanlines, IsCrcTable, EncodeU32;
    var raw, _ := FillScanlines(size);
    var idat := deflate(raw[..]);
    var ihdr := new byte[13];
    var fits := WriteUInt32BE(ihdr, size, 0);
    if !fits {
      return Err(RangeError);
    }
    fits := WriteUInt32BE(ihdr, size, 4);
    ihdr[8], ihdr[9], ihdr[10], ihdr[11], ihdr[12] := 8, 2, 0, 0, 0;
    assert ihdr[..] == HeaderData(size);
    var first := PngChunk(table, IHDR, ihdr[..]);
    var second := PngChunk(table, IDAT, idat);
    if second.Err? {
      return Err(RangeError);
    }
    var third := PngChunk(table, IEND, []);
    return Ok(SIGNATURE + first.value + second.value + third.value);
  }

  /** Reading back the file: IHDR with the size, IDAT with the deflated rows, an empty IEND and
      nothing else, exactly when the payload keeps to the standard's length limit; and a sound
      header exactly when the size is neither zero nor over the standard's limit.  The encoder
      checks neither. */
  lemma RedPngReadsBack(size: word, idat: seq<byte>)
    requires |idat| < WORD_LIMIT
    ensures ReadPng(FileBytes(size, idat))
         == if |idat| <= MAX_DATA then Ok(RedChunks(size, idat)) else Err(TooLong)
    ensures DecodeHeader(HeaderData(size))
         == if 1 <= size <= MAX_DATA then Ok(Header(size, size, 8, 2, 0, 0, 0)) else Err(BadHeader)
  {
    FileReadsBack(size, idat);
    DecodeEncode(size);
    var data := HeaderData(size);
    assert data[..4] == data[4..8] == EncodeU32(size);
    assert data[8] == 8 && data[9] == 2 && data[10] == data[11] == data[12] == 0;
    hide EncodeU32, DecodeU32, ReadPng, FileBytes;
  }

  /** The encoder's file is a valid picture, and then the solid red one of the given size, if
      and only if the size and the payload keep to the standard's limits. */
  lemma RedPictureExact(size: word, deflate: seq<byte> -> seq<byte>,
                        inflate: seq<byte> -> seq<byte>)
    requires forall raw :: inflate(deflate(raw)) == raw
    requires |deflate(Scanlines(size, size))| < WORD_LIMIT
    ensures var idat := deflate(Scanlines(size, size));
            var picture := ReadPicture(FileBytes(size, idat), inflate);
            && (picture.Ok? <==> 1 <= size <= MAX_DATA && |idat| <= MAX_DATA)
            && (picture.Ok? ==> picture.value == Solid(size, size, Pixel(220, 30, 30)))
  {
    var idat := deflate(Scanlines(size, size));
    RedPngReadsBack(size, idat);
    ScanlinesAreRed(size, size);
    hide Scanlines, Unfilter, ReadPng, FileBytes, DecodeHeader, HeaderData;
  }

  lemma ReadCons(c: Chunk, e: seq<byte>, rest: seq<byte>)
    requires e != [] && ReadChunk(e + rest) == Ok((c, rest))
    ensures ReadChunks(e + rest)
         == match ReadChunks(rest)
            case Err(x) => Err(x)
            case Ok(cs) => Ok([c] + cs)
  {}

  lemma ReadFails(e: seq<byte>, rest: seq<byte>)
    requires e != [] && ReadChunk(e + rest).Err?
    ensures ReadChunks(e + rest) == Err(ReadChunk(e + rest).error)
  {}

  lemma FileReadsBack(size: word, idat: seq<byte>)
    requires |idat| < WORD_LIMIT
    ensures ReadPng(FileBytes(size, idat))
         == if |idat| <= MAX_DATA then Ok(RedChunks(size, idat)) else Err(TooLong)
  {
    var c0, c1, c2 := Chunk(IHDR, HeaderData(size)), Chunk(IDAT, idat), Chunk(IEND, []);
    assert |HeaderData(size)| == 13;
    hide EncodeChunk, HeaderData, ReadPng, ReadChunks;
    ReadThree(c0, c1, c2);
    var tail := EncodeChunk(c0) + (EncodeChunk(c1) + EncodeChunk(c2));
    AfterSignature(tail);
    Regroup(SIGNATURE, EncodeChunk(c0), EncodeChunk(c1), EncodeChunk(c2));
  }

  lemma Regroup<T>(a: seq<T>, b: seq<T>, c: seq<T>, d: seq<T>)
    ensures a + b + c + d == a + (b + (c + d))
  {}

  lemma AfterSignature(b: seq<byte>)
    ensures ReadPng(SIGNATURE + b) == ReadChunks(b)
  {
    assert (SIGNATURE + b)[8..] == b;
  }

  lemma ReadThree(c0: Chunk, c1: Chunk, c2: Chunk)
    requires |c0.data| <= MAX_DATA && |c1.data| < WORD_LIMIT && |c2.data| <= MAX_DATA
    ensures ReadChunks(EncodeChunk(c0) + (EncodeChunk(c1) + EncodeChunk(c2)))
         == if |c1.data| <= MAX_DATA then Ok([c0, c1, c2]) else Err(TooLong)
  {
    assert MAX_DATA < WORD_LIMIT;
    hide *;
    var e0, e1, e2 := EncodeChunk(c0), EncodeChunk(c1), EncodeChunk(c2);
    NotEmpty(c0);
    NotEmpty(c1);
    ReadLast(c2);
    ReadEncodedChunk(c0, e1 + e2);
    ReadEncodedChunk(c1, e2);
    ReadCons(c0, e0, e1 + e2);
    if |c1.data| <= MAX_DATA {
      ReadCons(c1, e1, e2);
      assert [c0] + ([c1] + [c2]) == [c0, c1, c2];
    } else {
      ReadFails(e1, e2);
    }
  }

  lemma NotEmpty(c: Chunk)
    requires |c.data| < WORD_LIMIT
    ensures EncodeChunk(c) != []
  {}

  lemma ReadLast(c: Chunk)
    requires |c.data| <= MAX_DATA
    ensures ReadChunks(EncodeChunk(c)) == Ok([c])
  {
    ReadEncodedChunk(c, []);
    assert EncodeChunk(c) + [] == EncodeChunk(c) != [];
    ReadCons(c, EncodeChunk(c), []);
    assert [c] + [] == [c];
  }
}
