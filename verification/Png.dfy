/**
 * The hand-written PNG writer: a zlib stream of stored blocks inside IHDR, IDAT and IEND chunks; and a reference
 * reader written from RFC 1950, RFC 1951 and the W3C PNG specification, against which it is proved.
 *
 * CRC-32 is a parameter; both sides use the same one.
 */
module Png {
  import opened Bytes
  import opened Numbers
  import opened Outcomes

  type Crc = seq<Byte> -> int

  const BLOCK := 0xFFFF
  const SIGNATURE: seq<Byte> := [0x89, 0x50, 0x4E, 0x47, 0x0D, 0x0A, 0x1A, 0x0A]
  const IHDR: seq<Byte> := [0x49, 0x48, 0x44, 0x52]
  const IDAT: seq<Byte> := [0x49, 0x44, 0x41, 0x54]
  const IEND: seq<Byte> := [0x49, 0x45, 0x4E, 0x44]

  // ---------------------------------------------------------------------------------------------
  // The zlib stream
  // ---------------------------------------------------------------------------------------------

  /** The two sums of Adler-32 (section 8.2 of RFC 1950). */
  function AdlerSums(data: seq<Byte>): (sums: (nat, nat))
    ensures sums.0 < 65521 && sums.1 < 65521
  {
    if data == [] then (1, 0)
    else
      var (a, b) := AdlerSums(data[..|data| - 1]);
      var a' := (a + data[|data| - 1]) % 65521;
      (a', (b + a') % 65521)
  }

  function Adler32(data: seq<Byte>): (sum: nat)
    ensures sum < 0x1_0000_0000
  {
    AdlerSums(data).1 * 65536 + AdlerSums(data).0
  }

  /** struct.pack("<H", n) */
  function LittleEndian16(n: nat): seq<Byte>
    requires n < 0x1_0000
  {
    [n % 256, n / 256]
  }

  function StoredBlock(final: bool, block: seq<Byte>): seq<Byte>
    requires |block| <= BLOCK
  {
    [if final then 1 else 0] + LittleEndian16(|block|) + LittleEndian16(0xFFFF - |block|) + block
  }

  /** The stored blocks of the data: full ones, then a final one. */
  function Blocks(data: seq<Byte>): seq<Byte> {
    if |data| <= BLOCK then StoredBlock(true, data)
    else StoredBlock(false, data[..BLOCK]) + Blocks(data[BLOCK..])
  }

  /** The checksum, most significant byte first. */
  function Trailer(data: seq<Byte>): seq<Byte> {
    ToBigEndian(Adler32(data), 4)
  }

  function Stored(data: seq<Byte>): seq<Byte> {
    [0x78, 0x01] + Blocks(data) + Trailer(data)
  }

  method ZlibStore(data: seq<Byte>) returns (stream: seq<Byte>)
    ensures stream == Stored(data)
  {
    hide StoredBlock, Adler32, ToBigEndian;
    stream := [0x78, 0x01];
    if |data| == 0 {
      EmptyBlock();
      stream := stream + [0x01, 0x00, 0x00, 0xFF, 0xFF];
    }
    ghost var start := stream;
    var offset := 0;
    assert data[0..] == data;
    while offset < |data|
      invariant 0 <= offset
      invariant offset < |data| ==> stream + Blocks(data[offset..]) == [0x78, 0x01] + Blocks(data)
      invariant offset >= |data| ==> stream == [0x78, 0x01] + Blocks(data)
      decreases |data| - offset
    {
      var end := if offset + BLOCK < |data| then offset + BLOCK else |data|;
      var block := data[offset..end];
      var final := offset + |block| == |data|;
      NextBlock(stream, data, offset);
      ghost var was := stream;
      stream := stream + [if final then 1 else 0];
      stream := stream + LittleEndian16(|block|);
      stream := stream + LittleEndian16(0xFFFF - |block|);
      stream := stream + block;
      BlockBySteps(was, final, block);
      offset := offset + BLOCK;
    }
    stream := stream + ToBigEndian(Adler32(data), 4);
  }

  lemma EmptyBlock()
    ensures Blocks([]) == [0x01, 0x00, 0x00, 0xFF, 0xFF]
  {
  }

  lemma BlockBySteps(was: seq<Byte>, final: bool, block: seq<Byte>)
    requires |block| <= BLOCK
    ensures was + [if final then 1 else 0] + LittleEndian16(|block|) + LittleEndian16(0xFFFF - |block|) + block
         == was + StoredBlock(final, block)
  {
    hide LittleEndian16;
  }

  lemma NextBlock(stream: seq<Byte>, data: seq<Byte>, offset: nat)
    requires offset < |data|
    ensures var end := if offset + BLOCK < |data| then offset + BLOCK else |data|;
            var block := data[offset..end];
            && (end == |data| ==> stream + Blocks(data[offset..]) == stream + StoredBlock(true, block))
            && (end < |data| ==>
                 stream + Blocks(data[offset..])
                 == (stream + StoredBlock(false, block)) + Blocks(data[offset + BLOCK..]))
  {
    hide StoredBlock;
    var rest := data[offset..];
    if offset + BLOCK < |data| {
      assert rest[..BLOCK] == data[offset..offset + BLOCK] && rest[BLOCK..] == data[offset + BLOCK..];
      assert Blocks(rest) == StoredBlock(false, rest[..BLOCK]) + Blocks(rest[BLOCK..]);
    } else {
      assert rest == data[offset..|data|];
    }
  }

  // ---------------------------------------------------------------------------------------------
  // Reading the stream: RFC 1950 section 2.2, RFC 1951 sections 3.2.3 and 3.2.4
  // ---------------------------------------------------------------------------------------------

  function FromLittleEndian16(lo: int, hi: int): int {
    lo + 256 * hi
  }

  function CompressionMethod(cmf: int): int {
    cmf % 16
  }

  function WindowBits(cmf: int): int {
    cmf / 16 + 8
  }

  function CheckRemainder(cmf: int, flg: int): int {
    (cmf * 256 + flg) % 31
  }

  function DictionaryFlag(flg: int): int {
    flg / 32 % 2
  }

  /** CMF and FLG: deflate with a window of at most 32K, a valid check value, and no preset dictionary. */
  predicate ZlibHeader(cmf: int, flg: int) {
    CompressionMethod(cmf) == 8 && WindowBits(cmf) <= 15 && CheckRemainder(cmf, flg) == 0 && DictionaryFlag(flg) == 0
  }

  /** The lowest three bits of a block's first byte: the final flag, and twice the block type. */
  function BlockHeader(first: nat): nat {
    if first < 8 then first else BlockHeader(first - 8)
  }

  /** The data of a run of stored blocks up to and including the final one, and what follows it. */
  function ReadBlocks(s: seq<Byte>): Option<(seq<Byte>, seq<Byte>)> {
    if |s| < 5 then None
    else
      var header := BlockHeader(s[0]);
      var length, complement := FromLittleEndian16(s[1], s[2]), FromLittleEndian16(s[3], s[4]);
      if header > 1 || length + complement != 0xFFFF || |s| < 5 + length then None
      else
        var block, rest := s[5..5 + length], s[5 + length..];
        if header == 1 then Some((block, rest))
        else
          var more := ReadBlocks(rest);
          if more.None? then None else Some((block + more.value.0, more.value.1))
  }

  /** Header, blocks, checksum, and nothing after it. */
  function ReadZlib(s: seq<Byte>): Option<seq<Byte>> {
    if |s| < 2 || !ZlibHeader(s[0], s[1]) then None
    else
      var blocks := ReadBlocks(s[2..]);
      if blocks.None? || blocks.value.1 != Trailer(blocks.value.0) then None
      else Some(blocks.value.0)
  }

  lemma StoredBlockFields(final: bool, block: seq<Byte>, rest: seq<Byte>)
    requires |block| <= BLOCK
    ensures var s := StoredBlock(final, block) + rest;
            && |s| == 5 + |block| + |rest| && s[0] == (if final then 1 else 0)
            && FromLittleEndian16(s[1], s[2]) == |block| && FromLittleEndian16(s[3], s[4]) == 0xFFFF - |block|
            && s[5..5 + |block|] == block && s[5 + |block|..] == rest
  {
    var n := |block|;
    var s := StoredBlock(final, block) + rest;
    var lengths := LittleEndian16(n) + LittleEndian16(0xFFFF - n);
    assert lengths == [n % 256, n / 256, (0xFFFF - n) % 256, (0xFFFF - n) / 256];
    assert s == ([if final then 1 else 0] + lengths) + (block + rest);
  }

  lemma ReadStoredBlock(final: bool, block: seq<Byte>, rest: seq<Byte>)
    requires |block| <= BLOCK
    ensures ReadBlocks(StoredBlock(final, block) + rest)
         == if final then Some((block, rest))
            else
              var more := ReadBlocks(rest);
              if more.None? then None else Some((block + more.value.0, more.value.1))
  {
    hide StoredBlock, FromLittleEndian16;
    StoredBlockFields(final, block, rest);
    var s := StoredBlock(final, block) + rest;
    ReadBlocksStep(s, |block|);
    hide ReadBlocks;
  }

  lemma ReadBlocksStep(s: seq<Byte>, length: nat)
    requires |s| >= 5 + length && s[0] <= 1
    requires FromLittleEndian16(s[1], s[2]) == length && FromLittleEndian16(s[3], s[4]) == 0xFFFF - length
    ensures var block, rest := s[5..5 + length], s[5 + length..];
            ReadBlocks(s)
            == if s[0] == 1 then Some((block, rest))
               else
                 var more := ReadBlocks(rest);
                 if more.None? then None else Some((block + more.value.0, more.value.1))
  {
    hide FromLittleEndian16;
  }

  lemma {:induction false} ReadBlocksBack(data: seq<Byte>, rest: seq<Byte>)
    ensures ReadBlocks(Blocks(data) + rest) == Some((data, rest))
    decreases |data|
  {
    hide StoredBlock, ReadBlocks;
    if |data| <= BLOCK {
      ReadStoredBlock(true, data, rest);
    } else {
      var first, more := data[..BLOCK], data[BLOCK..];
      assert Blocks(data) == StoredBlock(false, first) + Blocks(more);
      hide Blocks;
      ReadStoredBlock(false, first, Blocks(more) + rest);
      ReadBlocksBack(more, rest);
      assert Blocks(data) + rest == StoredBlock(false, first) + (Blocks(more) + rest);
      assert first + more == data;
    }
  }

  /** The stream is well formed and decompresses to the data, for every data. */
  lemma StoredRoundTrip(data: seq<Byte>)
    ensures ReadZlib(Stored(data)) == Some(data)
  {
    hide Trailer, Blocks, ReadBlocks, ReadZlib;
    var sum := Trailer(data);
    ReadBlocksBack(data, sum);
    assert Stored(data) == [0x78, 0x01] + (Blocks(data) + sum);
    ReadStream(Blocks(data) + sum, data, sum);
  }

  lemma WrittenHeader()
    ensures ZlibHeader(0x78, 0x01)
  {
  }

  lemma ReadStream(stream: seq<Byte>, data: seq<Byte>, sum: seq<Byte>)
    requires ReadBlocks(stream) == Some((data, sum)) && sum == Trailer(data)
    ensures ReadZlib([0x78, 0x01] + stream) == Some(data)
  {
    hide Trailer, ReadBlocks, ZlibHeader;
    WrittenHeader();
    var s := [0x78, 0x01] + stream;
    assert s[0] == 0x78 && s[1] == 0x01;
    assert ([0x78, 0x01] + stream)[2..] == stream;
  }

  /** Five bytes a block, one block for every 65535 bytes or part of them and one for no data, and six more. */
  lemma {:induction false} StoredSize(data: seq<Byte>)
    ensures |Blocks(data)| == |data| + 5 * (if |data| == 0 then 1 else (|data| + 65534) / 65535)
    decreases |data|
  {
    if |data| > BLOCK {
      var rest := data[BLOCK..];
      StoredSize(rest);
      assert |StoredBlock(false, data[..BLOCK])| == 5 + BLOCK;
      hide Blocks, StoredBlock;
      OneMoreBlock(|rest|);
    }
  }

  lemma OneMoreBlock(n: nat)
    requires n > 0
    ensures (n + 65535 + 65534) / 65535 == 1 + (n + 65534) / 65535
  {
  }

  // ---------------------------------------------------------------------------------------------
  // Chunks and the image
  // ---------------------------------------------------------------------------------------------

  datatype PngError = BadPayload(actual: nat, expected: int) | PackOutOfRange

  function Checksum(crc: Crc, bytes: seq<Byte>): (sum: nat)
    ensures sum < 0x1_0000_0000
  {
    crc(bytes) % 0x1_0000_0000
  }

  function PngChunk(crc: Crc, kind: seq<Byte>, payload: seq<Byte>): Result<seq<Byte>, PngError> {
    if |payload| >= 0x1_0000_0000 then Failure(PackOutOfRange)
    else Success(ToBigEndian(|payload|, 4) + kind + payload + ToBigEndian(Checksum(crc, kind + payload), 4))
  }

  function RowBytes(width: nat): nat {
    width * 4
  }

  lemma RowEnds(width: nat, row: nat, height: nat, size: nat)
    requires row < height && size == height * RowBytes(width)
    ensures 0 <= row * RowBytes(width) <= (row + 1) * RowBytes(width) <= size
    ensures (row + 1) * RowBytes(width) == row * RowBytes(width) + RowBytes(width)
  {
    hide RowBytes;
    Rows(row, height, RowBytes(width));
  }

  lemma Rows(row: nat, height: nat, n: nat)
    requires row < height
    ensures 0 <= row * n <= (row + 1) * n <= height * n && (row + 1) * n == row * n + n
  {
    assert height * n == (row + 1) * n + (height - row - 1) * n;
    assert (height - row - 1) * n >= 0 && row * n >= 0;
  }

  /** The first `rows` rows of the image, each behind its filter byte. */
  function Filtered(width: nat, height: nat, rgba: seq<Byte>, rows: nat): seq<Byte>
    requires rows <= height && |rgba| == height * RowBytes(width)
  {
    if rows == 0 then []
    else
      RowEnds(width, rows - 1, height, |rgba|);
      Filtered(width, height, rgba, rows - 1) + [0] + rgba[(rows - 1) * RowBytes(width)..rows * RowBytes(width)]
  }

  function Header(width: nat, height: nat): seq<Byte> {
    ToBigEndian(width, 4) + ToBigEndian(height, 4) + [8, 6, 0, 0, 0]
  }

  function EncodeRgbaPng(crc: Crc, width: int, height: int, rgba: seq<Byte>): Result<seq<Byte>, PngError> {
    if |rgba| != width * height * 4 then Failure(BadPayload(|rgba|, width * height * 4))
    else if !ImageFits(width, height, rgba) then Failure(PackOutOfRange)
    else
      ImageRows(width, height, rgba);
      var header :- PngChunk(crc, IHDR, Header(width, height));
      var data :- PngChunk(crc, IDAT, Stored(Filtered(width, height, rgba, height)));
      var end :- PngChunk(crc, IEND, []);
      Success(SIGNATURE + header + data + end)
  }

  // ---------------------------------------------------------------------------------------------
  // Reading the image: sections 5.2, 5.3, 9.2 and 11.2 of the PNG specification
  // ---------------------------------------------------------------------------------------------

  datatype Image = Image(width: nat, height: nat, rgba: seq<Byte>)
  datatype Chunk = Chunk(kind: seq<Byte>, payload: seq<Byte>)

  const MAX31 := 0x7FFF_FFFF

  /** One chunk with a valid length and checksum, and what follows it. */
  function ReadChunk(crc: Crc, s: seq<Byte>): Option<(Chunk, seq<Byte>)> {
    if |s| < 12 then None
    else
      var length := BigEndian(s[..4]);
      if length > MAX31 || |s| < 12 + length then None
      else
        var kind, payload := s[4..8], s[8..8 + length];
        if s[8 + length..12 + length] != ToBigEndian(Checksum(crc, kind + payload), 4) then None
        else Some((Chunk(kind, payload), s[12 + length..]))
  }

  /** The pixels of `rows` rows, each of which must use the filter type None. */
  function Unfilter(width: nat, rows: nat, data: seq<Byte>): Option<seq<Byte>> {
    if rows == 0 then if data == [] then Some([]) else None
    else
      var n := RowBytes(width) + 1;
      if |data| < n || data[|data| - n] != 0 then None
      else
        var above := Unfilter(width, rows - 1, data[..|data| - n]);
        if above.None? then None else Some(above.value + data[|data| - n + 1..])
  }

  function ReadImage(header: seq<Byte>, data: seq<Byte>): Option<Image> {
    if |header| != 13 || header[8..] != [8, 6, 0, 0, 0] then None
    else
      var width, height := BigEndian(header[..4]), BigEndian(header[4..8]);
      if !(1 <= width <= MAX31 && 1 <= height <= MAX31) then None
      else
        var filtered := ReadZlib(data);
        if filtered.None? then None
        else
          var rgba := Unfilter(width, height, filtered.value);
          if rgba.None? then None else Some(Image(width, height, rgba.value))
  }

  /** Signature, IHDR, one IDAT, IEND, and nothing after it. */
  function ReadPng(crc: Crc, s: seq<Byte>): Option<Image> {
    if |s| < 8 || s[..8] != SIGNATURE then None
    else
      var first := ReadChunk(crc, s[8..]);
      if first.None? || first.value.0.kind != IHDR then None
      else
        var second := ReadChunk(crc, first.value.1);
        if second.None? || second.value.0.kind != IDAT then None
        else
          var third := ReadChunk(crc, second.value.1);
          if third.None? || third.value.0 != Chunk(IEND, []) || third.value.1 != [] then None
          else ReadImage(first.value.0.payload, second.value.0.payload)
  }

  lemma ReadChunkBack(crc: Crc, kind: seq<Byte>, payload: seq<Byte>, rest: seq<Byte>)
    requires |kind| == 4 && |payload| < 0x1_0000_0000
    ensures var chunk := PngChunk(crc, kind, payload);
            chunk.Success? && ReadChunk(crc, chunk.value + rest)
            == if |payload| <= MAX31 then Some((Chunk(kind, payload), rest)) else None
  {
    var head, sum := ToBigEndian(|payload|, 4), ToBigEndian(Checksum(crc, kind + payload), 4);
    SmallPowers();
    BigEndianRoundTrip(|payload|, 4);
    hide ToBigEndian, BigEndian, Checksum;
    FiveInPlace(head, kind, payload, sum, rest);
  }

  lemma FiveInPlace(head: seq<Byte>, kind: seq<Byte>, payload: seq<Byte>, sum: seq<Byte>, rest: seq<Byte>)
    requires |head| == |kind| == |sum| == 4
    ensures var s, n := head + kind + payload + sum + rest, 8 + |payload|;
            && s[..4] == head && s[4..8] == kind && s[8..n] == payload && s[n..n + 4] == sum && s[n + 4..] == rest
  {
    var s, n := head + kind + payload + sum + rest, 8 + |payload|;
    assert |head + kind| == 8 && |head + kind + payload| == n;
    assert s[..8] == head + kind;
    assert s[8..n] == payload;
    assert s[n..n + 4] == sum;
  }

  lemma {:induction false} UnfilterBack(width: nat, height: nat, rgba: seq<Byte>, rows: nat)
    requires rows <= height && |rgba| == height * RowBytes(width)
    ensures 0 <= rows * RowBytes(width) <= |rgba|
    ensures Unfilter(width, rows, Filtered(width, height, rgba, rows)) == Some(rgba[..rows * RowBytes(width)])
    decreases rows
  {
    hide RowBytes;
    if rows > 0 {
      var a, b := (rows - 1) * RowBytes(width), rows * RowBytes(width);
      RowEnds(width, rows - 1, height, |rgba|);
      UnfilterBack(width, height, rgba, rows - 1);
      var above, row := Filtered(width, height, rgba, rows - 1), rgba[a..b];
      var data := Filtered(width, height, rgba, rows);
      assert data == above + [0] + row && |data| - (RowBytes(width) + 1) == |above|;
      assert data[..|above|] == above && data[|above|] == 0 && data[|above| + 1..] == row;
      assert rgba[..a] + row == rgba[..b];
    }
  }

  lemma ReadHeaderBack(width: nat, height: nat)
    requires width < 0x1_0000_0000 && height < 0x1_0000_0000
    ensures var h := Header(width, height);
            |h| == 13 && h[8..] == [8, 6, 0, 0, 0] && BigEndian(h[..4]) == width && BigEndian(h[4..8]) == height
  {
    SmallPowers();
    BigEndianRoundTrip(width, 4);
    BigEndianRoundTrip(height, 4);
    hide ToBigEndian, BigEndian;
    var h := Header(width, height);
    assert h[..4] == ToBigEndian(width, 4) && h[4..8] == ToBigEndian(height, 4);
  }

  predicate ImageFits(width: int, height: int, rgba: seq<Byte>) {
    |rgba| == width * height * 4 && 0 <= width < 0x1_0000_0000 && 0 <= height < 0x1_0000_0000
  }

  lemma ImageRows(width: int, height: int, rgba: seq<Byte>)
    requires ImageFits(width, height, rgba)
    ensures |rgba| == height * RowBytes(width)
  {
    assert width * height * 4 == height * (width * 4);
  }

  /** The IDAT payload the writer produces. */
  function ImageData(width: int, height: int, rgba: seq<Byte>): seq<Byte>
    requires ImageFits(width, height, rgba)
  {
    ImageRows(width, height, rgba);
    Stored(Filtered(width, height, rgba, height))
  }

  /** How many bytes the writer packs an image of these dimensions into: a filter byte a row, and the stored blocks. */
  function DataSize(width: nat, height: nat): nat {
    var n := Product(height, 4 * width + 1);
    n + 6 + 5 * if n == 0 then 1 else (n + 65534) / 65535
  }

  lemma {:induction false} FilteredSize(width: nat, height: nat, rgba: seq<Byte>, rows: nat)
    requires rows <= height && |rgba| == height * RowBytes(width)
    ensures |Filtered(width, height, rgba, rows)| == Product(rows, 4 * width + 1)
  {
    if rows > 0 {
      FilteredSize(width, height, rgba, rows - 1);
      RowEnds(width, rows - 1, height, |rgba|);
      RowsProduct(rows, 4 * width + 1);
      hide Product;
    }
  }

  lemma RowsProduct(rows: nat, n: nat)
    requires rows > 0
    ensures Product(rows, n) == Product(rows - 1, n) + n
  {
  }

  lemma ImageDataSize(width: int, height: int, rgba: seq<Byte>)
    requires ImageFits(width, height, rgba)
    ensures |ImageData(width, height, rgba)| == DataSize(width, height)
  {
    ImageRows(width, height, rgba);
    var filtered := Filtered(width, height, rgba, height);
    FilteredSize(width, height, rgba, height);
    StoredSize(filtered);
    hide Filtered, Blocks, Product, RowBytes, Adler32, ToBigEndian;
  }

  /** The writer succeeds exactly when the payload has the image's size and dimensions and packed size fit 32 bits. */
  lemma EncodeSucceedsIff(crc: Crc, width: int, height: int, rgba: seq<Byte>)
    ensures EncodeRgbaPng(crc, width, height, rgba).Success? <==>
              && |rgba| == width * height * 4 && 0 <= width < 0x1_0000_0000 && 0 <= height < 0x1_0000_0000
              && DataSize(width, height) < 0x1_0000_0000
  {
    hide PngChunk, Header, Stored, Filtered, RowBytes, DataSize;
    if ImageFits(width, height, rgba) {
      ImageDataSize(width, height, rgba);
      ImageRows(width, height, rgba);
      HeaderIsShort(width, height);
      ChunkFits(crc, IHDR, Header(width, height));
      ChunkFits(crc, IDAT, ImageData(width, height, rgba));
      ChunkFits(crc, IEND, []);
    }
  }

  /**
   * What the writer wrote reads back as the same image exactly when the image is not empty and within the 31-bit
   * limits of the format; the writer itself checks neither.
   */
  lemma PngRoundTripIff(crc: Crc, width: int, height: int, rgba: seq<Byte>)
    ensures var png := EncodeRgbaPng(crc, width, height, rgba);
            png.Success? ==>
              && ImageFits(width, height, rgba)
              && (ReadPng(crc, png.value) == Some(Image(width, height, rgba)) <==>
                    1 <= width < 0x8000_0000 && 1 <= height < 0x8000_0000 && DataSize(width, height) < 0x8000_0000)
  {
    if EncodeRgbaPng(crc, width, height, rgba).Success? {
      WrittenRoundTripIff(crc, width, height, rgba);
    }
  }

  lemma WrittenRoundTripIff(crc: Crc, width: int, height: int, rgba: seq<Byte>)
    requires EncodeRgbaPng(crc, width, height, rgba).Success?
    ensures ImageFits(width, height, rgba)
    ensures ReadPng(crc, EncodeRgbaPng(crc, width, height, rgba).value) == Some(Image(width, height, rgba)) <==>
              1 <= width <= MAX31 && 1 <= height <= MAX31 && DataSize(width, height) <= MAX31
  {
    EncodeSucceedsIff(crc, width, height, rgba);
    hide PngChunk, Header, Stored, Filtered, RowBytes, ReadPng, ReadImage, DataSize;
    ImageDataSize(width, height, rgba);
    ImageRows(width, height, rgba);
    HeaderIsShort(width, height);
    ReadWhole(crc, Header(width, height), ImageData(width, height, rgba),
        EncodeRgbaPng(crc, width, height, rgba).value);
    ReadHeaderBack(width, height);
    ReadImageBack(Header(width, height), width, height, rgba);
  }

  lemma HeaderIsShort(width: nat, height: nat)
    ensures |Header(width, height)| == 13
  {
  }

  lemma ChunkFits(crc: Crc, kind: seq<Byte>, payload: seq<Byte>)
    ensures PngChunk(crc, kind, payload).Success? <==> |payload| < 0x1_0000_0000
    ensures PngChunk(crc, kind, payload).Failure? ==> PngChunk(crc, kind, payload).error == PackOutOfRange
  {
  }

  lemma ReadImageBack(header: seq<Byte>, width: nat, height: nat, rgba: seq<Byte>)
    requires |header| == 13 && header[8..] == [8, 6, 0, 0, 0] && BigEndian(header[..4]) == width
             && BigEndian(header[4..8]) == height
    requires |rgba| == height * RowBytes(width)
    ensures ReadImage(header, Stored(Filtered(width, height, rgba, height)))
         == if 1 <= width <= MAX31 && 1 <= height <= MAX31 then Some(Image(width, height, rgba)) else None
  {
    hide Stored, Filtered, Unfilter, ReadZlib, RowBytes, BigEndian;
    StoredRoundTrip(Filtered(width, height, rgba, height));
    UnfilterBack(width, height, rgba, height);
    assert rgba[..height * RowBytes(width)] == rgba;
  }

  lemma ReadWhole(crc: Crc, header: seq<Byte>, data: seq<Byte>, png: seq<Byte>)
    requires |header| <= MAX31
    requires var a, b, c := PngChunk(crc, IHDR, header), PngChunk(crc, IDAT, data), PngChunk(crc, IEND, []);
             a.Success? && b.Success? && c.Success? && png == SIGNATURE + a.value + b.value + c.value
    ensures ReadPng(crc, png) == if |data| <= MAX31 then ReadImage(header, data) else None
  {
    ChunkFits(crc, IDAT, data);
    hide ReadChunk, PngChunk, ReadImage;
    var a, b, c := PngChunk(crc, IHDR, header).value, PngChunk(crc, IDAT, data).value, PngChunk(crc, IEND, []).value;
    ReadChunkBack(crc, IHDR, header, b + c);
    ReadChunkBack(crc, IDAT, data, c);
    ReadChunkBack(crc, IEND, [], []);
    assert png == SIGNATURE + (a + (b + c));
    assert png[..8] == SIGNATURE && png[8..] == a + (b + c);
    assert c + [] == c;
    assert IHDR != IDAT && |IHDR| == |IDAT| == |IEND| == 4;
  }

  // ---------------------------------------------------------------------------------------------
  // The bytes themselves
  // ---------------------------------------------------------------------------------------------

  function Sum(data: seq<Byte>): nat {
    if data == [] then 0 else Sum(data[..|data| - 1]) + data[|data| - 1]
  }

  /** The sum of all sums from the first byte on: each byte as often as it is from the end. */
  function SumOfSums(data: seq<Byte>): nat {
    if data == [] then 0 else SumOfSums(data[..|data| - 1]) + Sum(data)
  }

  /**
   * The two halves of the checksum, modulo 65521: one more than the sum of the bytes, and for each byte one more than
   * the sum of the bytes up to it.
   */
  lemma {:induction false} AdlerIs(data: seq<Byte>)
    ensures AdlerSums(data).0 == (1 + Sum(data)) % 65521
    ensures AdlerSums(data).1 == (|data| + SumOfSums(data)) % 65521
    ensures Adler32(data) == AdlerSums(data).1 * 65536 + AdlerSums(data).0
    decreases |data|
  {
    if data != [] {
      var n := |data| - 1;
      AdlerIs(data[..n]);
      var a, b := AdlerSums(data[..n]).0, AdlerSums(data[..n]).1;
      ModuloSum(1 + Sum(data[..n]), data[n]);
      assert AdlerSums(data).0 == (1 + Sum(data)) % 65521;
      ModuloSums(n + SumOfSums(data[..n]), 1 + Sum(data));
      assert n + SumOfSums(data[..n]) + (1 + Sum(data)) == |data| + SumOfSums(data);
    }
  }

  lemma ModuloSum(x: nat, y: nat)
    ensures (x % 65521 + y) % 65521 == (x + y) % 65521
  {
  }

  lemma ModuloSums(x: nat, y: nat)
    ensures (x % 65521 + y % 65521) % 65521 == (x + y) % 65521
  {
  }

  /** Every encoded image begins with the signature and the header of an eight-bit RGBA image. */
  lemma EncodedBegins(crc: Crc, width: int, height: int, rgba: seq<Byte>)
    requires EncodeRgbaPng(crc, width, height, rgba).Success?
    ensures var png := EncodeRgbaPng(crc, width, height, rgba).value;
            && |png| >= 33
            && png[..16] == [137, 80, 78, 71, 13, 10, 26, 10, 0, 0, 0, 13, 73, 72, 68, 82]
            && BigEndian(png[16..20]) == width && BigEndian(png[20..24]) == height
            && png[24..29] == [8, 6, 0, 0, 0]
  {
    var png := EncodeRgbaPng(crc, width, height, rgba).value;
    BytesOf(13);
    HeaderIsShort(width, height);
    SmallPowers();
    BigEndianRoundTrip(width, 4);
    BigEndianRoundTrip(height, 4);
    var w, h := ToBigEndian(width, 4), ToBigEndian(height, 4);
    var fields := Header(width, height);
    assert |w| == |h| == 4 && fields == w + h + [8, 6, 0, 0, 0];
    hide Filtered, Stored, Checksum, BigEndian, ToBigEndian, Header;
    var header := PngChunk(crc, IHDR, fields).value;
    var after := png[8 + |header|..];
    assert png == SIGNATURE + header + after;
    ChunkBegins(crc, IHDR, fields);
    hide EncodeRgbaPng, PngChunk;
    HeaderInPlace(SIGNATURE, header, after);
    assert fields[..4] == w && fields[4..8] == h && fields[8..13] == [8, 6, 0, 0, 0];
  }

  lemma HeaderInPlace(before: seq<Byte>, header: seq<Byte>, after: seq<Byte>)
    requires |before| == 8 && |header| == 25
    ensures var all, fields := before + header + after, header[8..21];
            && |all| >= 33 && all[..16] == before + header[..8]
            && all[16..20] == fields[..4] && all[20..24] == fields[4..8] && all[24..29] == fields[8..13]
  {
    var all, fields := before + header + after, header[8..21];
    assert all[8..33] == header;
    assert all[16..29] == all[8..33][8..21] == fields;
    assert all[16..20] == all[16..29][..4] && all[20..24] == all[16..29][4..8] && all[24..29] == all[16..29][8..13];
  }

  /** Behind the header come one chunk with the packed data, and the end. */
  lemma EncodedEnds(crc: Crc, width: int, height: int, rgba: seq<Byte>)
    requires EncodeRgbaPng(crc, width, height, rgba).Success?
    ensures width >= 0 && height >= 0
    ensures var png, n := EncodeRgbaPng(crc, width, height, rgba).value, DataSize(width, height);
            && |png| == 57 + n && n >= 6
            && BigEndian(png[33..37]) == n && png[37..43] == [73, 68, 65, 84, 0x78, 0x01]
            && png[45 + n..53 + n] == [0, 0, 0, 0, 73, 69, 78, 68]
  {
    var png, n := EncodeRgbaPng(crc, width, height, rgba).value, DataSize(width, height);
    EncodeSucceedsIff(crc, width, height, rgba);
    ImageDataSize(width, height, rgba);
    ImageRows(width, height, rgba);
    HeaderIsShort(width, height);
    BytesOf(0);
    SmallPowers();
    BigEndianRoundTrip(n, 4);
    var packed := ImageData(width, height, rgba);
    assert packed[..2] == [0x78, 0x01] && |packed| == n;
    hide Filtered, Stored, Checksum, BigEndian, ToBigEndian, DataSize, ImageData, Header;
    var header := PngChunk(crc, IHDR, Header(width, height)).value;
    var data := PngChunk(crc, IDAT, packed).value;
    var end := PngChunk(crc, IEND, []).value;
    assert png == SIGNATURE + header + data + end;
    ChunkBegins(crc, IDAT, packed);
    ChunkBegins(crc, IEND, []);
    assert |header| == 25;
    hide EncodeRgbaPng, PngChunk;
    InPlace(SIGNATURE + header, data, end);
    assert png[37..43] == data[4..10] == data[4..8] + data[8..10];
  }

  lemma ChunkBegins(crc: Crc, kind: seq<Byte>, payload: seq<Byte>)
    requires PngChunk(crc, kind, payload).Success? && |kind| == 4
    ensures var chunk := PngChunk(crc, kind, payload).value;
            && |chunk| == 12 + |payload|
            && chunk[..4] == ToBigEndian(|payload|, 4) && chunk[4..8] == kind
            && chunk[8..8 + |payload|] == payload && (|payload| >= 2 ==> chunk[8..10] == payload[..2])
            && chunk[..8] == ToBigEndian(|payload|, 4) + kind
  {
    hide Checksum, ToBigEndian;
  }

  lemma InPlace(before: seq<Byte>, data: seq<Byte>, end: seq<Byte>)
    requires |before| == 33 && |data| >= 10 && |end| == 12
    ensures var all := before + data + end;
            && |all| == 45 + |data| && all[33..37] == data[..4] && all[37..43] == data[4..10]
            && all[33 + |data|..41 + |data|] == end[..8]
  {
  }

  lemma BytesOf(n: nat)
    requires n < 256
    ensures ToBigEndian(n, 4) == [0, 0, 0, n]
  {
    assert ToBigEndian(0, 1) == ToBigEndian(0, 0) + [0];
    assert ToBigEndian(0, 2) == ToBigEndian(0, 1) + [0];
    assert ToBigEndian(0, 3) == ToBigEndian(0, 2) + [0];
    assert ToBigEndian(n, 4) == ToBigEndian(n / 256, 3) + [n % 256];
  }
}
