/** The single-block XZ stream the fragment builder writes, and its round trip through the reader. */
module XzStream {
  import opened Bytes
  import opened XzVli
  import opened XzReader

  const DICTIONARY_SIZE: nat := 0x2_0000

  // ----- the layout -----

  const FLAGS: bytes := [0x00, 0x01]

  function StreamHeader(): bytes {
    STREAM_MAGIC + FLAGS + CrcField(FLAGS)
  }

  /** Compressed and uncompressed size, and the LZMA2 filter with its dictionary property. */
  function SizesAndFilter(c: nat, u: nat): bytes {
    Vli(c) + Vli(u) + [0x21, 0x01, 0x0A]
  }

  function HeaderFields(c: nat, u: nat): bytes {
    SizesAndFilter(c, u) + Repeat(0, PadTo4(2 + |SizesAndFilter(c, u)|))
  }

  function HeaderBody(c: nat, u: nat): bytes
    requires |HeaderFields(c, u)| + 6 <= 0x400
  {
    [((|HeaderFields(c, u)| + 6) / 4 - 1)] + [0xC0] + HeaderFields(c, u)
  }

  function WithCrc(data: bytes): bytes {
    data + CrcField(data)
  }

  function Block(compressed: bytes, data: bytes): bytes
    requires |HeaderFields(|compressed|, |data|)| + 6 <= 0x400
  {
    WithCrc(HeaderBody(|compressed|, |data|)) + compressed + Repeat(0, PadTo4(|compressed|)) + CrcField(data)
  }

  function Listed(unpadded: nat, u: nat): bytes {
    [0x00, 0x01] + (Vli(unpadded) + Vli(u))
  }

  function Index(unpadded: nat, u: nat): bytes {
    WithCrc(Listed(unpadded, u) + Repeat(0, PadTo4(|Listed(unpadded, u)|)))
  }

  function FooterFields(indexSize: nat): bytes
    requires 4 <= indexSize < 0x400
  {
    Pack32(indexSize / 4 - 1) + FLAGS
  }

  function Footer(indexSize: nat): bytes
    requires 4 <= indexSize < 0x400
  {
    CrcField(FooterFields(indexSize)) + FooterFields(indexSize) + FOOTER_MAGIC
  }

  // ----- reading it back -----

  /** A value that a VLI can hold. */
  predicate Fits(n: nat) {
    n < 0x8000_0000_0000_0000
  }

  lemma FitsSize(n: nat)
    requires Fits(n)
    ensures |Vli(n)| <= 9
  {
    LimitIs63Bits();
    VliSize(n, MAX_SIZE);
  }

  lemma VliThen(n: nat, rest: bytes)
    requires Fits(n)
    ensures ReadVli(Vli(n) + rest) == Some(Parsed(n, rest))
  {
    VliReadBack(n, rest);
  }

  lemma StreamHeaderReads(rest: bytes)
    ensures ReadStreamHeader(StreamHeader() + rest) == Some(Parsed(CHECK_CRC32, rest))
  {
    hide CrcField;
    var s := StreamHeader() + rest;
    assert s[..6] == STREAM_MAGIC && s[6..8] == FLAGS && s[8..12] == CrcField(FLAGS) && s[12..] == rest;
    assert ReadFlags(FLAGS) == Some(CHECK_CRC32);
  }

  lemma FilterReads(rest: bytes)
    ensures ReadFilters([0x21, 0x01, 0x0A] + rest, 1) == Some(Parsed([Filter(LZMA2, [0x0A])], rest))
  {
    var s := [0x21, 0x01, 0x0A] + rest;
    assert Vli(0x21) == [0x21] && Vli(1) == [0x01];
    assert s == Vli(0x21) + ([0x01, 0x0A] + rest);
    VliThen(0x21, [0x01, 0x0A] + rest);
    assert [0x01, 0x0A] + rest == Vli(1) + ([0x0A] + rest);
    VliThen(1, [0x0A] + rest);
    hide Vli, ReadVli;
    var t := [0x0A] + rest;
    assert t[..1] == [0x0A] && t[1..] == rest;
    assert ReadFilter(s) == Some(Parsed(Filter(LZMA2, [0x0A]), rest));
    assert ReadFilters(rest, 0) == Some(Parsed([], rest));
    assert [Filter(LZMA2, [0x0A])] + [] == [Filter(LZMA2, [0x0A])];
  }

  lemma FieldsRead(c: nat, u: nat, size: nat)
    requires 0 < c && Fits(c) && Fits(u)
    ensures ReadHeaderFields(HeaderFields(c, u), 0xC0, size) ==
            Some(BlockHeader(size, Some(c), Some(u), [Filter(LZMA2, [0x0A])]))
  {
    hide Vli, ReadVli, ReadFilters;
    var padding := Repeat(0, PadTo4(2 + |SizesAndFilter(c, u)|));
    var filter: bytes := [0x21, 0x01, 0x0A];
    assert HeaderFields(c, u) == Vli(c) + (Vli(u) + (filter + padding));
    VliThen(c, Vli(u) + (filter + padding));
    VliThen(u, filter + padding);
    FilterReads(padding);
  }

  lemma FieldsSize(c: nat, u: nat)
    requires Fits(c) && Fits(u)
    ensures 5 <= |HeaderFields(c, u)| <= 24 && (|HeaderFields(c, u)| + 6) % 4 == 0
  {
    FitsSize(c);
    FitsSize(u);
    hide Vli;
  }

  /** Where the reader finds the parts of a block header. */
  lemma HeaderLayout(c: nat, u: nat, rest: bytes)
    requires |HeaderFields(c, u)| <= 24 && (|HeaderFields(c, u)| + 6) % 4 == 0
    ensures var body := HeaderBody(c, u);
            var data, size := WithCrc(body) + rest, |HeaderFields(c, u)| + 6;
            && size == |body| + 4 <= |data| && data[0] != 0 && HeaderSize(data[0]) == size
            && data[..size] == WithCrc(body) && data[size..] == rest
            && data[..size][..size - 4] == body && data[..size][size - 4..] == CrcField(body)
            && data[..size][2..size - 4] == HeaderFields(c, u) && data[..size][1] == 0xC0
  {
    hide CrcField, HeaderFields;
    var body := HeaderBody(c, u);
    var size := |body| + 4;
    assert body[2..] == HeaderFields(c, u);
    assert (WithCrc(body) + rest)[..size] == WithCrc(body) && (WithCrc(body) + rest)[size..] == rest;
    assert WithCrc(body)[..size - 4] == body && WithCrc(body)[size - 4..] == CrcField(body);
    SliceOfSlice(WithCrc(body), 0, size - 4, 2, size - 4);
    assert WithCrc(body)[0..size - 4] == body;
    assert body[2..size - 4] == body[2..];
  }

  lemma BlockHeaderReads(c: nat, u: nat, rest: bytes)
    requires 0 < c && Fits(c) && Fits(u)
    ensures |HeaderFields(c, u)| + 6 <= 0x400
    ensures var h := WithCrc(HeaderBody(c, u));
            && |h| == |HeaderFields(c, u)| + 6 && h[0] != 0
            && ReadBlockHeader(h + rest) == Some(Parsed(BlockHeader(|h|, Some(c), Some(u), [Filter(LZMA2, [0x0A])]),
               rest))
  {
    FieldsSize(c, u);
    HeaderLayout(c, u, rest);
    var h := WithCrc(HeaderBody(c, u));
    assert (h + rest)[0] == h[0];
    hide CrcField, HeaderFields, ReadHeaderFields, WithCrc, HeaderBody, HeaderSize, ReadBlockHeader;
    FieldsRead(c, u, |h|);
    HeaderFromParts(h + rest, |h|, BlockHeader(|h|, Some(c), Some(u), [Filter(LZMA2, [0x0A])]), rest);
  }

  lemma HeaderFromParts(data: bytes, size: nat, h: BlockHeader, rest: bytes)
    requires data != [] && data[0] != 0 && HeaderSize(data[0]) == size <= |data|
    requires CrcField(data[..size][..size - 4]) == data[..size][size - 4..] && data[..size][1] == 0xC0
    requires ReadHeaderFields(data[..size][2..size - 4], 0xC0, size) == Some(h) && data[size..] == rest
    ensures ReadBlockHeader(data) == Some(Parsed(h, rest))
  {
    hide CrcField, ReadHeaderFields;
  }

  lemma DictionaryIs128KiB()
    ensures Lzma2Dictionary([Filter(LZMA2, [0x0A])]) == Some(DICTIONARY_SIZE)
  {
    assert PowerOf2(2) == 4 && PowerOf2(4) == 16 && PowerOf2(6) == 64 && PowerOf2(8) == 256;
    assert PowerOf2(10) == 0x400 && PowerOf2(12) == 0x1000 && PowerOf2(14) == 0x4000 && PowerOf2(16) == 0x1_0000;
  }

  /** A codec whose decoder inverts its encoder, with output that is never empty. */
  ghost predicate Inverts(enc: bytes -> bytes, dec: Decoder) {
    forall x :: dec(DICTIONARY_SIZE, enc(x)) == Some(x) && enc(x) != []
  }

  lemma TakeFront(a: bytes, b: bytes)
    ensures Take(a + b, |a|) == Some(Parsed(a, b))
  {
    assert (a + b)[..|a|] == a && (a + b)[|a|..] == b;
  }

  function Unpadded(compressed: bytes, data: bytes): nat {
    |HeaderFields(|compressed|, |data|)| + 6 + |compressed| + 4
  }

  lemma TakeThree(a: bytes, b: bytes, c: bytes, rest: bytes)
    ensures var s := a + (b + (c + rest));
            && Take(s, |a|) == Some(Parsed(a, b + (c + rest)))
            && Take(b + (c + rest), |b|) == Some(Parsed(b, c + rest)) && Take(c + rest, |c|) == Some(Parsed(c, rest))
  {
    hide Take;
    TakeFront(a, b + (c + rest));
    TakeFront(b, c + rest);
    TakeFront(c, rest);
  }

  /** A block from its parts, each with what is left after it. */
  lemma BlockFromParts(s: bytes, h: BlockHeader, compressed: bytes, data: bytes, dec: Decoder,
                       s1: bytes, s2: bytes, padding: bytes, s3: bytes, rest: bytes)
    requires h.compressed == Some(|compressed|) && h.uncompressed == Some(|data|)
    requires Lzma2Dictionary(h.filters) == Some(DICTIONARY_SIZE) && dec(DICTIONARY_SIZE, compressed) == Some(data)
    requires ReadBlockHeader(s) == Some(Parsed(h, s1)) && Take(s1, |compressed|) == Some(Parsed(compressed, s2))
    requires Take(s2, PadTo4(|compressed|)) == Some(Parsed(padding, s3)) && AllZero(padding)
    requires Take(s3, 4) == Some(Parsed(CrcField(data), rest))
    ensures ReadBlock(s, dec) == Some(Parsed(BlockContents(Record(h.size + |compressed| + 4, |data|), data), rest))
  {
    hide CrcField, ReadBlockHeader, Lzma2Dictionary, Take, PadTo4, AllZero;
  }

  /** The reader's view of a whole block, and of whatever follows it. */
  lemma BlockReads(compressed: bytes, data: bytes, rest: bytes, dec: Decoder)
    requires 0 < |compressed| && Fits(|compressed|) && Fits(|data|) && dec(DICTIONARY_SIZE, compressed) == Some(data)
    ensures |HeaderFields(|compressed|, |data|)| + 6 <= 0x400
    ensures var block := Block(compressed, data);
            && block[0] != 0
            && ReadBlock(block + rest, dec) ==
               Some(Parsed(BlockContents(Record(Unpadded(compressed, data), |data|), data), rest))
  {
    hide HeaderFields, WithCrc, HeaderBody, CrcField, ReadBlockHeader, Lzma2Dictionary, ReadBlock, Block, Take, PadTo4;
    var c, u := |compressed|, |data|;
    FieldsSize(c, u);
    var header, padding, check := WithCrc(HeaderBody(c, u)), Repeat(0, PadTo4(c)), CrcField(data);
    var after := compressed + (padding + (check + rest));
    BlockHeaderReads(c, u, after);
    DictionaryIs128KiB();
    BlockParts(compressed, data, header, rest);
    var h := BlockHeader(|header|, Some(c), Some(u), [Filter(LZMA2, [0x0A])]);
    TakeThree(compressed, padding, check, rest);
    BlockFromParts(header + after, h, compressed, data, dec, after, padding + (check + rest), padding, check + rest,
      rest);
  }

  lemma BlockParts(compressed: bytes, data: bytes, header: bytes, rest: bytes)
    requires |HeaderFields(|compressed|, |data|)| + 6 <= 0x400
    requires header == WithCrc(HeaderBody(|compressed|, |data|)) && header != []
    ensures var block := Block(compressed, data);
            && block != [] && block[0] == header[0]
            && block + rest == header + (compressed + (Repeat(0, PadTo4(|compressed|)) + (CrcField(data) + rest)))
  {
    hide HeaderFields, WithCrc, HeaderBody, CrcField, PadTo4;
    Regroup(header, compressed, Repeat(0, PadTo4(|compressed|)), CrcField(data), rest);
  }

  lemma Regroup(a: bytes, b: bytes, c: bytes, d: bytes, rest: bytes)
    ensures a + b + c + d + rest == a + (b + (c + (d + rest)))
  {
  }

  lemma OneBlock(s: bytes, block: BlockContents, rest: bytes, dec: Decoder)
    requires s != [] && s[0] != 0 && |rest| < |s| && rest != [] && rest[0] == 0
    requires ReadBlock(s, dec) == Some(Parsed(block, rest))
    ensures ReadBlocks(s, dec) == Some(Parsed(Contents([block.record], block.data), rest))
  {
    hide ReadBlock;
    assert ReadBlocks(rest, dec) == Some(Parsed(Contents([], []), rest));
    assert [block.record] + [] == [block.record] && block.data + [] == block.data;
  }

  /** One block, then the index: the reader stops at the zero byte. */
  lemma BlocksRead(compressed: bytes, data: bytes, rest: bytes, dec: Decoder)
    requires 0 < |compressed| && Fits(|compressed|) && Fits(|data|) && dec(DICTIONARY_SIZE, compressed) == Some(data)
    requires rest != [] && rest[0] == 0
    ensures |HeaderFields(|compressed|, |data|)| + 6 <= 0x400
    ensures ReadBlocks(Block(compressed, data) + rest, dec) ==
            Some(Parsed(Contents([Record(Unpadded(compressed, data), |data|)], data), rest))
  {
    BlockReads(compressed, data, rest, dec);
    hide Block, ReadBlock, HeaderFields, Unpadded, ReadBlocks;
    var block := Block(compressed, data);
    assert (block + rest)[0] == block[0];
    OneBlock(block + rest, BlockContents(Record(Unpadded(compressed, data), |data|), data), rest, dec);
  }

  lemma RecordsRead(unpadded: nat, u: nat, rest: bytes)
    requires Fits(unpadded) && Fits(u)
    ensures ReadRecords(Vli(unpadded) + (Vli(u) + rest), [Record(unpadded, u)]) == Some(rest)
  {
    VliThen(unpadded, Vli(u) + rest);
    VliThen(u, rest);
    hide Vli, ReadVli;
    assert ReadRecords(rest, []) == Some(rest);
  }

  lemma CountReads(rest: bytes)
    ensures ReadVli([0x01] + rest) == Some(Parsed(1, rest))
  {
    assert Vli(1) == [0x01];
    VliThen(1, rest);
  }

  /** The index repeats the sizes of the block. */
  lemma IndexReads(unpadded: nat, u: nat, rest: bytes)
    requires Fits(unpadded) && Fits(u)
    ensures var index := Index(unpadded, u);
            ReadIndex(index + rest, [Record(unpadded, u)]) == Some(Parsed(|index|, rest))
  {
    hide *;
    var listed := Listed(unpadded, u);
    var padding := Repeat(0, PadTo4(|listed|));
    var crc := CrcField(listed + padding);
    var after := padding + (crc + rest);
    IndexIs(unpadded, u);
    IndexReadsFrom(Index(unpadded, u) + rest, listed, padding, crc, after, Vli(unpadded) + (Vli(u) + after), unpadded,
      u, rest);
  }

  lemma IndexIs(unpadded: nat, u: nat)
    ensures var listed := Listed(unpadded, u);
            var padding := Repeat(0, PadTo4(|listed|));
            Index(unpadded, u) == listed + padding + CrcField(listed + padding)
  {
    hide CrcField, Listed, PadTo4;
  }

  lemma IndexReadsFrom(data: bytes, listed: bytes, padding: bytes, crc: bytes, after: bytes, s1: bytes,
                       unpadded: nat, u: nat, rest: bytes)
    requires Fits(unpadded) && Fits(u) && data == listed + padding + crc + rest && listed == Listed(unpadded, u)
    requires padding == Repeat(0, PadTo4(|listed|)) && crc == CrcField(listed + padding)
    requires after == padding + (crc + rest) && s1 == Vli(unpadded) + (Vli(u) + after)
    ensures ReadIndex(data, [Record(unpadded, u)]) == Some(Parsed(|listed| + |padding| + 4, rest))
  {
    hide CrcField, ReadVli, ReadRecords, PadTo4, ReadIndex;
    IndexSplit(data, listed, Vli(unpadded), Vli(u), padding, crc, after, s1, rest);
    hide Vli, Listed;
    CountReads(s1);
    RecordsRead(unpadded, u, after);
    IndexFromParts(data, [Record(unpadded, u)], s1, after, |listed|, listed + padding, rest);
  }

  lemma IndexSplit(data: bytes, listed: bytes, a: bytes, b: bytes, padding: bytes, crc: bytes, after: bytes,
                   s1: bytes, rest: bytes)
    requires data == listed + padding + crc + rest && listed == [0x00, 0x01] + (a + b) && |crc| == 4
    requires after == padding + (crc + rest) && s1 == a + (b + after)
    ensures data != [] && data[0] == 0 && data[1..] == [0x01] + s1 && |data| - |after| == |listed|
    ensures var n := |listed + padding|;
            && n == |listed| + |padding| && n + 4 <= |data| && data[..n] == listed + padding
            && data[|listed|..n] == padding
            && data[n..n + 4] == crc && data[n + 4..] == rest
  {
    IndexStart(a, b, padding, crc, rest);
    IndexParts(listed, padding, crc, rest);
  }

  /** An index from its parts. */
  lemma IndexFromParts(data: bytes, records: seq<Record>, s1: bytes, after: bytes, listed: nat, covered: bytes,
                       rest: bytes)
    requires data != [] && data[0] == 0 && ReadVli(data[1..]) == Some(Parsed(|records|, s1))
    requires ReadRecords(s1, records) == Some(after) && |data| - |after| == listed
    requires |covered| == listed + PadTo4(listed) && |covered| + 4 <= |data|
    requires data[..|covered|] == covered && AllZero(data[listed..|covered|])
    requires data[|covered|..|covered| + 4] == CrcField(covered) && data[|covered| + 4..] == rest
    ensures ReadIndex(data, records) == Some(Parsed(|covered| + 4, rest))
  {
    hide ReadVli, ReadRecords, PadTo4, AllZero, CrcField;
  }

  lemma IndexStart(a: bytes, b: bytes, padding: bytes, crc: bytes, rest: bytes)
    ensures var data := [0x00, 0x01] + (a + b) + padding + crc + rest;
            data[0] == 0 && data[1..] == [0x01] + (a + (b + (padding + (crc + rest))))
  {
    assert [0x00, 0x01] + (a + b) + padding + crc + rest == [0x00] + ([0x01] + (a + (b + (padding + (crc + rest)))));
  }

  lemma IndexParts(listed: bytes, padding: bytes, crc: bytes, rest: bytes)
    requires |crc| == 4
    ensures var data, size := listed + padding + crc + rest, |listed| + |padding| + 4;
            && data[..size - 4] == listed + padding && data[|listed|..size - 4] == padding
            && data[size - 4..size] == crc && data[size..] == rest && |data| - |padding + (crc + rest)| == |listed|
  {
  }

  lemma IndexSize(unpadded: nat, u: nat)
    requires Fits(unpadded) && Fits(u)
    ensures 8 <= |Index(unpadded, u)| <= 28 && |Index(unpadded, u)| % 4 == 0 && Index(unpadded, u)[0] == 0
  {
    FitsSize(unpadded);
    FitsSize(u);
    hide Vli, CrcField;
  }

  lemma FooterReads(indexSize: nat)
    requires 4 <= indexSize < 0x400 && indexSize % 4 == 0
    ensures FooterMatches(Footer(indexSize), CHECK_CRC32, indexSize)
  {
    hide CrcField, Pack32, Read32;
    var f, fields := Footer(indexSize), FooterFields(indexSize);
    assert f[..4] == CrcField(fields) && f[4..10] == fields && f[10..12] == FOOTER_MAGIC;
    assert f[4..8] == Pack32(indexSize / 4 - 1) && f[8..10] == FLAGS;
    ReadPacked32(f, 4, indexSize / 4 - 1);
    assert ReadFlags(FLAGS) == Some(CHECK_CRC32);
  }

  // ----- the stream -----

  /** Both sizes and the Unpadded Size fit the format's integers. */
  predicate Encodable(compressed: bytes, data: bytes) {
    Fits(Unpadded(compressed, data)) && Fits(|data|)
  }

  function Stream(compressed: bytes, data: bytes): bytes
    requires Encodable(compressed, data)
  {
    FieldsSize(|compressed|, |data|);
    IndexSize(Unpadded(compressed, data), |data|);
    var index := Index(Unpadded(compressed, data), |data|);
    StreamHeader() + (Block(compressed, data) + (index + Footer(|index|)))
  }

  /** A reader of the format accepts the stream and returns the data. */
  lemma StreamReads(compressed: bytes, data: bytes, dec: Decoder)
    requires Encodable(compressed, data) && compressed != [] && dec(DICTIONARY_SIZE, compressed) == Some(data)
    ensures ReadStream(Stream(compressed, data), dec) == Some(data)
  {
    var unpadded := Unpadded(compressed, data);
    FieldsSize(|compressed|, |data|);
    IndexSize(unpadded, |data|);
    var index := Index(unpadded, |data|);
    var footer := Footer(|index|);
    hide HeaderFields, Block, Index, Footer, StreamHeader, ReadBlocks, ReadIndex, ReadStreamHeader, FooterMatches,
      ReadStream, Unpadded;
    StreamHeaderReads(Block(compressed, data) + (index + footer));
    assert (index + footer)[0] == index[0];
    BlocksRead(compressed, data, index + footer, dec);
    IndexReads(unpadded, |data|, footer);
    FooterReads(|index|);
    StreamFromParts(Stream(compressed, data), Block(compressed, data) + (index + footer), index + footer,
      [Record(unpadded, |data|)], data, |index|, footer, dec);
  }

  /** A stream from its parts, each with what is left after it. */
  lemma StreamFromParts(stream: bytes, s1: bytes, s2: bytes, records: seq<Record>, data: bytes, indexSize: nat,
                        footer: bytes, dec: Decoder)
    requires ReadStreamHeader(stream) == Some(Parsed(CHECK_CRC32, s1))
    requires ReadBlocks(s1, dec) == Some(Parsed(Contents(records, data), s2))
    requires ReadIndex(s2, records) == Some(Parsed(indexSize, footer)) && FooterMatches(footer, CHECK_CRC32, indexSize)
    ensures ReadStream(stream, dec) == Some(data)
  {
    hide ReadBlocks, ReadIndex, ReadStreamHeader, FooterMatches;
  }

  /** The round trip, for every byte string and every codec whose decoder inverts its encoder. */
  lemma FragmentRoundTrip(data: bytes, enc: bytes -> bytes, dec: Decoder)
    requires Inverts(enc, dec) && Encodable(enc(data), data)
    ensures ReadStream(Stream(enc(data), data), dec) == Some(data)
  {
    hide Stream, ReadStream, Encodable;
    StreamReads(enc(data), data, dec);
  }

  /** The block header as it is assembled: fields, padding, then the size byte and the CRC. */
  method BuildBlockHeader(c: nat, u: nat) returns (header: bytes)
    requires Fits(c) && Fits(u)
    ensures |HeaderFields(c, u)| + 6 <= 0x400 && header == WithCrc(HeaderBody(c, u))
  {
    FieldsSize(c, u);
    hide CrcField;
    header := [0x00, 0xC0];
    var compressedSize := XzVli.XzVli(c);
    var uncompressedSize := XzVli.XzVli(u);
    hide Vli;
    header := header + compressedSize.value;
    header := header + uncompressedSize.value;
    header := header + [0x21, 0x01, 0x0A];
    assert header == [0x00, 0xC0] + SizesAndFilter(c, u);
    header := header + Repeat(0, PadTo4(|header| + 4));
    SamePadding(|SizesAndFilter(c, u)|);
    assert header == [0x00, 0xC0] + HeaderFields(c, u);
    header := header[0 := (|header| + 4) / 4 - 1];
    assert header == HeaderBody(c, u);
    header := header + CrcField(header);
  }

  lemma SamePadding(n: nat)
    ensures PadTo4(2 + n + 4) == PadTo4(2 + n)
  {
  }

  method BuildIndex(unpadded: nat, u: nat) returns (index: bytes)
    ensures index == Index(unpadded, u)
  {
    hide CrcField;
    index := [0x00, 0x01];
    var first := XzVli.XzVli(unpadded);
    var second := XzVli.XzVli(u);
    hide Vli;
    index := index + (first.value + second.value);
    index := index + Repeat(0, PadTo4(|index|));
    index := index + CrcField(index);
  }

  method BuildBlock(compressed: bytes, data: bytes, blockHeader: bytes) returns (block: bytes)
    requires |HeaderFields(|compressed|, |data|)| + 6 <= 0x400
    requires blockHeader == WithCrc(HeaderBody(|compressed|, |data|))
    ensures block == Block(compressed, data)
  {
    hide CrcField, HeaderFields, WithCrc, HeaderBody;
    block := blockHeader + compressed;
    block := block + Repeat(0, PadTo4(|compressed|));
    block := block + CrcField(data);
  }

  method BuildFooter(index: bytes) returns (footer: bytes)
    requires 4 <= |index| < 0x400
    ensures footer == Footer(|index|)
  {
    hide CrcField, Pack32;
    var footerFields := Pack32(|index| / 4 - 1) + FLAGS;
    footer := CrcField(footerFields) + footerFields + FOOTER_MAGIC;
  }

  /** build_squashfs_xz_fragment, the LZMA2 encoder being a parameter. */
  method BuildSquashfsXzFragment(data: bytes, enc: bytes -> bytes) returns (stream: bytes)
    requires Encodable(enc(data), data)
    ensures stream == Stream(enc(data), data)
  {
    var compressed := enc(data);
    StreamIs(compressed, data);
    hide *;
    var blockHeader := BuildBlockHeader(|compressed|, |data|);
    var block := BuildBlock(compressed, data, blockHeader);
    var index := BuildIndex(|blockHeader| + |compressed| + 4, |data|);
    var footer := BuildFooter(index);
    return StreamHeader() + (block + (index + footer));
  }

  lemma StreamIs(compressed: bytes, data: bytes)
    requires Encodable(compressed, data)
    ensures Fits(|compressed|) && Fits(|data|)
    ensures |HeaderFields(|compressed|, |data|)| + 6 <= 0x400
    ensures var index := Index(|WithCrc(HeaderBody(|compressed|, |data|))| + |compressed| + 4, |data|);
            && 4 <= |index| < 0x400
            && Stream(compressed, data) == StreamHeader() + (Block(compressed, data) + (index + Footer(|index|)))
  {
    hide HeaderFields, WithCrc, HeaderBody, StreamHeader, Block, Index, Footer;
    FieldsSize(|compressed|, |data|);
    IndexSize(Unpadded(compressed, data), |data|);
    HeaderWithCrc(|compressed|, |data|);
  }

  lemma HeaderWithCrc(c: nat, u: nat)
    requires |HeaderFields(c, u)| + 6 <= 0x400
    ensures |WithCrc(HeaderBody(c, u))| == |HeaderFields(c, u)| + 6
  {
    hide CrcField, HeaderFields;
  }
}
