/** A reader of single .xz streams, following The .xz File Format sections 2.1, 3 and 4. */
module XzReader {
  import opened Bytes
  import opened XzVli
  import Crc32

  /** An LZMA2 decoder: dictionary size and compressed bytes to contents. */
  type Decoder = (nat, bytes) -> Option<bytes>

  datatype Filter = Filter(id: nat, properties: bytes)

  datatype BlockHeader = BlockHeader(size: nat, compressed: Option<nat>, uncompressed: Option<nat>,
    filters: seq<Filter>)

  /** Unpadded Size and Uncompressed Size. */
  datatype Record = Record(unpadded: nat, uncompressed: nat)

  datatype BlockContents = BlockContents(record: Record, data: bytes)

  datatype Contents = Contents(records: seq<Record>, data: bytes)

  const STREAM_MAGIC: bytes := [0xFD, 0x37, 0x7A, 0x58, 0x5A, 0x00]
  const FOOTER_MAGIC: bytes := [0x59, 0x5A]
  const LZMA2: nat := 0x21
  const CHECK_CRC32: byte := 1

  function CrcField(data: bytes): (p: bytes)
    ensures |p| == 4
  {
    Crc32.Stored(Crc32.Zlib(data, 0))
  }

  /** Bytes needed to reach a multiple of four. */
  function PadTo4(n: nat): (p: nat)
    ensures p < 4 && (n + p) % 4 == 0
  {
    (-(n as int)) % 4
  }

  predicate AllZero(data: bytes) {
    forall i :: 0 <= i < |data| ==> data[i] == 0
  }

  function Take(data: bytes, n: nat): Option<Parsed<bytes>> {
    if n <= |data| then Some(Parsed(data[..n], data[n..])) else None
  }

  // ----- section 2.1.1 -----

  /** The check type; the first flag byte and the high half of the second are reserved. */
  function ReadFlags(flags: bytes): Option<byte>
    requires |flags| == 2
  {
    if flags[0] == 0 && flags[1] < 0x10 then Some(flags[1]) else None
  }

  function ReadStreamHeader(stream: bytes): Option<Parsed<byte>> {
    if |stream| < 12 || stream[..6] != STREAM_MAGIC || stream[8..12] != CrcField(stream[6..8]) then None
    else
      var check := ReadFlags(stream[6..8]);
      if check.None? then None else Some(Parsed(check.value, stream[12..]))
  }

  // ----- section 3.1 -----

  function ReadFilter(data: bytes): Option<Parsed<Filter>> {
    var id := ReadVli(data);
    if id.None? then None
    else
      var size := ReadVli(id.value.rest);
      if size.None? then None
      else
        var properties := Take(size.value.rest, size.value.value);
        if properties.None? then None
        else Some(Parsed(Filter(id.value.value, properties.value.value), properties.value.rest))
  }

  function ReadFilters(data: bytes, n: nat): Option<Parsed<seq<Filter>>>
    decreases n
  {
    if n == 0 then Some(Parsed([], data))
    else
      var f := ReadFilter(data);
      if f.None? then None
      else
        var rest := ReadFilters(f.value.rest, n - 1);
        if rest.None? then None else Some(Parsed([f.value.value] + rest.value.value, rest.value.rest))
  }

  function ReadSize(data: bytes, present: bool): Option<Parsed<Option<nat>>> {
    if !present then Some(Parsed(None, data))
    else
      var v := ReadVli(data);
      if v.None? then None else Some(Parsed(Some(v.value.value), v.value.rest))
  }

  /** Sizes, filters and zero padding between the flags and the CRC; a Compressed Size of zero is invalid. */
  function ReadHeaderFields(fields: bytes, flags: byte, size: nat): Option<BlockHeader> {
    var c := ReadSize(fields, flags / 0x40 % 2 == 1);
    if c.None? || c.value.value == Some(0) then None
    else
      var u := ReadSize(c.value.rest, flags / 0x80 % 2 == 1);
      if u.None? then None
      else
        var filters := ReadFilters(u.value.rest, flags % 4 + 1);
        if filters.None? || !AllZero(filters.value.rest) then None
        else Some(BlockHeader(size, c.value.value, u.value.value, filters.value.value))
  }

  function HeaderSize(stored: byte): nat {
    (stored as int + 1) * 4
  }

  function ReadBlockHeader(data: bytes): Option<Parsed<BlockHeader>> {
    if data == [] || data[0] == 0 || HeaderSize(data[0]) > |data| then None
    else
      var size := HeaderSize(data[0]);
      var header := data[..size];
      if CrcField(header[..size - 4]) != header[size - 4..] || header[1] / 4 % 0x10 != 0 then None
      else
        var fields := ReadHeaderFields(header[2..size - 4], header[1], size);
        if fields.None? then None else Some(Parsed(fields.value, data[size..]))
  }

  // ----- section 5.3.1 -----

  /** The size for the low six bits of the property byte: 2 or 3 shifted left by bits / 2 + 11, up to 4 GiB - 1. */
  function DictionarySize(bits: nat): Option<nat> {
    if bits > 40 then None
    else if bits == 40 then Some(0xFFFF_FFFF)
    else Some((2 + bits % 2) * PowerOf2(bits / 2 + 11))
  }

  function PowerOf2(n: nat): nat {
    if n == 0 then 1 else 2 * PowerOf2(n - 1)
  }

  function Lzma2Dictionary(filters: seq<Filter>): Option<nat> {
    if |filters| == 1 && filters[0].id == LZMA2 && |filters[0].properties| == 1
    then DictionarySize(filters[0].properties[0])
    else None
  }

  // ----- sections 3.2 to 3.4 -----

  /** A block whose header gives the compressed size: data, zero padding, CRC-32 of the contents. */
  function ReadBlock(data: bytes, dec: Decoder): Option<Parsed<BlockContents>> {
    var header := ReadBlockHeader(data);
    if header.None? || header.value.value.compressed.None? then None
    else
      var h := header.value.value;
      var dictionary := Lzma2Dictionary(h.filters);
      var compressed := Take(header.value.rest, h.compressed.value);
      if dictionary.None? || compressed.None? then None
      else
        var contents := dec(dictionary.value, compressed.value.value);
        var padding := Take(compressed.value.rest, PadTo4(h.compressed.value));
        if contents.None? || padding.None? || !AllZero(padding.value.value) then None
        else if h.uncompressed.Some? && h.uncompressed.value != |contents.value| then None
        else
          var check := Take(padding.value.rest, 4);
          if check.None? || check.value.value != CrcField(contents.value) then None
          else Some(Parsed(BlockContents(Record(h.size + h.compressed.value + 4, |contents.value|), contents.value),
            check.value.rest))
  }

  /** Blocks up to the zero byte that starts the index. */
  function ReadBlocks(data: bytes, dec: Decoder): Option<Parsed<Contents>>
    decreases |data|
  {
    if data == [] then None
    else if data[0] == 0 then Some(Parsed(Contents([], []), data))
    else
      var block := ReadBlock(data, dec);
      if block.None? || |block.value.rest| >= |data| then None
      else
        var more := ReadBlocks(block.value.rest, dec);
        if more.None? then None
        else
          var b, c := block.value.value, more.value.value;
          Some(Parsed(Contents([b.record] + c.records, b.data + c.data), more.value.rest))
  }

  // ----- section 4 -----

  /** The records must repeat the sizes of the blocks. */
  function ReadRecords(data: bytes, records: seq<Record>): Option<bytes>
    decreases |records|
  {
    if records == [] then Some(data)
    else
      var unpadded := ReadVli(data);
      if unpadded.None? || unpadded.value.value != records[0].unpadded then None
      else
        var uncompressed := ReadVli(unpadded.value.rest);
        if uncompressed.None? || uncompressed.value.value != records[0].uncompressed then None
        else ReadRecords(uncompressed.value.rest, records[1..])
  }

  /** The size of the index, and what follows it. */
  function ReadIndex(data: bytes, records: seq<Record>): Option<Parsed<nat>> {
    if data == [] || data[0] != 0 then None
    else
      var count := ReadVli(data[1..]);
      if count.None? || count.value.value != |records| then None
      else
        var after := ReadRecords(count.value.rest, records);
        if after.None? || |after.value| > |data| then None
        else
          var listed := |data| - |after.value|;
          var size := listed + PadTo4(listed) + 4;
          if size > |data| || !AllZero(data[listed..size - 4]) || data[size - 4..size] != CrcField(data[..size - 4])
          then None
          else Some(Parsed(size, data[size..]))
  }

  // ----- section 2.1.2 -----

  predicate FooterMatches(footer: bytes, check: byte, indexSize: nat) {
    && |footer| == 12 && footer[..4] == CrcField(footer[4..10]) && (Read32(footer, 4) as int + 1) * 4 == indexSize
    && ReadFlags(footer[8..10]) == Some(check) && footer[10..12] == FOOTER_MAGIC
  }

  /** The contents of exactly one stream with CRC-32 checks. */
  function ReadStream(stream: bytes, dec: Decoder): Option<bytes> {
    var header := ReadStreamHeader(stream);
    if header.None? || header.value.value != CHECK_CRC32 then None
    else
      var blocks := ReadBlocks(header.value.rest, dec);
      if blocks.None? then None
      else
        var index := ReadIndex(blocks.value.rest, blocks.value.value.records);
        if index.None? || !FooterMatches(index.value.rest, header.value.value, index.value.value) then None
        else Some(blocks.value.value.data)
  }
}
