/** SquashFS metadata and file reading: what the bytes mean, and a reader with caches that returns just that. */
module SquashFs {
  import opened Bytes

  const METADATA_BLOCK_SIZE: nat := 8192
  const INVALID_FRAGMENT: nat := 0xFFFF_FFFF

  type Decompressor = bytes -> Option<bytes>

  /** The image file, the superblock's fields that reading needs, and the decompressor. */
  datatype Volume = Volume(image: bytes, base: nat, blockSize: nat, fragmentTable: nat, dec: Decompressor)

  /** A decompressed metadata block and the position of the one after it. */
  datatype MetaBlock = MetaBlock(data: bytes, next: nat)

  datatype Inode = Inode(kind: nat, startBlock: Option<nat>, fileSize: nat, fragment: nat, fragmentOffset: nat,
    blockSizes: seq<u32>)

  // ----- what the bytes mean -----

  /** _read_at. */
  function ReadAt(v: Volume, offset: nat, size: nat): (r: Result<bytes>)
    ensures r.Ok? <==> size == 0 || v.base + offset + size <= |v.image|
    ensures r.Ok? ==> |r.value| == size
  {
    var data := Clip(v.image, v.base + offset, v.base + offset + size);
    if |data| != size then Err("truncated read") else Ok(data)
  }

  function Unpack(v: Volume, payload: bytes, raw: bool): Result<bytes> {
    if raw then Ok(payload)
    else
      var data := v.dec(payload);
      if data.None? then Err("corrupt compressed data") else Ok(data.value)
  }

  function BlockAt(v: Volume, at: nat): (r: Result<MetaBlock>)
    ensures r.Ok? ==> at + 2 <= r.value.next && at + 2 <= |v.image|
  {
    var header :- ReadAt(v, at, 2);
    var word := Read16(header, 0);
    var payload :- ReadAt(v, at + 2, word % 0x8000);
    var data :- Unpack(v, payload, word / 0x8000 == 1);
    if |data| > METADATA_BLOCK_SIZE then Err("oversized metadata block")
    else Ok(MetaBlock(data, at + 2 + word % 0x8000))
  }

  /** The first n blocks from a position, decompressed and concatenated. */
  function Joined(v: Volume, at: nat, n: nat): Result<bytes>
    decreases n
  {
    if n == 0 then Ok([])
    else
      var block :- BlockAt(v, at);
      var rest :- Joined(v, block.next, n - 1);
      Ok(block.data + rest)
  }

  /** The rest of a metadata read: every block visited has to contribute. */
  function Collect(v: Volume, at: nat, offset: nat, size: nat): Result<bytes>
    decreases size
  {
    if size == 0 then Ok([])
    else
      var block :- BlockAt(v, at);
      var take := Min(size, |block.data| as int - offset);
      if take <= 0 then Err("metadata reference points outside block")
      else
        After(block.data[offset..offset + take], Collect(v, block.next, 0, size - take))
  }

  // ----- the byte stream -----

  /** A position in the stream: the next byte, if the block reaches that far. */
  datatype Cursor = Cursor(at: nat, offset: nat)

  datatype Step = Step(b: byte, after: Cursor)

  /** The next byte; blocks without bytes at the offset are skipped. */
  function Next(v: Volume, c: Cursor): Result<Step>
    decreases |v.image| + 2 - c.at
  {
    var block :- BlockAt(v, c.at);
    if c.offset < |block.data| then Ok(Step(block.data[c.offset], Cursor(c.at, c.offset + 1)))
    else Next(v, Cursor(block.next, 0))
  }

  function Taken(v: Volume, c: Cursor, size: nat): Result<bytes>
    decreases size
  {
    if size == 0 then Ok([])
    else
      var s :- Next(v, c);
      After([s.b], Taken(v, s.after, size - 1))
  }

  // ----- a metadata read is a slice of the concatenation -----

  /** A successful read is the requested slice of the concatenated blocks. */
  lemma {:induction false} CollectIsSlice(v: Volume, at: nat, offset: nat, size: nat) returns (n: nat)
    requires size > 0 && Collect(v, at, offset, size).Ok?
    ensures Joined(v, at, n).Ok? && offset + size <= |Joined(v, at, n).value|
    ensures Collect(v, at, offset, size).value == Joined(v, at, n).value[offset..offset + size]
    decreases size
  {
    hide BlockAt;
    var block := BlockAt(v, at).value;
    var take := Min(size, |block.data| as int - offset);
    if take == size {
      n := 1;
      assert Joined(v, block.next, 0) == Ok([]);
      assert Joined(v, at, 1).value == block.data + [] == block.data;
      assert Collect(v, block.next, 0, 0) == Ok([]);
      assert block.data[offset..offset + take] + [] == block.data[offset..offset + take];
    } else {
      var m := CollectIsSlice(v, block.next, 0, size - take);
      n := m + 1;
      var rest := Joined(v, block.next, m).value;
      assert Joined(v, at, n).value == block.data + rest;
      assert (block.data + rest)[offset..offset + size] == block.data[offset..] + rest[0..size - take];
    }
  }

  // ----- and agrees with the stream -----

  /** Taking bytes that are all in the current block. */
  lemma {:induction false} TakenWithin(v: Volume, at: nat, offset: nat, take: nat, size: nat)
    requires BlockAt(v, at).Ok? && offset + take <= |BlockAt(v, at).value.data| && take <= size
    ensures Taken(v, Cursor(at, offset), size) ==
            After(BlockAt(v, at).value.data[offset..offset + take], Taken(v, Cursor(at, offset + take), size - take))
    decreases take
  {
    hide BlockAt;
    var data := BlockAt(v, at).value.data;
    var rest := Taken(v, Cursor(at, offset + take), size - take);
    if take == 0 {
      AfterAfter([], [], rest);
      assert data[offset..offset] == [];
    } else {
      TakenWithin(v, at, offset + 1, take - 1, size - 1);
      AfterAfter([data[offset]], data[offset + 1..offset + take], rest);
      assert [data[offset]] + data[offset + 1..offset + take] == data[offset..offset + take];
    }
  }

  /** At the end of a block the stream goes on with the next one. */
  lemma TakenSkips(v: Volume, at: nat, offset: nat, size: nat)
    requires BlockAt(v, at).Ok? && offset >= |BlockAt(v, at).value.data| && size > 0
    ensures Taken(v, Cursor(at, offset), size) == Taken(v, Cursor(BlockAt(v, at).value.next, 0), size)
  {
    hide BlockAt;
  }

  /** Whenever the metadata read succeeds, taking the same number of bytes from the stream gives the same bytes. */
  lemma {:induction false} TakeAgrees(v: Volume, at: nat, offset: nat, size: nat)
    requires Collect(v, at, offset, size).Ok?
    ensures Taken(v, Cursor(at, offset), size) == Collect(v, at, offset, size)
    decreases size
  {
    hide BlockAt;
    if size > 0 {
      var block := BlockAt(v, at).value;
      var take := Min(size, |block.data| as int - offset);
      TakenWithin(v, at, offset, take, size);
      if take < size {
        TakenSkips(v, at, offset + take, size - take);
      }
      TakeAgrees(v, block.next, 0, size - take);
    }
  }

  /** Every block visited has a byte at the position where reading goes on. */
  predicate Contributes(v: Volume, at: nat, offset: nat, size: nat)
    decreases size
  {
    size == 0 || BlockAt(v, at).Err?
    || (offset < |BlockAt(v, at).value.data|
        && Contributes(v, BlockAt(v, at).value.next, 0, size - Min(size, |BlockAt(v, at).value.data| as int - offset)))
  }

  /** The two readers differ only over blocks without bytes, which the stream skips and the metadata read refuses. */
  lemma {:induction false} CollectExactly(v: Volume, at: nat, offset: nat, size: nat)
    ensures Collect(v, at, offset, size).Ok? <==>
            Taken(v, Cursor(at, offset), size).Ok? && Contributes(v, at, offset, size)
    decreases size
  {
    hide BlockAt;
    if size > 0 && BlockAt(v, at).Ok? {
      var block := BlockAt(v, at).value;
      var take := Min(size, |block.data| as int - offset);
      if take > 0 {
        TakenWithin(v, at, offset, take, size);
        if take < size {
          TakenSkips(v, at, offset + take, size - take);
        }
        CollectExactly(v, block.next, 0, size - take);
      }
    }
  }

  // ----- fragments and files -----

  function Read64(data: bytes, at: nat): nat
    requires at + 8 <= |data|
  {
    Read32(data, at) + 0x1_0000_0000 * Read32(data, at + 4)
  }

  datatype Entry = Entry(start: nat, sizeWord: u32)

  function FragmentEntryAt(v: Volume, index: nat): Result<Entry> {
    var perBlock := METADATA_BLOCK_SIZE / 16;
    var pointer :- ReadAt(v, v.fragmentTable + index / perBlock * 8, 8);
    var raw :- Collect(v, Read64(pointer, 0), index % perBlock * 16, 16);
    CollectSize(v, Read64(pointer, 0), index % perBlock * 16, 16);
    Ok(Entry(Read64(raw, 0), Read32(raw, 8)))
  }

  lemma {:induction false} CollectSize(v: Volume, at: nat, offset: nat, size: nat)
    ensures Collect(v, at, offset, size).Ok? ==> |Collect(v, at, offset, size).value| == size
    decreases size
  {
    hide BlockAt;
    if size > 0 && Collect(v, at, offset, size).Ok? {
      var block := BlockAt(v, at).value;
      CollectSize(v, block.next, 0, size - Min(size, |block.data| as int - offset));
    }
  }

  /** The low 24 bits are the stored size, bit 24 says that the data is not compressed. */
  function StoredSize(word: u32): nat {
    word % 0x100_0000
  }

  predicate StoredRaw(word: u32) {
    word / 0x100_0000 % 2 == 1
  }

  function FragmentAt(v: Volume, index: nat): Result<bytes> {
    var entry :- FragmentEntryAt(v, index);
    var payload :- ReadAt(v, entry.start, StoredSize(entry.sizeWord));
    Unpack(v, payload, StoredRaw(entry.sizeWord))
  }

  /** One data block: a hole, or stored data that unpacks to the logical size. */
  function DataBlock(v: Volume, at: nat, word: u32, logical: nat): (r: Result<bytes>)
    ensures r.Ok? ==> |r.value| == logical
  {
    if StoredSize(word) == 0 then Ok(Repeat(0, logical))
    else
      var payload :- ReadAt(v, at, StoredSize(word));
      var block :- Unpack(v, payload, StoredRaw(word));
      if |block| != logical then Err("bad data block size") else Ok(block)
  }

  /** The data blocks in order, each starting where the stored data before it ends. */
  function DataBlocks(v: Volume, at: nat, words: seq<u32>, remaining: nat): Result<bytes>
    decreases |words|
  {
    if words == [] then Ok([])
    else
      var logical := Min(remaining, v.blockSize);
      var block :- DataBlock(v, at, words[0], logical);
      After(block, DataBlocks(v, at + StoredSize(words[0]), words[1..], remaining - logical))
  }

  /** What the blocks cover of a file. */
  function Covered(v: Volume, blocks: nat, remaining: nat): (c: nat)
    ensures c <= remaining
  {
    Min(remaining, blocks * v.blockSize)
  }

  /** The last bytes come from the fragment. */
  function TailOf(v: Volume, inode: Inode, remaining: nat): (r: Result<bytes>)
    ensures r.Ok? ==> |r.value| == remaining
  {
    if remaining == 0 then Ok([])
    else if inode.fragment == INVALID_FRAGMENT then Err("regular file has missing data")
    else
      var fragment :- FragmentAt(v, inode.fragment);
      var tail := Clip(fragment, inode.fragmentOffset, inode.fragmentOffset + remaining);
      if |tail| != remaining then Err("fragment tail is truncated") else Ok(tail)
  }

  /** A regular file: its data blocks, then its tail. */
  function FileContents(v: Volume, inode: Inode): Result<bytes> {
    if inode.kind !in {2, 9} || inode.startBlock.None? then Err("not a regular-file inode")
    else
      var blocks :- DataBlocks(v, inode.startBlock.value, inode.blockSizes, inode.fileSize);
      var tail :- TailOf(v, inode, inode.fileSize - Covered(v, |inode.blockSizes|, inode.fileSize));
      Ok(blocks + tail)
  }

  lemma {:induction false} DataBlocksSize(v: Volume, at: nat, words: seq<u32>, remaining: nat)
    requires DataBlocks(v, at, words, remaining).Ok?
    ensures |DataBlocks(v, at, words, remaining).value| == Covered(v, |words|, remaining)
    decreases |words|
  {
    hide DataBlock;
    if words != [] {
      var logical := Min(remaining, v.blockSize);
      DataBlocksSize(v, at + StoredSize(words[0]), words[1..], remaining - logical);
      assert |words| * v.blockSize == v.blockSize + (|words| - 1) * v.blockSize;
    }
  }

  /** A file that can be read has exactly its declared size. */
  lemma FileSize(v: Volume, inode: Inode)
    requires FileContents(v, inode).Ok?
    ensures |FileContents(v, inode).value| == inode.fileSize
  {
    hide TailOf;
    DataBlocksSize(v, inode.startBlock.value, inode.blockSizes, inode.fileSize);
  }

  /** The logical block k of a file is what its own size word and the stored sizes before it determine. */
  function StoredBefore(words: seq<u32>, k: nat): nat
    requires k <= |words|
  {
    if k == 0 then 0 else StoredSize(words[0]) + StoredBefore(words[1..], k - 1)
  }

  lemma {:induction false} BlockMeaning(v: Volume, at: nat, words: seq<u32>, remaining: nat, k: nat)
    requires k < |words| && DataBlocks(v, at, words, remaining).Ok?
    ensures var start, data := Covered(v, k, remaining), DataBlocks(v, at, words, remaining).value;
            var logical := Covered(v, k + 1, remaining) - start;
            && 0 <= logical && start + logical <= |data|
            && DataBlock(v, at + StoredBefore(words, k), words[k], logical) == Ok(data[start..start + logical])
    decreases k
  {
    hide DataBlock, StoredSize, Covered;
    CoveredNone(v, remaining);
    var l := Min(remaining, v.blockSize);
    var block := DataBlock(v, at, words[0], l).value;
    var rest := DataBlocks(v, at + StoredSize(words[0]), words[1..], remaining - l).value;
    if k == 0 {
      CoveredStep(v, 1, remaining);
      CoveredNone(v, remaining - l);
      assert (block + rest)[0..l] == block;
    } else {
      BlockMeaning(v, at + StoredSize(words[0]), words[1..], remaining - l, k - 1);
      CoveredStep(v, k, remaining);
      CoveredStep(v, k + 1, remaining);
      var start := Covered(v, k - 1, remaining - l);
      var logical := Covered(v, k, remaining - l) - start;
      assert (block + rest)[l + start..l + start + logical] == rest[start..start + logical];
    }
  }

  lemma CoveredNone(v: Volume, remaining: nat)
    ensures Covered(v, 0, remaining) == 0
  {
  }

  lemma CoveredStep(v: Volume, k: nat, remaining: nat)
    requires k > 0
    ensures var l := Min(remaining, v.blockSize);
            Covered(v, k, remaining) == l + Covered(v, k - 1, remaining - l)
  {
    assert k * v.blockSize == v.blockSize + (k - 1) * v.blockSize;
  }

  // ----- the reader -----

  class SquashFS {
    const v: Volume
    var metadataCache: map<nat, MetaBlock>
    var fragmentCache: map<nat, bytes>

    /** Whatever is cached is what the image would give. */
    ghost predicate Valid()
      reads this
    {
      && (forall at :: at in metadataCache ==> BlockAt(v, at) == Ok(metadataCache[at]))
      && (forall i :: i in fragmentCache ==> FragmentAt(v, i) == Ok(fragmentCache[i]))
    }

    constructor (v: Volume)
      ensures Valid() && this.v == v
    {
      this.v := v;
      metadataCache, fragmentCache := map[], map[];
    }

    /** _metadata_block. */
    method MetadataBlock(at: nat) returns (r: Result<MetaBlock>)
      requires Valid()
      modifies this
      ensures Valid() && r == BlockAt(v, at)
    {
      hide FragmentAt, Read16, Clip, Unpack;
      if at in metadataCache {
        return Ok(metadataCache[at]);
      }
      var header :- ReadAt(v, at, 2);
      var word := Read16(header, 0);
      var payload :- ReadAt(v, at + 2, word % 0x8000);
      var data :- Unpack(v, payload, word / 0x8000 == 1);
      if |data| > METADATA_BLOCK_SIZE {
        return Err("oversized metadata block");
      }
      var block := MetaBlock(data, at + 2 + word % 0x8000);
      metadataCache := metadataCache[at := block];
      return Ok(block);
    }

    /** _read_metadata. */
    method ReadMetadata(tableStart: nat, blockOffset: nat, innerOffset: nat, size: nat) returns (r: Result<bytes>)
      requires Valid()
      modifies this
      ensures Valid() && r == Collect(v, tableStart + blockOffset, innerOffset, size)
    {
      hide BlockAt, FragmentAt, After;
      var out: bytes := [];
      var at: nat, offset: nat := tableStart + blockOffset, innerOffset;
      AfterAfter([], [], Collect(v, at, offset, size));
      while |out| < size
        invariant Valid() && |out| <= size
        invariant Collect(v, tableStart + blockOffset, innerOffset, size) ==
                  After(out, Collect(v, at, offset, size - |out|))
      {
        AfterEnds(out);
        var block :- MetadataBlock(at);
        var take := Min(size - |out|, |block.data| as int - offset);
        if take <= 0 {
          return Err("metadata reference points outside block");
        }
        AfterAfter(out, block.data[offset..offset + take], Collect(v, block.next, 0, size - |out| - take));
        out := out + block.data[offset..offset + take];
        at, offset := block.next, 0;
      }
      AfterEnds(out);
      return Ok(out);
    }

    method FragmentEntry(index: nat) returns (r: Result<Entry>)
      requires Valid()
      modifies this
      ensures Valid() && r == FragmentEntryAt(v, index)
    {
      hide Collect, BlockAt, FragmentAt;
      var perBlock := METADATA_BLOCK_SIZE / 16;
      var pointer :- ReadAt(v, v.fragmentTable + index / perBlock * 8, 8);
      var raw :- ReadMetadata(Read64(pointer, 0), 0, index % perBlock * 16, 16);
      CollectSize(v, Read64(pointer, 0), index % perBlock * 16, 16);
      return Ok(Entry(Read64(raw, 0), Read32(raw, 8)));
    }

    /** _fragment_data. */
    method FragmentData(index: nat) returns (r: Result<bytes>)
      requires Valid()
      modifies this
      ensures Valid() && r == FragmentAt(v, index)
    {
      hide BlockAt, FragmentEntryAt;
      if index in fragmentCache {
        return Ok(fragmentCache[index]);
      }
      var entry :- FragmentEntry(index);
      var payload :- ReadAt(v, entry.start, StoredSize(entry.sizeWord));
      var data :- Unpack(v, payload, StoredRaw(entry.sizeWord));
      fragmentCache := fragmentCache[index := data];
      return Ok(data);
    }

    /** The loop of read_file over the block sizes; the output and what remains always add up to the file size. */
    method ReadBlocks(inode: Inode) returns (r: Result<bytes>)
      requires inode.startBlock.Some?
      ensures r == DataBlocks(v, inode.startBlock.value, inode.blockSizes, inode.fileSize)
      ensures r.Ok? ==> |r.value| == Covered(v, |inode.blockSizes|, inode.fileSize)
    {
      hide DataBlock, After, StoredSize;
      var out: bytes, at: nat, remaining: nat := [], inode.startBlock.value, inode.fileSize;
      AfterAfter([], [], DataBlocks(v, at, inode.blockSizes, remaining));
      assert inode.blockSizes[0..] == inode.blockSizes;
      for k := 0 to |inode.blockSizes|
        invariant |out| + remaining == inode.fileSize
        invariant DataBlocks(v, inode.startBlock.value, inode.blockSizes, inode.fileSize) ==
                  After(out, DataBlocks(v, at, inode.blockSizes[k..], remaining))
      {
        var word := inode.blockSizes[k];
        var logical := Min(remaining, v.blockSize);
        AfterEnds(out);
        var block :- DataBlock(v, at, word, logical);
        AfterAfter(out, block, DataBlocks(v, at + StoredSize(word), inode.blockSizes[k..][1..], remaining - logical));
        out := out + block;
        assert inode.blockSizes[k..][1..] == inode.blockSizes[k + 1..];
        at := at + StoredSize(word);
        remaining := remaining - logical;
      }
      AfterEnds(out);
      DataBlocksSize(v, inode.startBlock.value, inode.blockSizes, inode.fileSize);
      return Ok(out);
    }

    /** read_file. */
    method ReadFile(inode: Inode) returns (r: Result<bytes>)
      requires Valid()
      modifies this
      ensures Valid() && r == FileContents(v, inode)
    {
      hide FragmentAt, BlockAt, DataBlocks, Covered;
      if inode.kind !in {2, 9} || inode.startBlock.None? {
        return Err("not a regular-file inode");
      }
      var out :- ReadBlocks(inode);
      var remaining := inode.fileSize - |out|;
      assert out + [] == out;
      if remaining > 0 {
        if inode.fragment == INVALID_FRAGMENT {
          return Err("regular file has missing data");
        }
        var fragment :- FragmentData(inode.fragment);
        var tail := Clip(fragment, inode.fragmentOffset, inode.fragmentOffset + remaining);
        if |tail| != remaining {
          return Err("fragment tail is truncated");
        }
        out := out + tail;
      }
      assert |out| == inode.fileSize;
      return Ok(out);
    }
  }

  /** _metadata_stream: a generator over one reader's metadata. */
  class MetadataStream {
    const fs: SquashFS
    var at: nat
    var offset: nat

    constructor (fs: SquashFS, tableStart: nat, blockOffset: nat, innerOffset: nat)
      ensures this.fs == fs && at == tableStart + blockOffset && offset == innerOffset
    {
      this.fs := fs;
      at, offset := tableStart + blockOffset, innerOffset;
    }

    /** next(stream). */
    method NextByte() returns (r: Result<byte>)
      requires fs.Valid()
      modifies this, fs
      ensures fs.Valid()
      ensures var s := Next(fs.v, old(Cursor(at, offset)));
              if s.Ok? then r == Ok(s.value.b) && Cursor(at, offset) == s.value.after else r == Err(s.reason)
    {
      hide BlockAt, FragmentAt;
      while true
        invariant fs.Valid() && Next(fs.v, Cursor(at, offset)) == Next(fs.v, old(Cursor(at, offset)))
        decreases |fs.v.image| + 2 - at
      {
        var block :- fs.MetadataBlock(at);
        if offset < |block.data| {
          offset := offset + 1;
          return Ok(block.data[offset - 1]);
        }
        at, offset := block.next, 0;
      }
    }

    /** _take. */
    method Take(size: nat) returns (r: Result<bytes>)
      requires fs.Valid()
      modifies this, fs
      ensures fs.Valid() && r == Taken(fs.v, old(Cursor(at, offset)), size)
    {
      hide Next, BlockAt, FragmentAt, After;
      var out: bytes := [];
      AfterAfter([], [], Taken(fs.v, Cursor(at, offset), size));
      for k := 0 to size
        invariant fs.Valid()
        invariant Taken(fs.v, old(Cursor(at, offset)), size) == After(out, Taken(fs.v, Cursor(at, offset), size - k))
      {
        AfterEnds(out);
        var b :- NextByte();
        AfterAfter(out, [b], Taken(fs.v, Cursor(at, offset), size - k - 1));
        out := out + [b];
      }
      AfterEnds(out);
      return Ok(out);
    }
  }
}
