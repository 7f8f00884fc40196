/** Reading a SquashFS file system before and after the system patch: one script changes and nothing else. */
module SystemFiles {
  import opened Bytes
  import opened SystemPatch
  import opened SquashFs
  import XzReader
  import XzStream

  // ----- what the patch writes -----

  /** The image with the new stream at the fragment and its size in the size field; all else is the same. */
  predicate Rewritten(image: bytes, other: bytes, xz: bytes) {
    && |image| == |other| >= PATCH_END && |xz| == PATCHED_XZ_SIZE
    && other[FRAGMENT_START..FRAGMENT_START + |xz|] == xz
    && Read32(other, SIZE_FIELD) == |xz|
    && forall i :: 0 <= i < |image| && Kept(i, i + 1) ==> other[i] == image[i]
  }

  /** A range of offsets that the patch leaves alone. */
  predicate Kept(lo: nat, hi: nat) {
    || hi <= FRAGMENT_START
    || (FRAGMENT_START + PATCHED_XZ_SIZE <= lo && hi <= SIZE_FIELD)
    || SIZE_FIELD + 4 <= lo
  }

  lemma PatchRewrites(image: bytes, window: bytes, xz: bytes)
    requires |image| >= PATCH_END && WindowPatched(image[PATCH_START..PATCH_END], window, xz)
    ensures Rewritten(image, Patched(image, window), xz)
  {
    var p := Patched(image, window);
    assert p[PATCH_START..PATCH_END] == window;
    SliceOfSlice(p, PATCH_START, PATCH_END - PATCH_START, FRAGMENT_START - PATCH_START,
      FRAGMENT_START - PATCH_START + |xz|);
    SliceOfSlice(p, PATCH_START, PATCH_END - PATCH_START, SIZE_FIELD - PATCH_START, SIZE_FIELD - PATCH_START + 4);
    forall i | 0 <= i < |image| && Kept(i, i + 1)
      ensures p[i] == image[i]
    {
      KeptByte(image, window, xz, i);
    }
  }

  lemma KeptByte(image: bytes, window: bytes, xz: bytes, i: nat)
    requires |image| >= PATCH_END && WindowPatched(image[PATCH_START..PATCH_END], window, xz)
    requires i < |image| && Kept(i, i + 1)
    ensures Patched(image, window)[i] == image[i]
  {
    hide Read32;
    if PATCH_START <= i < PATCH_END {
      assert !InPatch(i - PATCH_START, |xz|);
      assert window[i - PATCH_START] == image[PATCH_START..PATCH_END][i - PATCH_START];
    }
  }

  lemma KeptSlice(image: bytes, other: bytes, xz: bytes, lo: nat, hi: nat)
    requires Rewritten(image, other, xz) && Kept(lo, hi) && lo <= hi <= |image|
    ensures other[lo..hi] == image[lo..hi]
  {
    hide Read32;
    forall i | lo <= i < hi
      ensures other[i] == image[i]
    {
      assert Kept(i, i + 1);
    }
  }

  lemma KeptWord(image: bytes, other: bytes, xz: bytes, at: nat)
    requires Rewritten(image, other, xz) && at + 4 <= |image| && Kept(at, at + 4)
    ensures Read16(other, at) == Read16(image, at) && Read32(other, at) == Read32(image, at)
  {
    assert Kept(at, at + 1) && Kept(at + 1, at + 2) && Kept(at + 2, at + 3) && Kept(at + 3, at + 4);
  }

  lemma KeptLong(image: bytes, other: bytes, xz: bytes, at: nat)
    requires Rewritten(image, other, xz) && at + 8 <= |image| && Kept(at, at + 8)
    ensures Read64(other, at) == Read64(image, at)
  {
    hide Read32, Rewritten;
    KeptWord(image, other, xz, at);
    KeptWord(image, other, xz, at + 4);
  }

  // ----- the fragment table -----

  /** Where the table's pointer to the metadata block of entry i is, and where the entry is in its block. */
  function PointerAt(v: Volume, i: nat): nat {
    v.base + v.fragmentTable + i / 512 * 8
  }

  function SlotAt(i: nat): nat {
    i % 512 * 16
  }

  /** The metadata block whose entry i has its size word at the size field. */
  const FIRST_SIZE: nat := SIZE_FIELD - 10

  /** An uncompressed metadata block whose payload has at least so many bytes. */
  predicate RawBlock(v: Volume, at: nat, size: nat) {
    && at + 2 <= |v.image| && Read16(v.image, at) / 0x8000 == 1
    && size <= Read16(v.image, at) % 0x8000 <= METADATA_BLOCK_SIZE
    && at + 2 + Read16(v.image, at) % 0x8000 <= |v.image|
  }

  /**
   A file system whose fragment i is the one that is patched: its table entry is in an uncompressed metadata
   block behind the stream, names the stream, and has its size word at the size field.
   */
  predicate StockTable(v: Volume, i: nat) {
    var table, block := PointerAt(v, i), FIRST_SIZE - SlotAt(i);
    && |v.image| >= PATCH_END && FRAGMENT_START + STOCK_XZ_SIZE <= block
    && table + 8 <= |v.image| && Kept(table, table + 8)
    && v.base + Read64(v.image, table) == block && RawBlock(v, block, SlotAt(i) + 16)
    && v.base + Read64(v.image, SIZE_FIELD - 8) == FRAGMENT_START
    && Read32(v.image, SIZE_FIELD) == STOCK_XZ_SIZE
  }

  lemma RawBlockAt(v: Volume, pointer: nat, size: nat)
    requires RawBlock(v, v.base + pointer, size)
    ensures var at := v.base + pointer;
            var n := Read16(v.image, at) % 0x8000;
            BlockAt(v, pointer) == Ok(MetaBlock(v.image[at + 2..at + 2 + n], pointer + 2 + n))
  {
    var at := v.base + pointer;
    assert ReadAt(v, pointer, 2).value == v.image[at..at + 2];
    assert Read16(ReadAt(v, pointer, 2).value, 0) == Read16(v.image, at);
    hide Read16;
  }

  /** A read that one block answers. */
  lemma CollectOne(v: Volume, pointer: nat, offset: nat, size: nat)
    requires BlockAt(v, pointer).Ok? && size > 0 && offset + size <= |BlockAt(v, pointer).value.data|
    ensures Collect(v, pointer, offset, size) == Ok(BlockAt(v, pointer).value.data[offset..offset + size])
  {
    hide BlockAt;
    var block := BlockAt(v, pointer).value;
    assert Collect(v, block.next, 0, 0) == Ok([]);
    assert block.data[offset..offset + size] + [] == block.data[offset..offset + size];
  }

  lemma RawRead(v: Volume, pointer: nat, offset: nat, size: nat)
    requires size > 0 && RawBlock(v, v.base + pointer, offset + size)
    ensures var at := v.base + pointer + 2 + offset;
            at + size <= |v.image| && Collect(v, pointer, offset, size) == Ok(v.image[at..at + size])
  {
    hide BlockAt, Read16, Collect;
    RawBlockAt(v, pointer, offset + size);
    CollectOne(v, pointer, offset, size);
    var at, n := v.base + pointer, Read16(v.image, v.base + pointer) % 0x8000;
    SliceOfSlice(v.image, at + 2, n, offset, offset + size);
  }

  lemma PointerRead(v: Volume, i: nat)
    requires PointerAt(v, i) + 8 <= |v.image|
    ensures var p := ReadAt(v, v.fragmentTable + i / 512 * 8, 8);
            p.Ok? && Read64(p.value, 0) == Read64(v.image, PointerAt(v, i))
  {
    var table := PointerAt(v, i);
    assert ReadAt(v, v.fragmentTable + i / 512 * 8, 8) == Ok(v.image[table..table + 8]);
  }

  lemma SliceWords(image: bytes, at: nat)
    requires at + 16 <= |image|
    ensures Read64(image[at..at + 16], 0) == Read64(image, at)
    ensures Read32(image[at..at + 16], 8) == Read32(image, at + 8)
  {
  }

  /** The entry is what one read of 16 bytes gives. */
  lemma EntryRead(v: Volume, i: nat, raw: bytes)
    requires PointerAt(v, i) + 8 <= |v.image| && |raw| == 16
    requires Collect(v, Read64(v.image, PointerAt(v, i)), SlotAt(i), 16) == Ok(raw)
    ensures FragmentEntryAt(v, i) == Ok(Entry(Read64(raw, 0), Read32(raw, 8)))
  {
    hide Collect, ReadAt, Read64, Read32;
    PointerRead(v, i);
  }

  /** Reading a fragment-table entry out of an uncompressed block. */
  lemma RawEntry(v: Volume, i: nat, pointer: nat)
    requires PointerAt(v, i) + 8 <= |v.image| && pointer == Read64(v.image, PointerAt(v, i))
    requires RawBlock(v, v.base + pointer, SlotAt(i) + 16)
    ensures var at := v.base + pointer + 2 + SlotAt(i);
            && at + 16 <= |v.image|
            && FragmentEntryAt(v, i) == Ok(Entry(Read64(v.image, at), Read32(v.image, at + 8)))
  {
    hide Collect, Read64, Read32, RawBlock, FragmentEntryAt, PointerAt, SlotAt;
    var at := v.base + pointer + 2 + SlotAt(i);
    RawRead(v, pointer, SlotAt(i), 16);
    EntryRead(v, i, v.image[at..at + 16]);
    SliceWords(v.image, at);
  }

  /** The table's pointer and the block's header are outside what the patch writes. */
  lemma TableKept(v: Volume, other: bytes, xz: bytes, i: nat, size: nat)
    requires StockTable(v, i) && Rewritten(v.image, other, xz)
    requires RawBlock(v, FIRST_SIZE - SlotAt(i), size)
    ensures var w := v.(image := other);
            && Read64(other, PointerAt(v, i)) == Read64(v.image, PointerAt(v, i))
            && RawBlock(w, FIRST_SIZE - SlotAt(i), size)
  {
    hide Read64, Read16, Read32, Rewritten;
    KeptLong(v.image, other, xz, PointerAt(v, i));
    KeptWord(v.image, other, xz, FIRST_SIZE - SlotAt(i));
    assert |other| == |v.image| by {
      RewrittenLength(v.image, other, xz);
    }
  }

  lemma RewrittenLength(image: bytes, other: bytes, xz: bytes)
    requires Rewritten(image, other, xz)
    ensures |other| == |image| && Read32(other, SIZE_FIELD) == PATCHED_XZ_SIZE
    ensures other[FRAGMENT_START..FRAGMENT_START + PATCHED_XZ_SIZE] == xz
  {
  }

  lemma StockEntry(v: Volume, i: nat)
    requires StockTable(v, i)
    ensures FragmentEntryAt(v, i) == Ok(Entry(FRAGMENT_START - v.base, STOCK_XZ_SIZE))
  {
    hide Read64, Read16, Read32, FragmentEntryAt;
    RawEntry(v, i, Read64(v.image, PointerAt(v, i)));
  }

  /** The entry of the patched file system names the new stream and its size. */
  lemma PatchedEntry(v: Volume, other: bytes, xz: bytes, i: nat)
    requires StockTable(v, i) && Rewritten(v.image, other, xz)
    ensures FragmentEntryAt(v.(image := other), i) == Ok(Entry(FRAGMENT_START - v.base, PATCHED_XZ_SIZE))
  {
    hide Read64, Read16, Read32, FragmentEntryAt, Rewritten, RawBlock;
    var w := v.(image := other);
    RewrittenLength(v.image, other, xz);
    TableKept(v, other, xz, i, SlotAt(i) + 16);
    KeptLong(v.image, other, xz, SIZE_FIELD - 8);
    RawEntry(w, i, Read64(w.image, PointerAt(w, i)));
  }

  // ----- the patched fragment -----

  /** What the reader's decompressor gives for the two streams. */
  ghost predicate Unpacks(v: Volume, t: Tools, stock: bytes, patched: bytes, xz: bytes) {
    && |v.image| >= PATCH_END
    && v.dec(v.image[FRAGMENT_START..FRAGMENT_START + STOCK_XZ_SIZE]) == Some(stock)
    && v.dec(xz) == Some(patched) && FragmentPatched(stock, patched, t)
  }

  lemma StockFragmentReads(v: Volume, i: nat, stock: bytes)
    requires StockTable(v, i)
    requires v.dec(v.image[FRAGMENT_START..FRAGMENT_START + STOCK_XZ_SIZE]) == Some(stock)
    ensures FragmentAt(v, i) == Ok(stock)
  {
    hide FragmentEntryAt, Read64, Read16, Read32;
    StockEntry(v, i);
    var stream := v.image[FRAGMENT_START..FRAGMENT_START + STOCK_XZ_SIZE];
    assert ReadAt(v, FRAGMENT_START - v.base, STOCK_XZ_SIZE) == Ok(stream);
  }

  /** Reading the fragment of the patched file system gives exactly the patched fragment. */
  lemma PatchedFragmentReads(v: Volume, other: bytes, xz: bytes, i: nat, patched: bytes)
    requires StockTable(v, i) && Rewritten(v.image, other, xz) && v.dec(xz) == Some(patched)
    ensures FragmentAt(v.(image := other), i) == Ok(patched)
  {
    hide FragmentEntryAt, Read64, Read16, Read32, Rewritten, Kept;
    var w := v.(image := other);
    RewrittenLength(v.image, other, xz);
    PatchedEntry(v, other, xz, i);
    assert ReadAt(w, FRAGMENT_START - v.base, PATCHED_XZ_SIZE) == Ok(xz);
  }

  // ----- everything else -----

  lemma ReadKept(v: Volume, other: bytes, xz: bytes, at: nat, size: nat)
    requires Rewritten(v.image, other, xz) && Kept(v.base + at, v.base + at + size)
    ensures ReadAt(v.(image := other), at, size) == ReadAt(v, at, size)
  {
    hide Rewritten, Kept;
    RewrittenLength(v.image, other, xz);
    if v.base + at + size <= |v.image| {
      KeptSlice(v.image, other, xz, v.base + at, v.base + at + size);
    }
  }

  lemma BlockSpan(v: Volume, at: nat)
    requires BlockAt(v, at).Ok?
    ensures ReadAt(v, at, 2).Ok? && BlockAt(v, at).value.next == at + 2 + Read16(ReadAt(v, at, 2).value, 0) % 0x8000
  {
    hide ReadAt, Read16;
  }

  lemma KeptPart(lo: nat, hi: nat, from: nat, to: nat)
    requires Kept(lo, hi) && lo <= from <= to <= hi
    ensures Kept(from, to)
  {
  }

  lemma BlockKept(v: Volume, other: bytes, xz: bytes, at: nat)
    requires Rewritten(v.image, other, xz) && BlockAt(v, at).Ok?
    requires Kept(v.base + at, v.base + BlockAt(v, at).value.next)
    ensures BlockAt(v.(image := other), at) == BlockAt(v, at)
  {
    hide Rewritten, Kept, ReadAt, Read16;
    BlockSpan(v, at);
    var next := BlockAt(v, at).value.next;
    KeptPart(v.base + at, v.base + next, v.base + at, v.base + at + 2);
    ReadKept(v, other, xz, at, 2);
    KeptPart(v.base + at, v.base + next, v.base + at + 2, v.base + next);
    ReadKept(v, other, xz, at + 2, next - at - 2);
  }

  /** Entry j is in the patched entry's metadata block, or in one that is stored elsewhere. */
  predicate EntryKept(v: Volume, i: nat, j: nat) {
    var pointer := PointerAt(v, j);
    if j / 512 == i / 512 then j != i && RawBlock(v, FIRST_SIZE - i % 512 * 16, SlotAt(j) + 16)
    else
      && pointer + 8 <= |v.image| && Kept(pointer, pointer + 8)
      && var at := Read64(v.image, pointer);
      && BlockAt(v, at).Ok? && SlotAt(j) + 16 <= |BlockAt(v, at).value.data|
      && Kept(v.base + at, v.base + BlockAt(v, at).value.next)
  }

  /** The fragment's stored data is not where the patch writes either. */
  predicate FragmentKept(v: Volume, i: nat, j: nat) {
    && EntryKept(v, i, j) && FragmentEntryAt(v, j).Ok?
    && var entry := FragmentEntryAt(v, j).value;
    Kept(v.base + entry.start, v.base + entry.start + StoredSize(entry.sizeWord))
  }

  lemma NeighbourKept(v: Volume, other: bytes, xz: bytes, i: nat, j: nat)
    requires StockTable(v, i) && Rewritten(v.image, other, xz) && EntryKept(v, i, j) && j / 512 == i / 512
    ensures FragmentEntryAt(v.(image := other), j) == FragmentEntryAt(v, j)
  {
    hide Read64, Read16, Read32, FragmentEntryAt, Rewritten, RawBlock;
    var w, block := v.(image := other), FIRST_SIZE - SlotAt(i);
    RewrittenLength(v.image, other, xz);
    TableKept(v, other, xz, i, SlotAt(j) + 16);
    RawEntry(v, j, Read64(v.image, PointerAt(v, j)));
    RawEntry(w, j, Read64(w.image, PointerAt(w, j)));
    assert SlotAt(j) + 16 <= SlotAt(i) || SlotAt(i) + 16 <= SlotAt(j);
    KeptLong(v.image, other, xz, block + 2 + SlotAt(j));
    KeptWord(v.image, other, xz, block + 2 + SlotAt(j) + 8);
  }

  lemma DistantKept(v: Volume, other: bytes, xz: bytes, i: nat, j: nat)
    requires Rewritten(v.image, other, xz) && EntryKept(v, i, j) && j / 512 != i / 512
    ensures FragmentEntryAt(v.(image := other), j) == FragmentEntryAt(v, j)
  {
    hide Read64, Read16, Read32, FragmentEntryAt, Rewritten, RawBlock, BlockAt, Collect;
    var w, at := v.(image := other), Read64(v.image, PointerAt(v, j));
    RewrittenLength(v.image, other, xz);
    KeptLong(v.image, other, xz, PointerAt(v, j));
    BlockKept(v, other, xz, at);
    CollectOne(v, at, SlotAt(j), 16);
    CollectOne(w, at, SlotAt(j), 16);
    var raw := BlockAt(v, at).value.data[SlotAt(j)..SlotAt(j) + 16];
    EntryRead(v, j, raw);
    EntryRead(w, j, raw);
  }

  lemma FragmentUnchanged(v: Volume, other: bytes, xz: bytes, i: nat, j: nat)
    requires StockTable(v, i) && Rewritten(v.image, other, xz) && FragmentKept(v, i, j)
    ensures FragmentAt(v.(image := other), j) == FragmentAt(v, j)
  {
    hide EntryKept, Rewritten, StockTable, FragmentEntryAt, ReadAt, Kept;
    if j / 512 == i / 512 {
      NeighbourKept(v, other, xz, i, j);
    } else {
      DistantKept(v, other, xz, i, j);
    }
    var entry := FragmentEntryAt(v, j).value;
    ReadKept(v, other, xz, entry.start, StoredSize(entry.sizeWord));
  }

  /** The stored data blocks are not where the patch writes. */
  predicate BlocksKept(v: Volume, at: nat, words: seq<u32>)
    decreases |words|
  {
    words == []
    || ((StoredSize(words[0]) == 0 || Kept(v.base + at, v.base + at + StoredSize(words[0])))
        && BlocksKept(v, at + StoredSize(words[0]), words[1..]))
  }

  lemma {:induction false} BlocksUnchanged(v: Volume, other: bytes, xz: bytes, at: nat, words: seq<u32>, remaining: nat)
    requires Rewritten(v.image, other, xz) && BlocksKept(v, at, words)
    ensures DataBlocks(v.(image := other), at, words, remaining) == DataBlocks(v, at, words, remaining)
    decreases |words|
  {
    hide Rewritten, Kept, ReadAt;
    if words != [] {
      var logical := Min(remaining, v.blockSize);
      if StoredSize(words[0]) != 0 {
        ReadKept(v, other, xz, at, StoredSize(words[0]));
      }
      assert DataBlock(v.(image := other), at, words[0], logical) == DataBlock(v, at, words[0], logical);
      BlocksUnchanged(v, other, xz, at + StoredSize(words[0]), words[1..], remaining - logical);
    }
  }

  /** A file whose data is neither stored where the patch writes nor part of the script's section of the fragment. */
  predicate Elsewhere(v: Volume, i: nat, inode: Inode) {
    var remaining := inode.fileSize - Covered(v, |inode.blockSizes|, inode.fileSize);
    && (inode.startBlock.Some? ==> BlocksKept(v, inode.startBlock.value, inode.blockSizes))
    && (remaining == 0 || inode.fragment == INVALID_FRAGMENT || FragmentKept(v, i, inode.fragment)
        || (inode.fragment == i
            && (inode.fragmentOffset + remaining <= SCRIPT_OFFSET || SCRIPT_END <= inode.fragmentOffset)))
  }

  lemma SharedTail(stock: bytes, patched: bytes, t: Tools, lo: nat, hi: nat)
    requires FragmentPatched(stock, patched, t) && lo <= hi && (hi <= SCRIPT_OFFSET || SCRIPT_END <= lo)
    ensures Clip(patched, lo, hi) == Clip(stock, lo, hi)
  {
    hide ScriptPatched;
    if hi <= SCRIPT_OFFSET {
      SamePrefix(patched, stock, SCRIPT_OFFSET, lo, hi);
    } else if lo <= FRAGMENT_SIZE {
      var h := Min(hi, FRAGMENT_SIZE);
      SliceOfSlice(stock, SCRIPT_END, FRAGMENT_SIZE - SCRIPT_END, lo - SCRIPT_END, h - SCRIPT_END);
      SliceOfSlice(patched, SCRIPT_END, FRAGMENT_SIZE - SCRIPT_END, lo - SCRIPT_END, h - SCRIPT_END);
      assert stock[SCRIPT_END..FRAGMENT_SIZE] == stock[SCRIPT_END..];
      assert patched[SCRIPT_END..FRAGMENT_SIZE] == patched[SCRIPT_END..];
    }
  }

  lemma TailUnchanged(v: Volume, other: bytes, xz: bytes, i: nat, inode: Inode, t: Tools, stock: bytes, patched: bytes)
    requires StockTable(v, i) && Rewritten(v.image, other, xz) && Unpacks(v, t, stock, patched, xz)
    requires Elsewhere(v, i, inode)
    ensures var remaining := inode.fileSize - Covered(v, |inode.blockSizes|, inode.fileSize);
            TailOf(v.(image := other), inode, remaining) == TailOf(v, inode, remaining)
  {
    hide StockTable, Rewritten, FragmentKept, FragmentAt, BlocksKept, FragmentPatched;
    var remaining := inode.fileSize - Covered(v, |inode.blockSizes|, inode.fileSize);
    if remaining == 0 || inode.fragment == INVALID_FRAGMENT {
    } else if FragmentKept(v, i, inode.fragment) {
      FragmentUnchanged(v, other, xz, i, inode.fragment);
    } else {
      StockFragmentReads(v, i, stock);
      PatchedFragmentReads(v, other, xz, i, patched);
      SharedTail(stock, patched, t, inode.fragmentOffset, inode.fragmentOffset + remaining);
    }
  }

  /** Every other file reads as before, whether or not it shares the fragment, and is refused as before. */
  lemma OtherFilesUnchanged(v: Volume, other: bytes, xz: bytes, i: nat, inode: Inode, t: Tools, stock: bytes,
                            patched: bytes)
    requires StockTable(v, i) && Rewritten(v.image, other, xz) && Unpacks(v, t, stock, patched, xz)
    requires Elsewhere(v, i, inode)
    ensures FileContents(v.(image := other), inode) == FileContents(v, inode)
  {
    hide StockTable, Rewritten, Unpacks, TailOf, DataBlocks;
    TailUnchanged(v, other, xz, i, inode, t, stock, patched);
    hide Elsewhere;
    if inode.startBlock.Some? {
      ElsewhereBlocks(v, i, inode);
      BlocksUnchanged(v, other, xz, inode.startBlock.value, inode.blockSizes, inode.fileSize);
    }
  }

  lemma ElsewhereBlocks(v: Volume, i: nat, inode: Inode)
    requires Elsewhere(v, i, inode) && inode.startBlock.Some?
    ensures BlocksKept(v, inode.startBlock.value, inode.blockSizes)
  {
  }

  /** The script is all of a file that lies in the fragment's script section. */
  predicate IsScript(i: nat, inode: Inode) {
    && inode.kind in {2, 9} && inode.startBlock.Some? && inode.blockSizes == []
    && inode.fileSize == SCRIPT_SIZE && inode.fragment == i && inode.fragmentOffset == SCRIPT_OFFSET
    && i != INVALID_FRAGMENT
  }

  lemma TailFile(v: Volume, i: nat, inode: Inode, fragment: bytes)
    requires IsScript(i, inode) && FragmentAt(v, i) == Ok(fragment) && |fragment| == FRAGMENT_SIZE
    ensures FileContents(v, inode) == Ok(fragment[SCRIPT_OFFSET..SCRIPT_END])
  {
    hide FragmentAt;
    assert Covered(v, 0, SCRIPT_SIZE) == 0;
    assert DataBlocks(v, inode.startBlock.value, [], SCRIPT_SIZE) == Ok([]);
    assert [] + fragment[SCRIPT_OFFSET..SCRIPT_END] == fragment[SCRIPT_OFFSET..SCRIPT_END];
  }

  /** The script file reads as the stock script before the patch and as the patched script after it. */
  lemma ScriptReads(v: Volume, other: bytes, xz: bytes, i: nat, inode: Inode, t: Tools, stock: bytes, patched: bytes)
    requires StockTable(v, i) && Rewritten(v.image, other, xz) && Unpacks(v, t, stock, patched, xz)
             && IsScript(i, inode)
    ensures var before, after := FileContents(v, inode), FileContents(v.(image := other), inode);
            before.Ok? && after.Ok? && ScriptPatched(before.value, after.value, t.block, t.visible)
  {
    hide StockTable, Rewritten, FragmentAt, FileContents, ScriptPatched, IsScript;
    StockFragmentReads(v, i, stock);
    PatchedFragmentReads(v, other, xz, i, patched);
    TailFile(v, i, inode, stock);
    TailFile(v.(image := other), i, inode, patched);
  }

  // ----- the built window -----

  /** The reader's decompressor takes what an XZ reader takes, and agrees with the builder's about the stock stream. */
  ghost predicate SameFormat(v: Volume, t: Tools, dec: XzReader.Decoder) {
    && XzStream.Inverts(t.enc, dec) && v.dec(StockStream(v.image)) == t.unxz(StockStream(v.image))
    && forall s :: XzReader.ReadStream(s, dec).Some? ==> v.dec(s) == XzReader.ReadStream(s, dec)
  }

  lemma BuiltUnpacks(v: Volume, t: Tools, dec: XzReader.Decoder)
    requires Usable(t) && |v.image| >= PATCH_END && FragmentAudited(v.image, t) && SameFormat(v, t, dec)
    ensures var stock := t.unxz(StockStream(v.image)).value;
            Unpacks(v, t, stock, FragmentOf(stock, t), StreamOf(v.image, t))
  {
    hide XzStream.Stream, XzStream.Encodable, XzStream.Inverts, XzReader.ReadStream, FragmentOf, FragmentPatched,
      Count, ScriptOf;
    FragmentLength(v.image, t);
    XzStream.FragmentRoundTrip(FragmentOf(t.unxz(StockStream(v.image)).value, t), t.enc, dec);
  }

  /** Installing a window that was built: the script changes as intended, and every other file reads as before. */
  lemma SystemPatchIsLocal(v: Volume, i: nat, window: bytes, t: Tools, dec: XzReader.Decoder)
    requires Usable(t) && |v.image| >= PATCH_END && FragmentAudited(v.image, t) && SameFormat(v, t, dec)
    requires StockTable(v, i) && WindowPatched(v.image[PATCH_START..PATCH_END], window, StreamOf(v.image, t))
    ensures var w := v.(image := Patched(v.image, window));
            && (forall inode :: Elsewhere(v, i, inode) ==> FileContents(w, inode) == FileContents(v, inode))
            && forall inode :: IsScript(i, inode) ==>
                                 && FileContents(v, inode).Ok? && FileContents(w, inode).Ok?
                                 && ScriptPatched(FileContents(v, inode).value, FileContents(w, inode).value, t.block,
                                    t.visible)
  {
    hide StockTable, FragmentOf, Elsewhere, FileContents, ScriptPatched, IsScript, Rewritten, InPatch, Read32, StreamOf,
      SameFormat, Unpacks, Patched, Count, ScriptOf, XzStream.Encodable;
    var other, xz := Patched(v.image, window), StreamOf(v.image, t);
    var stock := t.unxz(StockStream(v.image)).value;
    PatchRewrites(v.image, window, xz);
    BuiltUnpacks(v, t, dec);
    forall inode | Elsewhere(v, i, inode)
      ensures FileContents(v.(image := other), inode) == FileContents(v, inode)
    {
      OtherFilesUnchanged(v, other, xz, i, inode, t, stock, FragmentOf(stock, t));
    }
    forall inode | IsScript(i, inode)
      ensures FileContents(v, inode).Ok? && FileContents(v.(image := other), inode).Ok?
      ensures ScriptPatched(FileContents(v, inode).value, FileContents(v.(image := other), inode).value, t.block,
              t.visible)
    {
      ScriptReads(v, other, xz, i, inode, t, stock, FragmentOf(stock, t));
    }
  }
}
