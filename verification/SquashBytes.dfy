/** What each byte of a SquashFS file is: of a stored block, of a hole, or of the fragment that holds the tail. */
module SquashBytes {
  import opened Bytes
  import Arith
  import opened SquashFs

  /** The low 24 bits of a size word are the stored size; bit 24 says that the data is stored as it is. */
  function SizeOf(word: u32): nat {
    word % 0x100_0000
  }

  predicate RawOf(word: u32) {
    word / 0x100_0000 % 2 == 1
  }

  /** Where block b of a file is stored, counted from the file system's start. */
  function StoredAt(inode: Inode, b: nat): nat
    requires inode.startBlock.Some? && b <= |inode.blockSizes|
    decreases b
  {
    if b == 0 then inode.startBlock.value else StoredAt(inode, b - 1) + SizeOf(inode.blockSizes[b - 1])
  }

  /** Stored data as it lies in the image, or decompressed. */
  ghost predicate Unpacked(v: Volume, at: nat, word: u32, data: bytes) {
    && v.base + at + SizeOf(word) <= |v.image|
    && var stored := v.image[v.base + at..v.base + at + SizeOf(word)];
    if RawOf(word) then data == stored else v.dec(stored) == Some(data)
  }

  /** How much of a file its blocks cover. */
  function InBlocks(v: Volume, inode: Inode): nat {
    if |inode.blockSizes| * v.blockSize <= inode.fileSize then |inode.blockSizes| * v.blockSize else inode.fileSize
  }

  lemma {:induction false} StoredBeforeAt(inode: Inode, words: seq<u32>, from: nat, b: nat)
    requires inode.startBlock.Some? && from + b <= |inode.blockSizes| && words == inode.blockSizes[from..]
    ensures StoredAt(inode, from) + StoredBefore(words, b) == StoredAt(inode, from + b)
    decreases b
  {
    if b > 0 {
      assert words[0] == inode.blockSizes[from] && words[1..] == inode.blockSizes[from + 1..];
      StoredBeforeAt(inode, words[1..], from + 1, b - 1);
    }
  }

  lemma ReadIs(v: Volume, at: nat, size: nat)
    requires ReadAt(v, at, size).Ok? && size > 0
    ensures v.base + at + size <= |v.image| && ReadAt(v, at, size).value == v.image[v.base + at..v.base + at + size]
  {
  }

  /** One data block: zeros where nothing is stored, and the unpacked data otherwise. */
  lemma BlockIs(v: Volume, at: nat, word: u32, logical: nat)
    requires DataBlock(v, at, word, logical).Ok?
    ensures var data := DataBlock(v, at, word, logical).value;
            && |data| == logical
            && (SizeOf(word) == 0 ==> forall i :: 0 <= i < logical ==> data[i] == 0)
            && (SizeOf(word) != 0 ==> Unpacked(v, at, word, data))
  {
    hide ReadAt;
    if SizeOf(word) != 0 {
      ReadIs(v, at, SizeOf(word));
    }
  }

  /** A fragment is what its table entry's start and size word say. */
  lemma FragmentIs(v: Volume, index: nat)
    requires FragmentAt(v, index).Ok?
    ensures FragmentEntryAt(v, index).Ok?
    ensures var entry := FragmentEntryAt(v, index).value;
            SizeOf(entry.sizeWord) != 0 ==> Unpacked(v, entry.start, entry.sizeWord, FragmentAt(v, index).value)
  {
    hide ReadAt, FragmentEntryAt;
    var entry := FragmentEntryAt(v, index).value;
    if SizeOf(entry.sizeWord) != 0 {
      ReadIs(v, entry.start, SizeOf(entry.sizeWord));
    }
  }

  lemma CoveredIs(v: Volume, inode: Inode)
    ensures Covered(v, |inode.blockSizes|, inode.fileSize) == InBlocks(v, inode)
  {
  }

  /** The parts of a file that can be read. */
  lemma FileParts(v: Volume, inode: Inode)
    requires FileContents(v, inode).Ok?
    ensures inode.startBlock.Some?
    ensures var blocks := DataBlocks(v, inode.startBlock.value, inode.blockSizes, inode.fileSize);
            var tail := TailOf(v, inode, inode.fileSize - InBlocks(v, inode));
            && blocks.Ok? && tail.Ok? && |blocks.value| == InBlocks(v, inode)
            && |FileContents(v, inode).value| == inode.fileSize
            && (forall k :: 0 <= k < InBlocks(v, inode) ==> FileContents(v, inode).value[k] == blocks.value[k])
            && (forall k :: InBlocks(v, inode) <= k < inode.fileSize ==>
                              FileContents(v, inode).value[k] == tail.value[k - InBlocks(v, inode)])
  {
    hide TailOf, DataBlocks, Covered;
    CoveredIs(v, inode);
    DataBlocksSize(v, inode.startBlock.value, inode.blockSizes, inode.fileSize);
  }

  /** Byte k of the data blocks lies in block k / blockSize. */
  lemma BlockByte(v: Volume, inode: Inode, k: nat)
    requires inode.startBlock.Some? && v.blockSize > 0 && k < InBlocks(v, inode)
    requires DataBlocks(v, inode.startBlock.value, inode.blockSizes, inode.fileSize).Ok?
    ensures var b, r := k / v.blockSize, k % v.blockSize;
            var data := DataBlocks(v, inode.startBlock.value, inode.blockSizes, inode.fileSize).value;
            && b < |inode.blockSizes| && |data| == InBlocks(v, inode)
            && var logical := Min(v.blockSize, inode.fileSize - b * v.blockSize);
            && r < logical
            && DataBlock(v, StoredAt(inode, b), inode.blockSizes[b], logical).Ok?
            && data[k] == DataBlock(v, StoredAt(inode, b), inode.blockSizes[b], logical).value[r]
  {
    hide DataBlock, DataBlocks;
    var b := k / v.blockSize;
    Arith.DivMod(k, v.blockSize);
    BlockInside(v, inode, k, b);
    DataBlocksSize(v, inode.startBlock.value, inode.blockSizes, inode.fileSize);
    CoveredIs(v, inode);
    BlockMeaning(v, inode.startBlock.value, inode.blockSizes, inode.fileSize, b);
    assert inode.blockSizes[0..] == inode.blockSizes;
    StoredBeforeAt(inode, inode.blockSizes, 0, b);
    BlockEnds(v, inode, b);
  }

  lemma BlockInside(v: Volume, inode: Inode, k: nat, b: nat)
    requires v.blockSize > 0 && k < InBlocks(v, inode) && b * v.blockSize <= k
    ensures b < |inode.blockSizes| && b * v.blockSize <= inode.fileSize
  {
    if b >= |inode.blockSizes| {
      Arith.MulMonotone(|inode.blockSizes|, b, v.blockSize);
      assert false;
    }
  }

  lemma BlockEnds(v: Volume, inode: Inode, b: nat)
    requires b * v.blockSize <= inode.fileSize
    ensures Covered(v, b, inode.fileSize) == b * v.blockSize
    ensures Covered(v, b + 1, inode.fileSize) - b * v.blockSize == Min(v.blockSize, inode.fileSize - b * v.blockSize)
  {
    assert (b + 1) * v.blockSize == b * v.blockSize + v.blockSize;
  }

  /** A byte at a place of block b: of its stored data, unpacked, or zero if nothing is stored for the block. */
  ghost predicate FromBlock(v: Volume, inode: Inode, b: nat, r: nat, here: byte)
    requires inode.startBlock.Some?
  {
    && b < |inode.blockSizes|
    && (SizeOf(inode.blockSizes[b]) == 0 ==> here == 0)
    && (SizeOf(inode.blockSizes[b]) != 0 ==>
          exists data: bytes :: Unpacked(v, StoredAt(inode, b), inode.blockSizes[b], data)
                                && |data| == Min(v.blockSize, inode.fileSize - b * v.blockSize)
                                && r < |data| && data[r] == here)
  }

  /** As far as the blocks reach, byte k of a file is byte k % blockSize of block k / blockSize. */
  lemma FileByte(v: Volume, inode: Inode, k: nat)
    requires FileContents(v, inode).Ok? && k < InBlocks(v, inode) && v.blockSize > 0
    ensures inode.startBlock.Some? && k < |FileContents(v, inode).value| == inode.fileSize
    ensures FromBlock(v, inode, k / v.blockSize, k % v.blockSize, FileContents(v, inode).value[k])
  {
    hide DataBlock, DataBlocks, FragmentAt, TailOf, FileContents, Unpacked, SizeOf;
    FileParts(v, inode);
    BlockByte(v, inode, k);
    var b := k / v.blockSize;
    BlockIs(v, StoredAt(inode, b), inode.blockSizes[b], Min(v.blockSize, inode.fileSize - b * v.blockSize));
  }

  /** Behind the blocks it is the fragment's byte at the inode's offset, counted from their end. */
  lemma FileTailByte(v: Volume, inode: Inode, k: nat)
    requires FileContents(v, inode).Ok? && InBlocks(v, inode) <= k < inode.fileSize
    ensures |FileContents(v, inode).value| == inode.fileSize && FragmentAt(v, inode.fragment).Ok?
    ensures var fragment, at := FragmentAt(v, inode.fragment).value, inode.fragmentOffset + k - InBlocks(v, inode);
            at < |fragment| && FileContents(v, inode).value[k] == fragment[at]
  {
    hide DataBlock, DataBlocks, FragmentAt, TailOf, FileContents;
    FileParts(v, inode);
    TailByte(v, inode, inode.fileSize - InBlocks(v, inode), k - InBlocks(v, inode));
  }

  lemma TailByte(v: Volume, inode: Inode, remaining: nat, j: nat)
    requires TailOf(v, inode, remaining).Ok? && j < remaining
    ensures inode.fragment != 0xFFFF_FFFF && FragmentAt(v, inode.fragment).Ok?
    ensures var fragment := FragmentAt(v, inode.fragment).value;
            && inode.fragmentOffset + j < |fragment| && |TailOf(v, inode, remaining).value| == remaining
            && TailOf(v, inode, remaining).value[j] == fragment[inode.fragmentOffset + j]
  {
    hide FragmentAt;
  }

  /** A block is read exactly when it is a hole or unpacks to its logical size. */
  lemma BlockExactly(v: Volume, at: nat, word: u32, logical: nat)
    ensures DataBlock(v, at, word, logical).Ok? <==>
            SizeOf(word) == 0 || exists data: bytes :: Unpacked(v, at, word, data) && |data| == logical
  {
    if data: bytes :| Unpacked(v, at, word, data) && |data| == logical && SizeOf(word) != 0 {
      assert ReadAt(v, at, SizeOf(word)) == Ok(v.image[v.base + at..v.base + at + SizeOf(word)]);
    }
    if DataBlock(v, at, word, logical).Ok? {
      BlockIs(v, at, word, logical);
    }
  }

  /** A file can be read exactly when it is regular, its blocks can be read and a fragment holds its tail. */
  lemma FileExactly(v: Volume, inode: Inode)
    ensures FileContents(v, inode).Ok? <==>
            && inode.kind in {2, 9} && inode.startBlock.Some?
            && DataBlocks(v, inode.startBlock.value, inode.blockSizes, inode.fileSize).Ok?
            && (InBlocks(v, inode) < inode.fileSize ==>
                  && inode.fragment != 0xFFFF_FFFF && FragmentAt(v, inode.fragment).Ok?
                  && |FragmentAt(v, inode.fragment).value| >=
                     inode.fragmentOffset + inode.fileSize - InBlocks(v, inode))
  {
    hide DataBlocks, FragmentAt;
    CoveredIs(v, inode);
  }
}
