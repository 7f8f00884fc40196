/** The two tables a SquashFS reader follows, by their bytes: metadata blocks and fragment entries. */
module SquashTables {
  import opened Bytes
  import opened SquashFs

  /** A metadata block: a 15-bit size, bit 15 for data stored as it is, and at most 8 KiB of data. */
  ghost predicate BlockLies(v: Volume, at: nat, data: bytes, next: nat) {
    && v.base + at + 2 <= |v.image|
    && var low, high := v.image[v.base + at], v.image[v.base + at + 1];
    && var size := low as int + 0x100 * (high % 0x80) as int;
    && next == at + 2 + size && v.base + next <= |v.image| && |data| <= 8192
    && var stored := v.image[v.base + at + 2..v.base + next];
       if high >= 0x80 then data == stored else v.dec(stored) == Some(data)
  }

  lemma BlockExactly(v: Volume, at: nat, data: bytes, next: nat)
    ensures BlockAt(v, at) == Ok(MetaBlock(data, next)) <==> BlockLies(v, at, data, next)
  {
    var header := ReadAt(v, at, 2);
    if header.Ok? {
      var low, high := v.image[v.base + at], v.image[v.base + at + 1];
      assert header.value == [low, high];
      var word := Read16(header.value, 0);
      SizeBits(low, high);
      Stored(v, at + 2, word % 0x8000);
    }
  }

  lemma SizeBits(low: byte, high: byte)
    ensures var word := low as int + 0x100 * high as int;
            word % 0x8000 == low as int + 0x100 * (high % 0x80) as int && (word / 0x8000 == 1 <==> high >= 0x80)
  {
    if high >= 0x80 {
      assert low as int + 0x100 * high as int == 0x8000 + (low as int + 0x100 * (high - 0x80) as int);
    }
  }

  lemma Stored(v: Volume, at: nat, size: nat)
    ensures ReadAt(v, at, size).Ok? && v.base + at <= |v.image| ==>
              v.base + at + size <= |v.image| && ReadAt(v, at, size).value == v.image[v.base + at..v.base + at + size]
  {
  }

  /** Eight bytes, the lowest first. */
  function Long(b: bytes, at: nat): nat
    requires at + 8 <= |b|
  {
    b[at] as int + 0x100 * b[at + 1] as int + 0x1_0000 * b[at + 2] as int + 0x100_0000 * b[at + 3] as int
    + 0x1_0000_0000 * (b[at + 4] as int + 0x100 * b[at + 5] as int + 0x1_0000 * b[at + 6] as int
                       + 0x100_0000 * b[at + 7] as int)
  }

  /**
   The entry of a fragment: 512 entries of 16 bytes to a metadata block, a table of 8-byte pointers to these blocks,
   and in the entry the start in eight bytes and the size word in the next four.
   */
  ghost predicate EntryLies(v: Volume, index: nat, start: nat, sizeWord: u32) {
    var slot := v.base + v.fragmentTable + index / 512 * 8;
    && slot + 8 <= |v.image|
    && var raw := Collect(v, Long(v.image, slot), index % 512 * 16, 16);
    && raw.Ok? && |raw.value| == 16
    && start == Long(raw.value, 0)
    && sizeWord as int == raw.value[8] as int + 0x100 * raw.value[9] as int + 0x1_0000 * raw.value[10] as int
                          + 0x100_0000 * raw.value[11] as int
  }

  lemma PointerIs(v: Volume, at: nat)
    requires ReadAt(v, at, 8).Ok?
    ensures v.base + at + 8 <= |v.image| && Read64(ReadAt(v, at, 8).value, 0) == Long(v.image, v.base + at)
  {
    var p := ReadAt(v, at, 8).value;
    assert forall i :: 0 <= i < 8 ==> p[i] == v.image[v.base + at + i];
  }

  lemma EntryExactly(v: Volume, index: nat, start: nat, sizeWord: u32)
    ensures FragmentEntryAt(v, index) == Ok(Entry(start, sizeWord)) <==> EntryLies(v, index, start, sizeWord)
  {
    hide Collect, ReadAt;
    var at := v.fragmentTable + index / 512 * 8;
    if ReadAt(v, at, 8).Ok? {
      PointerIs(v, at);
      CollectSize(v, Read64(ReadAt(v, at, 8).value, 0), index % 512 * 16, 16);
    }
  }
}
