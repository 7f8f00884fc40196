/** The fixed bytes of the fragment stream: its header, the block's filter, and its end. */
module XzFields {
  import opened Bytes
  import Crc32
  import Crc32Vector
  import opened XzReader
  import opened XzStream

  /** The twelve bytes of the stream header, and the magic at the very end. */
  lemma StreamEnds(compressed: bytes, data: bytes)
    requires Encodable(compressed, data)
    ensures var s := Stream(compressed, data);
            && |s| >= 14
            && s[..12] == [0xFD, 0x37, 0x7A, 0x58, 0x5A, 0x00, 0x00, 0x01, 0x69, 0x22, 0xDE, 0x36]
            && s[|s| - 4..] == [0x00, 0x01, 0x59, 0x5A]
  {
    hide Block, Index, CrcField, Pack32;
    HeaderBytes();
    FieldsSize(|compressed|, |data|);
    IndexSize(Unpadded(compressed, data), |data|);
    var index := Index(Unpadded(compressed, data), |data|);
    FooterEnds(|index|);
    var s := Stream(compressed, data);
    assert s[|s| - 4..] == Footer(|index|)[8..];
  }

  lemma HeaderBytes()
    ensures StreamHeader() == [0xFD, 0x37, 0x7A, 0x58, 0x5A, 0x00, 0x00, 0x01, 0x69, 0x22, 0xDE, 0x36]
  {
    hide Crc32.Stored, Crc32.Zlib;
    Crc32Vector.FlagsValue(FLAGS);
  }

  lemma FooterEnds(indexSize: nat)
    requires 4 <= indexSize < 0x400
    ensures |Footer(indexSize)| == 12 && Footer(indexSize)[8..] == [0x00, 0x01, 0x59, 0x5A]
  {
    hide CrcField, Pack32;
  }
}
