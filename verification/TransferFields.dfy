/** What the host of a firmware transfer sends and reads, by bytes: the blob, the plan and the replies. */
module TransferFields {
  import opened Bytes
  import BootFrame
  import opened Chunks
  import Updater
  import opened Transfer

  /** A header of 128 bytes: range and digest of the image in it, zeros elsewhere. */
  predicate BlobLies(blob: bytes, image: bytes, offset: u32, digest: bytes) {
    && |blob| == 128 + |image| && |digest| == 16 && |image| < 0x1_0000_0000
    && (forall i :: 0 <= i < 4 ==> blob[i] == 0)
    && blob[4] as int + 0x100 * blob[5] as int + 0x1_0000 * blob[6] as int + 0x100_0000 * blob[7] as int == offset
    && blob[8] as int + 0x100 * blob[9] as int + 0x1_0000 * blob[10] as int + 0x100_0000 * blob[11] as int == |image|
    && blob[12..28] == digest && (forall i :: 28 <= i < 128 ==> blob[i] == 0) && blob[128..] == image
  }

  lemma BlobExactly(image: bytes, offset: u32, md5: Updater.Md5)
    requires |image| < 0x1_0000_0000
    ensures BlobLies(Blob(image, offset, md5), image, offset, md5(image))
  {
    hide Pack32;
    var blob := Blob(image, offset, md5);
    var a, b := Pack32(offset), Pack32(|image|);
    assert forall i :: 0 <= i < 4 ==> blob[4 + i] == a[i] && blob[8 + i] == b[i];
    assert blob[12..28] == md5(image) && blob[128..] == image;
    WordOfPack(offset);
    WordOfPack(|image|);
  }

  lemma WordOfPack(n: u32)
    ensures var p := Pack32(n);
            p[0] as int + 0x100 * p[1] as int + 0x1_0000 * p[2] as int + 0x100_0000 * p[3] as int == n
  {
    Digits32(n);
  }

  /** The plan: as many packets of 3060 bytes as hold header and image, each acknowledged. */
  lemma PlanExactly(image: bytes, offset: nat, md5: Updater.Md5)
    ensures var plan := Plan(image, offset, md5);
            && plan.flashOffset == offset && plan.imageSize == |image| && plan.transferSize == |image| + 128
            && plan.imageMd5 == md5(image) && plan.packetPayloadSize == 3060 && plan.packetsPerAck == 1
            && (plan.packetCount - 1) * 3060 < |image| + 128 <= plan.packetCount * 3060
  {
    PacketsBound(|image| + 128, 3060);
  }

  /** An acknowledgement is a type 2 frame of four bytes, the lowest first. */
  lemma AckExactly(frame: BootFrame.Parsed, packet: u32)
    ensures DecodeAck(frame) == Ok(packet) <==>
            && frame.frameType == 2 && |frame.payload| == 4
            && packet as int == frame.payload[0] as int + 0x100 * frame.payload[1] as int
                                + 0x1_0000 * frame.payload[2] as int + 0x100_0000 * frame.payload[3] as int
  {
  }

  /** A terminal status is a type 5 frame of one byte, 1 for success and 0 for failure. */
  lemma TerminalExactly(frame: BootFrame.Parsed, success: bool)
    ensures DecodeTerminal(frame) == Ok(success) <==>
            frame.frameType == 5 && frame.payload == [if success then 1 else 0]
  {
  }
}
