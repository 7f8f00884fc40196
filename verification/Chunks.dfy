/** Cutting data into packets of one size, the last one shorter. */
module Chunks {
  import opened Bytes
  import Arith

  /** How many packets of a given size hold the data. */
  function Packets(size: nat, subpack: nat): nat
    requires subpack > 0
  {
    (size + subpack - 1) / subpack
  }

  lemma PacketsBound(size: nat, subpack: nat)
    requires subpack > 0 && size > 0
    ensures var n := Packets(size, subpack);
            n > 0 && (n - 1) * subpack < size <= n * subpack
  {
    var n := Packets(size, subpack);
    Arith.DivMod(size + subpack - 1, subpack);
    assert (n - 1) * subpack == n * subpack - subpack;
  }

  /** blob[start : start + S] is packet k. */
  function Chunk(blob: bytes, subpack: nat, k: nat): bytes {
    Clip(blob, k * subpack, k * subpack + subpack)
  }

  lemma PacketStart(blob: bytes, subpack: nat, k: nat)
    requires subpack > 0 && |blob| > 0 && k < Packets(|blob|, subpack)
    ensures k * subpack < |blob|
    ensures k + 1 < Packets(|blob|, subpack) ==>
              |Chunk(blob, subpack, k)| == subpack && (k + 1) * subpack == k * subpack + subpack
    ensures k + 1 == Packets(|blob|, subpack) ==> k * subpack + |Chunk(blob, subpack, k)| == |blob|
    ensures k * subpack + |Chunk(blob, subpack, k)| <= |blob|
    ensures Chunk(blob, subpack, k) == blob[k * subpack..k * subpack + |Chunk(blob, subpack, k)|]
  {
    var n := Packets(|blob|, subpack);
    PacketsBound(|blob|, subpack);
    Arith.MulMonotone(k, n - 1, subpack);
    assert (k + 1) * subpack == k * subpack + subpack;
    if k + 1 < n {
      Arith.MulMonotone(k + 1, n - 1, subpack);
    }
  }
}
