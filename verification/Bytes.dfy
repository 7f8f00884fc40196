/** Bytes, fixed-width little-endian integers and the slicing the source relies on. */
module Bytes {
  type byte = x: int | 0 <= x < 0x100
  type bytes = seq<byte>
  type u16 = x: int | 0 <= x < 0x1_0000
  type u32 = x: int | 0 <= x < 0x1_0000_0000

  datatype Option<+T> = None | Some(value: T)

  datatype Result<+T> = Ok(value: T) | Err(reason: string) {
    predicate IsFailure() {
      Err?
    }

    function PropagateFailure<U>(): Result<U>
      requires Err?
    {
      Err(reason)
    }

    function Extract(): T
      requires Ok?
    {
      value
    }
  }

  /** The eight bits of a byte, and back. */
  function ToBits(b: byte): bv8 {
    b as bv8
  }

  function OfBits(x: bv8): byte {
    x as int
  }

  lemma OfBitsToBits(x: bv8)
    ensures ToBits(OfBits(x)) == x
  {
  }

  lemma NextBits(y: bv8)
    requires y != 255
    ensures (y + 1) as int == y as int + 1
  {
  }

  lemma {:induction false} BitsOfByte(n: int)
    requires 0 <= n < 256
    ensures (n as bv8) as int == n
  {
    if n > 0 {
      BitsOfByte(n - 1);
      var y := (n - 1) as bv8;
      NextBits(y);
      OfBitsToBits(y + 1);
    }
  }

  lemma ToBitsOfBits(b: byte)
    ensures OfBits(ToBits(b)) == b
  {
    BitsOfByte(b);
  }

  /** struct.pack("<H", v), wr16. */
  function Pack16(v: u16): (p: bytes)
    ensures |p| == 2
  {
    [v % 0x100, v / 0x100]
  }

  /** struct.pack("<I", v), wr32. */
  function Pack32(v: u32): (p: bytes)
    ensures |p| == 4
  {
    [v % 0x100, v / 0x100 % 0x100, v / 0x1_0000 % 0x100, v / 0x100_0000]
  }

  function Read16(data: bytes, at: nat): u16
    requires at + 2 <= |data|
  {
    var b0: int, b1: int := data[at], data[at + 1];
    b0 + 0x100 * b1
  }

  function Read32(data: bytes, at: nat): u32
    requires at + 4 <= |data|
  {
    var b0: int, b1: int, b2: int, b3: int := data[at], data[at + 1], data[at + 2], data[at + 3];
    b0 + 0x100 * b1 + 0x1_0000 * b2 + 0x100_0000 * b3
  }

  /** Whatever is packed at a position is what is read back there. */
  lemma ReadPacked16(data: bytes, at: nat, v: u16)
    requires at + 2 <= |data| && data[at..at + 2] == Pack16(v)
    ensures Read16(data, at) == v
  {
    var p := data[at..at + 2];
    assert data[at] == p[0] && data[at + 1] == p[1];
  }

  lemma Digits32(v: u32)
    ensures v == v % 0x100 + 0x100 * (v / 0x100 % 0x100) + 0x1_0000 * (v / 0x1_0000 % 0x100) +
                 0x100_0000 * (v / 0x100_0000)
  {
    var a: int := v / 0x100;
    var b: int := a / 0x100;
    assert v == 0x100 * a + v % 0x100 && a == 0x100 * b + a % 0x100;
    assert v / 0x1_0000 == b && v / 0x100_0000 == b / 0x100;
  }

  lemma ReadPacked32(data: bytes, at: nat, v: u32)
    requires at + 4 <= |data| && data[at..at + 4] == Pack32(v)
    ensures Read32(data, at) == v
  {
    Digits32(v);
    var p := data[at..at + 4];
    assert data[at] == p[0] && data[at + 1] == p[1] && data[at + 2] == p[2] && data[at + 3] == p[3];
  }

  /** Python's data[lo:hi] for nonnegative bounds: both ends are clipped. */
  function Clip<T>(data: seq<T>, lo: nat, hi: nat): seq<T> {
    var h := if hi <= |data| then hi else |data|;
    if lo <= h then data[lo..h] else []
  }

  lemma SliceOfSlice<T>(d: seq<T>, o: nat, n: nat, lo: nat, hi: nat)
    requires o + n <= |d| && lo <= hi <= n
    ensures d[o..o + n][lo..hi] == d[o + lo..o + hi]
  {
    var l, r := d[o..o + n][lo..hi], d[o + lo..o + hi];
    forall i | 0 <= i < |l|
      ensures l[i] == r[i]
    {
      assert l[i] == d[o..o + n][lo + i];
    }
  }

  lemma SamePrefix<T>(a: seq<T>, b: seq<T>, n: nat, lo: nat, hi: nat)
    requires n <= |a| && n <= |b| && a[..n] == b[..n] && lo <= hi <= n
    ensures a[lo..hi] == b[lo..hi]
  {
    SliceOfSlice(a, 0, n, lo, hi);
    SliceOfSlice(b, 0, n, lo, hi);
  }

  function Repeat(x: byte, n: nat): (s: bytes)
    ensures |s| == n && forall i :: 0 <= i < n ==> s[i] == x
  {
    seq(n, _ => x)
  }

  /** buf[at : at + len(piece)] = piece. */
  function Splice<T>(buf: seq<T>, at: nat, piece: seq<T>): (s: seq<T>)
    requires at + |piece| <= |buf|
    ensures |s| == |buf|
    ensures forall i :: 0 <= i < |buf| ==>
              s[i] == if at <= i < at + |piece| then piece[i - at] else buf[i]
  {
    buf[..at] + piece + buf[at + |piece|..]
  }

  /** The bytes of an ASCII literal. */
  function Ascii(s: string): (b: bytes)
    ensures |b| == |s| && forall i :: 0 <= i < |s| ==> b[i] == s[i] as int % 0x80
  {
    seq(|s|, i requires 0 <= i < |s| => s[i] as int % 0x80)
  }

  /** uint32_t arithmetic. */
  function Wrap32(n: int): u32 {
    n % 0x1_0000_0000
  }

  /** A result with a prefix put before it. */
  function After<T>(prefix: seq<T>, r: Result<seq<T>>): Result<seq<T>> {
    if r.Ok? then Ok(prefix + r.value) else r
  }

  lemma AfterAfter<T>(a: seq<T>, b: seq<T>, r: Result<seq<T>>)
    ensures After(a, After(b, r)) == After(a + b, r) && After([], r) == r
  {
    if r.Ok? {
      assert a + (b + r.value) == (a + b) + r.value && [] + r.value == r.value;
    }
  }

  lemma AfterEnds<T>(a: seq<T>)
    ensures After(a, Ok([])) == Ok(a) && forall e :: After(a, Err(e)) == Err(e)
  {
    assert a + [] == a;
  }

  function Align4(n: nat): (a: nat)
    ensures n <= a < n + 4 && a % 4 == 0
  {
    (n + 3) / 4 * 4
  }

  function Min(a: int, b: int): int {
    if a <= b then a else b
  }

  /** struct.pack_into("<H", ...) and struct.pack_into("<I", ...). */
  method PutU16(a: array<byte>, at: nat, v: u16)
    requires at + 2 <= a.Length
    modifies a
    ensures a[at] == Pack16(v)[0] && a[at + 1] == Pack16(v)[1]
    ensures forall i :: 0 <= i < a.Length && !(at <= i < at + 2) ==> a[i] == old(a[i])
  {
    a[at], a[at + 1] := v % 0x100, v / 0x100;
  }

  method PutU32(a: array<byte>, at: nat, v: u32)
    requires at + 4 <= a.Length
    modifies a
    ensures forall k :: 0 <= k < 4 ==> a[at + k] == Pack32(v)[k]
    ensures forall i :: 0 <= i < a.Length && !(at <= i < at + 4) ==> a[i] == old(a[i])
  {
    a[at], a[at + 1], a[at + 2], a[at + 3] := v % 0x100, v / 0x100 % 0x100, v / 0x1_0000 % 0x100, v / 0x100_0000;
  }

  /** Slice assignment into a fixed-size buffer. */
  method PutAll(a: array<byte>, at: nat, piece: bytes)
    requires at + |piece| <= a.Length
    modifies a
    ensures a[..] == Splice(old(a[..]), at, piece)
  {
    for i := 0 to |piece|
      invariant a[..] == Splice(old(a[..]), at, piece[..i])
    {
      a[at + i] := piece[i];
    }
    assert piece[..|piece|] == piece;
  }
}
