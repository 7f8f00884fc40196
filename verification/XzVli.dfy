/** Variable-length integers of The .xz File Format, section 1.2. */
module XzVli {
  import opened Bytes
  import Arith

  /** What remains after a value was read. */
  datatype Parsed<+T> = Parsed(value: T, rest: bytes)

  const MAX_SIZE: nat := 9

  function Vli(v: nat): (e: bytes)
    ensures |e| > 0
  {
    if v < 0x80 then [v] else [v % 0x80 + 0x80] + Vli(v / 0x80)
  }

  /** xz_vli. */
  method XzVli(value: int) returns (r: Result<bytes>)
    ensures r.Ok? <==> value >= 0
    ensures r.Ok? ==> r.value == Vli(value)
  {
    if value < 0 {
      return Err("XZ VLI values cannot be negative");
    }
    var encoded: bytes, v: nat := [], value;
    while true
      invariant encoded + Vli(v) == Vli(value)
      decreases v
    {
      var remaining := v / 0x80;
      if remaining == 0 {
        assert Vli(v) == [v % 0x80];
        return Ok(encoded + [v % 0x80]);
      }
      ghost var before := encoded;
      encoded := encoded + [v % 0x80 + 0x80];
      assert before + ([v % 0x80 + 0x80] + Vli(remaining)) == encoded + Vli(remaining);
      v := remaining;
    }
  }

  /** The reader: at most room bytes, and no byte after the first may be zero. */
  function Decode(buf: bytes, room: nat, first: bool): Option<Parsed<nat>>
    decreases room
  {
    if buf == [] || room == 0 || (!first && buf[0] == 0) then None
    else if buf[0] < 0x80 then Some(Parsed(buf[0], buf[1..]))
    else
      var high := Decode(buf[1..], room - 1, false);
      if high.None? then None else Some(Parsed(buf[0] - 0x80 + 0x80 * high.value.value, high.value.rest))
  }

  function ReadVli(buf: bytes): Option<Parsed<nat>> {
    Decode(buf, MAX_SIZE, true)
  }

  function Limit(room: nat): nat {
    if room == 0 then 1 else 0x80 * Limit(room - 1)
  }

  lemma {:induction false} DecodeVli(v: nat, rest: bytes, room: nat, first: bool)
    requires room > 0 && v < Limit(room) && (first || v > 0)
    ensures Decode(Vli(v) + rest, room, first) == Some(Parsed(v, rest))
    decreases v
  {
    var e := Vli(v);
    if v < 0x80 {
      assert (e + rest)[1..] == rest;
    } else {
      assert Limit(room) == 0x80 * Limit(room - 1);
      assert v / 0x80 < Limit(room - 1);
      assert room > 1;
      DecodeVli(v / 0x80, rest, room - 1, false);
      assert (e + rest)[1..] == Vli(v / 0x80) + rest;
    }
  }

  lemma HighAndLow(low: nat, high: nat)
    requires low < 0x80
    ensures (low + 0x80 * high) / 0x80 == high && (low + 0x80 * high) % 0x80 == low
  {
    Arith.DivUnique(low + 0x80 * high, 0x80, high);
  }

  lemma {:induction false} DecodeCanonical(buf: bytes, room: nat, first: bool)
    requires Decode(buf, room, first).Some?
    ensures var p := Decode(buf, room, first).value;
            buf == Vli(p.value) + p.rest && p.value < Limit(room) && (first || p.value > 0)
    decreases room
  {
    var p := Decode(buf, room, first).value;
    LimitPositive(room - 1);
    if buf[0] < 0x80 {
      assert buf == [buf[0]] + buf[1..];
    } else {
      DecodeCanonical(buf[1..], room - 1, false);
      var high := Decode(buf[1..], room - 1, false).value;
      LongerVli(buf, p.value, high.value, p.rest);
    }
  }

  lemma LongerVli(buf: bytes, v: nat, high: nat, rest: bytes)
    requires buf != [] && buf[0] >= 0x80 && high > 0 && v == buf[0] as int - 0x80 + 0x80 * high
    requires buf[1..] == Vli(high) + rest
    ensures buf == Vli(v) + rest
  {
    HighAndLow(buf[0] - 0x80, high);
    assert Vli(v) == [buf[0]] + Vli(high);
    hide Vli;
    assert buf == [buf[0]] + buf[1..];
  }

  lemma {:induction false} LimitPositive(room: nat)
    ensures Limit(room) >= 1
  {
    if room > 0 {
      LimitPositive(room - 1);
    }
  }

  lemma LimitIs63Bits()
    ensures Limit(MAX_SIZE) == 0x8000_0000_0000_0000
  {
    assert Limit(0) == 1 && Limit(1) == 0x80 && Limit(2) == 0x4000 && Limit(3) == 0x20_0000;
    assert Limit(4) == 0x1000_0000 && Limit(5) == 0x8_0000_0000 && Limit(6) == 0x400_0000_0000;
    assert Limit(7) == 0x2_0000_0000_0000 && Limit(8) == 0x100_0000_0000_0000;
  }

  /** An encoding is read back exactly when the value has at most 63 bits. */
  lemma VliReadBack(v: nat, rest: bytes)
    ensures ReadVli(Vli(v) + rest) == Some(Parsed(v, rest)) <==> v < 0x8000_0000_0000_0000
  {
    LimitIs63Bits();
    hide Vli, Decode, Limit;
    if v < Limit(MAX_SIZE) {
      DecodeVli(v, rest, MAX_SIZE, true);
    } else if ReadVli(Vli(v) + rest).Some? {
      DecodeCanonical(Vli(v) + rest, MAX_SIZE, true);
    }
  }

  /** Whatever the reader accepts is the one encoding the writer produces: there is none shorter. */
  lemma VliCanonical(buf: bytes)
    requires ReadVli(buf).Some?
    ensures buf == Vli(ReadVli(buf).value.value) + ReadVli(buf).value.rest
  {
    DecodeCanonical(buf, MAX_SIZE, true);
  }

  /** An encoding of a 63-bit value has at most nine bytes. */
  lemma {:induction false} VliSize(v: nat, room: nat)
    requires room > 0 && v < Limit(room)
    ensures |Vli(v)| <= room
  {
    if v >= 0x80 {
      assert Limit(room) == 0x80 * Limit(room - 1);
      VliSize(v / 0x80, room - 1);
    }
  }
}
