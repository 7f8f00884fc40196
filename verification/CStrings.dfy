/** What the C library's string searches see. */
module CStrings {
  import opened Bytes

  /** isspace. */
  predicate IsSpace(b: byte) {
    9 <= b <= 13 || b == 0x20
  }

  /** Everything before the first occurrence of a byte. */
  function Until(data: bytes, stop: byte): bytes {
    if data == [] || data[0] == stop then [] else [data[0]] + Until(data[1..], stop)
  }

  lemma {:induction false} UntilIs(data: bytes, stop: byte, n: nat)
    requires n <= |data| && (forall i :: 0 <= i < n ==> data[i] != stop)
    requires n == |data| || data[n] == stop
    ensures Until(data, stop) == data[..n]
  {
    if n > 0 {
      UntilIs(data[1..], stop, n - 1);
      assert data[..n] == [data[0]] + data[1..][..n - 1];
    }
  }

  /** What follows the terminator is not part of the string. */
  lemma {:induction false} UntilPadded(data: bytes, stop: byte, rest: bytes)
    requires |rest| > 0 && rest[0] == stop
    ensures Until(data + rest, stop) == Until(data, stop)
  {
    if data == [] {
      assert data + rest == rest;
    } else if data[0] != stop {
      assert (data + rest)[1..] == data[1..] + rest;
      UntilPadded(data[1..], stop, rest);
    }
  }

  lemma {:induction false} UntilStops(data: bytes, stop: byte)
    ensures Until(data, stop) <= data
    ensures stop !in Until(data, stop)
    ensures |Until(data, stop)| < |data| ==> data[|Until(data, stop)|] == stop
  {
    if data != [] && data[0] != stop {
      UntilStops(data[1..], stop);
    }
  }

  lemma UntilAbsent(data: bytes, stop: byte)
    requires stop !in data
    ensures Until(data, stop) == data
  {
    UntilIs(data, stop, |data|);
  }

  lemma UntilFound(data: bytes, stop: byte, rest: bytes)
    requires stop !in data && |rest| > 0 && rest[0] == stop
    ensures Until(data + rest, stop) == data
  {
    UntilIs(data + rest, stop, |data|);
  }

  /** Everything before the first occurrence of a byte, as a relation. */
  predicate UpTo(data: bytes, stop: byte, r: bytes) {
    r <= data && stop !in r && (|r| == |data| || data[|r|] == stop)
  }

  lemma UntilExactly(data: bytes, stop: byte, r: bytes)
    ensures Until(data, stop) == r <==> UpTo(data, stop, r)
  {
    UntilStops(data, stop);
    if UpTo(data, stop, r) {
      UntilIs(data, stop, |r|);
    }
  }

  /** The six bytes that count as blank. */
  predicate IsBlank(b: byte) {
    b in {0x09, 0x0A, 0x0B, 0x0C, 0x0D, 0x20}
  }

  /** How many blanks are at the start. */
  predicate BlanksAt(s: bytes, n: nat) {
    n <= |s| && (forall i :: 0 <= i < n ==> IsBlank(s[i])) && (n == |s| || !IsBlank(s[n]))
  }
}
