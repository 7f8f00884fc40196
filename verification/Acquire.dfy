/** Accepting a flash image only after enough consecutive identical reads. */
module Acquire {
  import opened Bytes

  const REQUIRED: nat := 3
  const MAX_ATTEMPTS: nat := 5

  /** The counters an acquisition records. */
  datatype Manifest = Manifest(readPasses: nat, required: nat, consecutive: nat, maximum: nat)

  datatype Acquired = Acquired(image: bytes, manifest: Manifest)

  /** Attempt k, counted from 1, ends a run of n identical reads. */
  predicate EndsRun(read: nat -> bytes, k: nat, n: nat) {
    n <= k && forall j :: k - n < j <= k ==> read(j) == read(k)
  }

  /** The counter checks in load_preserved_backup. */
  predicate CountersAccepted(m: Manifest) {
    m.required == REQUIRED && m.consecutive == REQUIRED && REQUIRED <= m.readPasses <= MAX_ATTEMPTS
    && m.maximum == MAX_ATTEMPTS
  }

  /** The first attempt within the limit that ends the required run. */
  predicate FirstStable(read: nat -> bytes, k: nat) {
    && 1 <= k <= MAX_ATTEMPTS && EndsRun(read, k, REQUIRED)
    && forall j :: 1 <= j < k ==> !EndsRun(read, j, REQUIRED)
  }

  /** A counter that tracks the longest run ending at an attempt. */
  ghost predicate Counts(read: nat -> bytes, k: nat, consecutive: nat) {
    1 <= consecutive <= k && EndsRun(read, k, consecutive) && !EndsRun(read, k, consecutive + 1)
  }

  lemma CountStep(read: nat -> bytes, k: nat, consecutive: nat)
    requires Counts(read, k, consecutive)
    ensures Counts(read, k + 1, if read(k + 1) == read(k) then consecutive + 1 else 1)
  {
    if read(k + 1) == read(k) {
      if consecutive < k {
        var j :| k - consecutive - 1 < j <= k && read(j) != read(k);
        assert k + 1 - (consecutive + 2) < j <= k + 1;
      }
    } else {
      assert k + 1 - 2 < k <= k + 1;
    }
  }

  lemma ShorterRun(read: nat -> bytes, k: nat, n: nat, m: nat)
    requires EndsRun(read, k, n) && m <= n
    ensures EndsRun(read, k, m)
  {
  }

  lemma CountDecides(read: nat -> bytes, k: nat, consecutive: nat, n: nat)
    requires Counts(read, k, consecutive) && n >= 1
    ensures EndsRun(read, k, n) <==> n <= consecutive
  {
    hide EndsRun;
    if n <= consecutive {
      ShorterRun(read, k, consecutive, n);
    } else if EndsRun(read, k, n) {
      ShorterRun(read, k, n, consecutive + 1);
    }
  }

  /**
   acquire_stable: it succeeds exactly when some attempt within the limit ends the required run, at the
   first such attempt and with its image, and its counters are always accepted later.
   */
  method AcquireStable(read: nat -> bytes) returns (r: Result<Acquired>)
    ensures r.Ok? <==> exists k: nat :: FirstStable(read, k)
    ensures r.Ok? ==> FirstStable(read, r.value.manifest.readPasses)
                      && r.value.image == read(r.value.manifest.readPasses)
    ensures r.Ok? ==> CountersAccepted(r.value.manifest)
    ensures r.Ok? ==> r.value.manifest == Manifest(r.value.manifest.readPasses, 3, 3, 5)
  {
    hide EndsRun, Counts;
    var previous: Option<bytes> := None;
    var consecutive: nat := 0;
    for attempts := 1 to MAX_ATTEMPTS + 1
      invariant attempts == 1 ==> previous == None
      invariant attempts > 1 ==> previous == Some(read(attempts - 1)) && Counts(read, attempts - 1, consecutive)
      invariant consecutive < REQUIRED
      invariant forall j :: 1 <= j < attempts ==> !EndsRun(read, j, REQUIRED)
    {
      var current := read(attempts);
      if attempts > 1 {
        CountStep(read, attempts - 1, consecutive);
      } else {
        FirstCount(read);
      }
      if previous.Some? && current == previous.value {
        consecutive := consecutive + 1;
      } else {
        consecutive := 1;
      }
      CountDecides(read, attempts, consecutive, REQUIRED);
      if consecutive >= REQUIRED {
        assert FirstStable(read, attempts);
        return Ok(Acquired(current, Manifest(attempts, REQUIRED, consecutive, MAX_ATTEMPTS)));
      }
      previous := Some(current);
    }
    return Err("five complete flash reads did not produce three consecutive identical images");
  }

  lemma FirstCount(read: nat -> bytes)
    ensures Counts(read, 1, 1)
  {
  }

  function Alternating(a: bytes, b: bytes): nat -> bytes {
    n => if n % 2 == 0 then b else a
  }

  /** A majority is not enough: reads that alternate are refused, although three of the five agree. */
  lemma MajorityIsNotEnough(a: bytes, b: bytes)
    requires a != b
    ensures !exists k: nat :: FirstStable(Alternating(a, b), k)
  {
    var read := Alternating(a, b);
    forall k: nat
      ensures !EndsRun(read, k, REQUIRED)
    {
      if k >= REQUIRED {
        assert read(k - 1) != read(k);
      }
    }
  }

  predicate ThreeEqual(read: nat -> bytes, k: nat) {
    3 <= k && read(k) == read(k - 1) == read(k - 2)
  }

  /** The first of the third to the fifth read that repeats the two before it. */
  lemma StableExactly(read: nat -> bytes, k: nat)
    ensures FirstStable(read, k) <==> k <= 5 && ThreeEqual(read, k) && forall j :: 3 <= j < k ==> !ThreeEqual(read, j)
  {
    forall j: nat
      ensures EndsRun(read, j, REQUIRED) <==> ThreeEqual(read, j)
    {
    }
  }
}
