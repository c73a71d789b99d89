/** The synthetic reference stream of `generatePageReferences`. Each `rand()`
    call is an oracle value: reference `i` consumes `rnd[i]`. Seeding with
    `srand(time(NULL))` is outside the model. */
module ReferenceStream {
  import opened Types
  import opened CArith

  /** Half-width of the locality window: `npages * 0.05` for "ml" and
      `npages * 0.03` for every other string, truncated to an int. The
      floating-point products are taken here as exact integer arithmetic. */
  function Window(npages: nat, loc: Locality): nat
  {
    if loc == Medium then npages * 5 / 100 else npages * 3 / 100
  }

  /** A windowed step: C's `(last + rnd % (2 * range + 1) - range) % npages`,
      then `+ npages` when that is negative. The fix-up makes it the
      mathematical remainder, so the step lands in `[0, npages)`. */
  function NextRef(last: int, rnd: nat, npages: nat, range: nat): (r: int)
    requires npages > 0
    ensures 0 <= r < npages
    ensures r == (last + rnd % (2 * range + 1) - range) % npages
  {
    var x := CRem(last + rnd % (2 * range + 1) - range, npages);
    FixedUpRem(last + rnd % (2 * range + 1) - range, npages);
    if x < 0 then x + npages else x
  }

  /** The stream produced from the oracle values `rnd`: the first reference, and
      every reference under "ll", is `rand() % npages`; the others are windowed
      steps from their predecessor. */
  function Generate(npages: nat, loc: Locality, rnd: seq<nat>): (refs: seq<int>)
    requires npages > 0 || rnd == []
    ensures |refs| == |rnd|
    ensures forall i :: 0 <= i < |refs| ==> 0 <= refs[i] < npages
    decreases |rnd|
  {
    if rnd == [] then []
    else
      var i := |rnd| - 1;
      var prev := Generate(npages, loc, rnd[..i]);
      prev + [if i == 0 || loc == Low then rnd[i] % npages
              else NextRef(prev[i - 1], rnd[i], npages, Window(npages, loc))]
  }

  /** Generating from a prefix of the oracle values gives a prefix of the stream. */
  lemma {:induction false} GeneratePrefix(npages: nat, loc: Locality, rnd: seq<nat>, k: nat)
    requires npages > 0 || rnd == []
    requires k <= |rnd|
    ensures Generate(npages, loc, rnd[..k]) == Generate(npages, loc, rnd)[..k]
    decreases |rnd|
  {
    if k < |rnd| {
      var i := |rnd| - 1;
      assert rnd[..i][..k] == rnd[..k];
      GeneratePrefix(npages, loc, rnd[..i], k);
    } else {
      assert rnd[..k] == rnd;
    }
  }

  /** The first reference, and every reference under "ll", is drawn afresh:
      `rand() % npages`, independent of the references before it. */
  lemma UniformReferences(npages: nat, loc: Locality, rnd: seq<nat>, i: nat)
    requires npages > 0 && i < |rnd|
    requires i == 0 || loc == Low
    ensures Generate(npages, loc, rnd)[i] == rnd[i] % npages
  {
    GeneratePrefix(npages, loc, rnd, i + 1);
    assert rnd[..i + 1][..i] == rnd[..i];
  }

  /** How far apart two pages are when pages wrap around at `n`. */
  function Distance(a: int, b: int, n: nat): (d: nat)
    requires n > 0
    ensures d < n
  {
    if (b - a) % n < (a - b) % n then (b - a) % n else (a - b) % n
  }

  /** Under "ml", "hl" and any other non-"ll" string, every reference after the
      first is within the window of its predecessor, modulo `npages`. */
  lemma WindowedReferences(npages: nat, loc: Locality, rnd: seq<nat>, i: nat)
    requires npages > 0 && 0 < i < |rnd| && loc != Low
    ensures Distance(Generate(npages, loc, rnd)[i - 1], Generate(npages, loc, rnd)[i], npages)
         <= Window(npages, loc)
  {
    var refs := Generate(npages, loc, rnd);
    GeneratePrefix(npages, loc, rnd, i + 1);
    assert rnd[..i + 1][..i] == rnd[..i];
    GeneratePrefix(npages, loc, rnd, i);
    StepDistance(refs[i - 1], rnd[i], npages, Window(npages, loc));
  }

  /** A windowed step moves at most `range` pages, modulo `npages`. */
  lemma StepDistance(a: int, rnd: nat, npages: nat, range: nat)
    requires npages > 0
    ensures Distance(a, NextRef(a, rnd, npages, range), npages) <= range
  {
    var d: int := rnd % (2 * range + 1) - range;
    assert NextRef(a, rnd, npages, range) == (a + d) % npages;
    ShiftDistance(a, d, npages, range);
  }

  /** Moving `d` places, with `|d| <= range`, and wrapping at `npages` lands at
      most `range` pages away. */
  lemma ShiftDistance(a: int, d: int, npages: nat, range: nat)
    requires npages > 0 && -(range as int) <= d <= range
    ensures Distance(a, (a + d) % npages, npages) <= range
  {
    var b := (a + d) % npages;
    var q := (a + d) / npages;
    assert a + d == npages * q + b;
    if d >= 0 {
      assert b - a == d + npages * (-q);
      ShiftRem(d, -q, npages);
      RemAtMost(d, npages);
    } else {
      assert a - b == -d + npages * q;
      ShiftRem(-d, q, npages);
      RemAtMost(-d, npages);
    }
  }

  /** A non-negative number's remainder does not exceed it. */
  lemma RemAtMost(d: nat, n: nat)
    requires n > 0
    ensures d % n <= d
  {
    if d < n {
      MultipleRem(0, d, n);
    }
  }

  /** A locality string other than "ll", "ml" and "hl" behaves as "hl". */
  lemma {:induction false} OtherLocalityIsHigh(npages: nat, rnd: seq<nat>)
    requires npages > 0 || rnd == []
    ensures Generate(npages, OtherLocality, rnd) == Generate(npages, High, rnd)
    decreases |rnd|
  {
    if rnd != [] {
      OtherLocalityIsHigh(npages, rnd[..|rnd| - 1]);
    }
  }

  /** Generating one more reference appends the next step of the stream. */
  lemma GenerateStep(npages: nat, loc: Locality, rnd: seq<nat>, i: nat)
    requires npages > 0 && i < |rnd|
    ensures var prev := Generate(npages, loc, rnd[..i]);
      Generate(npages, loc, rnd[..i + 1])
        == prev + [if i == 0 || loc == Low then rnd[i] % npages
                   else NextRef(prev[i - 1], rnd[i], npages, Window(npages, loc))]
  {
    assert rnd[..i + 1][..i] == rnd[..i];
  }

  /** `generatePageReferences`: fills the buffer, one `rand()` per reference. */
  method GeneratePageReferences(references: array<int>, npages: nat, loc: Locality, rnd: seq<nat>)
    requires references.Length == |rnd| && (npages > 0 || rnd == [])
    modifies references
    ensures references[..] == Generate(npages, loc, rnd)
  {
    for i := 0 to references.Length
      invariant references[..i] == Generate(npages, loc, rnd[..i])
    {
      var next: int;
      if i == 0 || loc == Low {
        next := rnd[i] % npages;
      } else {
        var range := Window(npages, loc);
        next := NextRef(references[i - 1], rnd[i], npages, range);
      }
      references[i] := next;
      assert references[..i + 1] == Generate(npages, loc, rnd[..i + 1]) by {
        GenerateStep(npages, loc, rnd, i);
        assert references[..i + 1] == references[..i] + [next];
      }
    }
    assert rnd[..references.Length] == rnd;
    assert references[..references.Length] == references[..];
  }
}
