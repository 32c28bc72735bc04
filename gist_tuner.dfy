/**
 * GiST buffering build: the choice of levelStep and pagesPerBuffer
 * (gistInitBuffering and calculatePagesPerBuffer).
 *
 * The C code computes in double precision; here the same formulas are
 * evaluated over exact reals. The closed-form geometric series divides by
 * zero when the average fanout is exactly 1; C then compares a NaN, which is
 * never greater than anything, and the model keeps that behaviour.
 */
module GistTuner {
  import opened Wrappers

  const BLCKSZ: int := 8192
  const SizeOfPageHeaderData: int := 24
  const SizeOfGISTPageOpaqueData: int := 16
  const SizeOfItemIdData: int := 4
  const SizeOfIndexTupleData: int := 8
  const VARHDRSZ: int := 4

  /** Space of an index page available for index tuples, after the fill-factor reserve. */
  function PageFreeSpace(freespace: int): int {
    BLCKSZ - SizeOfPageHeaderData - SizeOfGISTPageOpaqueData - SizeOfItemIdData - freespace
  }

  /** MAXALIGN(sizeof(IndexTupleData)) plus VARHDRSZ per varlena attribute and attlen per fixed one. */
  function MinTupleSizeOf(attlens: seq<int>): int {
    if |attlens| == 0 then SizeOfIndexTupleData
    else
      var last := attlens[|attlens| - 1];
      MinTupleSizeOf(attlens[..|attlens| - 1]) + (if last < 0 then VARHDRSZ else last)
  }

  /** The loop of gistInitBuffering that computes itupMinSize from the index's attribute lengths. */
  method MinTupleSize(attlens: seq<int>) returns (itupMinSize: int)
    ensures itupMinSize == MinTupleSizeOf(attlens)
    ensures (forall i :: 0 <= i < |attlens| ==> attlens[i] != 0) ==> itupMinSize >= SizeOfIndexTupleData + |attlens|
  {
    itupMinSize := SizeOfIndexTupleData;
    var i := 0;
    while i < |attlens|
      invariant 0 <= i <= |attlens|
      invariant itupMinSize == MinTupleSizeOf(attlens[..i])
      invariant (forall j :: 0 <= j < i ==> attlens[j] != 0) ==> itupMinSize >= SizeOfIndexTupleData + i
    {
      assert attlens[..i + 1][..i] == attlens[..i];
      if attlens[i] < 0 {
        itupMinSize := itupMinSize + VARHDRSZ;
      } else {
        itupMinSize := itupMinSize + attlens[i];
      }
      i := i + 1;
    }
    assert attlens[..i] == attlens;
  }

  /** x^n for a natural exponent. */
  function Pow(x: real, n: nat): real {
    if n == 0 then 1.0 else x * Pow(x, n - 1)
  }

  /** B^0 + B^1 + ... + B^n. */
  function GeometricSum(b: real, n: nat): real {
    if n == 0 then 1.0 else GeometricSum(b, n - 1) + Pow(b, n)
  }

  /**
   * subtreesize as gistInitBuffering computes it, (1 - B^(n+1)) / (1 - B);
   * None stands for the NaN of 0/0 when B is 1.
   */
  function SubtreeSize(b: real, n: nat): Option<real> {
    if b == 1.0 then None else Some((1.0 - Pow(b, n + 1)) / (1.0 - b))
  }

  /** The inputs of the levelStep search. */
  datatype TunerInput = TunerInput(
    avgTuplesPerPage: real,   // pageFreeSpace / itupAvgSize
    maxTuplesPerPage: int,    // pageFreeSpace / itupMinSize, an integer division
    effectiveCacheSize: int,  // pages
    maintenanceWorkMem: int)  // kilobytes

  /** The averages the build has gathered: pageFreeSpace / (indtuplesSize / indtuples). */
  function AvgTuplesPerPage(freespace: int, indtuples: int, indtuplesSize: int): real
    requires indtuples > 0 && indtuplesSize > 0
  {
    PageFreeSpace(freespace) as real / (indtuplesSize as real / indtuples as real)
  }

  predicate WellFormed(p: TunerInput) {
    p.avgTuplesPerPage > 0.0 && p.maxTuplesPerPage >= 0
    && p.effectiveCacheSize >= 0 && p.maintenanceWorkMem >= 0
  }

  /** The search ends: the subtree grows with levelStep, or the lowest level does. */
  predicate SearchEnds(p: TunerInput) {
    p.avgTuplesPerPage > 1.0 || p.maxTuplesPerPage >= 2
  }

  /** The subtree at this levelStep does not fit in a quarter of the cache. */
  predicate TooBigForCache(p: TunerInput, levelStep: nat) {
    var s := SubtreeSize(p.avgTuplesPerPage, levelStep);
    s.Some? && s.value > (p.effectiveCacheSize / 4) as real
  }

  /** The lowest level of the subtree needs more pages than maintenance_work_mem holds. */
  predicate TooBigForWorkMem(p: TunerInput, levelStep: nat) {
    Pow(p.maxTuplesPerPage as real, levelStep) > (p.maintenanceWorkMem as real * 1024.0) / BLCKSZ as real
  }

  /** levelStep breaks one of the two bounds. */
  predicate Breaks(p: TunerInput, levelStep: nat) {
    TooBigForCache(p, levelStep) || TooBigForWorkMem(p, levelStep)
  }

  /** The closed form equals the sum of powers whenever it is defined. */
  lemma {:induction false} ClosedFormIsSum(b: real, n: nat)
    requires b != 1.0
    ensures SubtreeSize(b, n) == Some(GeometricSum(b, n))
  {
    SumTimesOneMinus(b, n);
    var g := GeometricSum(b, n);
    DivideBack(g, 1.0 - b, 1.0 - Pow(b, n + 1));
  }

  lemma DivideBack(x: real, d: real, y: real)
    requires d != 0.0 && x * d == y
    ensures y / d == x
  {
  }

  lemma Distribute(x: real, y: real, z: real)
    ensures (x + y) * z == x * z + y * z
  {
  }

  lemma {:induction false} SumTimesOneMinus(b: real, n: nat)
    ensures GeometricSum(b, n) * (1.0 - b) == 1.0 - Pow(b, n + 1)
  {
    if n > 0 {
      var m := n - 1;
      SumTimesOneMinus(b, m);
      var g := GeometricSum(b, m);
      var p := Pow(b, n);
      assert m + 1 == n;
      assert g * (1.0 - b) == 1.0 - p;
      assert Pow(b, n + 1) == b * p;
      assert GeometricSum(b, n) == g + p;
      Distribute(g, p, 1.0 - b);
      assert p * (1.0 - b) == p - b * p;
      assert GeometricSum(b, n) * (1.0 - b) == 1.0 - b * p;
    }
  }

  lemma {:induction false} PowAtLeastOne(b: real, n: nat)
    requires b >= 1.0
    ensures Pow(b, n) >= 1.0
  {
    if n > 0 {
      PowAtLeastOne(b, n - 1);
      assert b * Pow(b, n - 1) >= Pow(b, n - 1);
    }
  }

  lemma {:induction false} SumGrows(b: real, n: nat)
    requires b >= 1.0
    ensures GeometricSum(b, n) >= (n + 1) as real
  {
    if n > 0 {
      SumGrows(b, n - 1);
      PowAtLeastOne(b, n);
    }
  }

  lemma {:induction false} PowGrows(m: real, n: nat)
    requires m >= 2.0
    ensures Pow(m, n) >= (n + 1) as real
  {
    if n > 0 {
      PowGrows(m, n - 1);
      assert m * Pow(m, n - 1) >= 2.0 * Pow(m, n - 1);
    }
  }

  /** A levelStep no search can pass. */
  function Bound(p: TunerInput): nat
    requires WellFormed(p)
  {
    p.effectiveCacheSize / 4 + p.maintenanceWorkMem + 1
  }

  /** From the bound on, every levelStep breaks. */
  lemma BreaksFromBound(p: TunerInput, levelStep: nat)
    requires WellFormed(p) && SearchEnds(p) && levelStep >= Bound(p)
    ensures Breaks(p, levelStep)
  {
    if p.avgTuplesPerPage > 1.0 {
      ClosedFormIsSum(p.avgTuplesPerPage, levelStep);
      SumGrows(p.avgTuplesPerPage, levelStep);
      assert TooBigForCache(p, levelStep);
    } else {
      PowGrows(p.maxTuplesPerPage as real, levelStep);
      assert TooBigForWorkMem(p, levelStep);
    }
  }

  /** The first levelStep at or above `from` that breaks a bound. */
  function FirstBreakFrom(p: TunerInput, from: nat): (r: nat)
    requires WellFormed(p) && SearchEnds(p)
    ensures from <= r && Breaks(p, r)
    ensures forall s :: from <= s < r ==> !Breaks(p, s)
    decreases if from <= Bound(p) then Bound(p) - from else 0
  {
    if Breaks(p, from) then from
    else
      assert from < Bound(p) by {
        if from >= Bound(p) { BreaksFromBound(p, from); }
      }
      FirstBreakFrom(p, from + 1)
  }

  /** The levelStep gistInitBuffering settles on: one less than the first that breaks. */
  function ChosenLevelStep(p: TunerInput): (r: int)
    requires WellFormed(p) && SearchEnds(p)
    ensures r >= 0 && Breaks(p, r + 1)
    ensures forall s :: 1 <= s <= r ==> !Breaks(p, s)
  {
    FirstBreakFrom(p, 1) - 1
  }

  /** The levelStep search loop of gistInitBuffering, followed by its levelStep--. */
  method ChooseLevelStep(p: TunerInput) returns (levelStep: int)
    requires WellFormed(p) && SearchEnds(p)
    ensures levelStep == ChosenLevelStep(p)
  {
    ghost var first := FirstBreakFrom(p, 1);
    levelStep := 1;
    while true
      invariant 1 <= levelStep <= first
      decreases first - levelStep
    {
      var subtreesize := SubtreeSize(p.avgTuplesPerPage, levelStep);
      var maxlowestlevelpages := Pow(p.maxTuplesPerPage as real, levelStep);
      if subtreesize.Some? && subtreesize.value > (p.effectiveCacheSize / 4) as real {
        assert Breaks(p, levelStep);
        break;
      }
      if maxlowestlevelpages > (p.maintenanceWorkMem as real * 1024.0) / BLCKSZ as real {
        assert Breaks(p, levelStep);
        break;
      }
      assert !Breaks(p, levelStep);
      levelStep := levelStep + 1;
    }
    levelStep := levelStep - 1;
  }

  /** More cache or more work memory never makes a levelStep break that did not. */
  lemma BreaksAntitone(p: TunerInput, q: TunerInput, s: nat)
    requires WellFormed(p) && WellFormed(q)
    requires q.avgTuplesPerPage == p.avgTuplesPerPage && q.maxTuplesPerPage == p.maxTuplesPerPage
    requires q.effectiveCacheSize >= p.effectiveCacheSize && q.maintenanceWorkMem >= p.maintenanceWorkMem
    requires Breaks(q, s)
    ensures Breaks(p, s)
  {
    assert q.effectiveCacheSize / 4 >= p.effectiveCacheSize / 4;
    assert q.maintenanceWorkMem as real * 1024.0 >= p.maintenanceWorkMem as real * 1024.0;
  }

  /** Raising effective_cache_size or maintenance_work_mem never lowers the chosen levelStep. */
  lemma ChosenLevelStepMonotone(p: TunerInput, q: TunerInput)
    requires WellFormed(p) && SearchEnds(p) && WellFormed(q)
    requires q.avgTuplesPerPage == p.avgTuplesPerPage && q.maxTuplesPerPage == p.maxTuplesPerPage
    requires q.effectiveCacheSize >= p.effectiveCacheSize && q.maintenanceWorkMem >= p.maintenanceWorkMem
    ensures ChosenLevelStep(q) >= ChosenLevelStep(p)
  {
    BreaksAntitone(p, q, ChosenLevelStep(q) + 1);
  }

  /** rint: the nearest integer, ties to even. */
  function Rint(x: real): (r: int)
    ensures -0.5 <= r as real - x <= 0.5
    ensures (r as real - x == 0.5 || x - r as real == 0.5) ==> r % 2 == 0
  {
    var f := x.Floor;
    var frac := x - f as real;
    if frac < 0.5 then f
    else if frac > 0.5 then f + 1
    else if f % 2 == 0 then f else f + 1
  }

  /** rint never reverses the order of its arguments. */
  lemma RintMonotone(x: real, y: real)
    requires x <= y
    ensures Rint(x) <= Rint(y)
  {

  }

  /** calculatePagesPerBuffer: (int) rint(2 * avg^levelStep). */
  function PagesPerBuffer(avgTuplesPerPage: real, levelStep: nat): int {
    Rint(2.0 * Pow(avgTuplesPerPage, levelStep))
  }

  lemma {:induction false} PowMonotoneInExponent(b: real, m: nat, n: nat)
    requires b >= 1.0 && m <= n
    ensures Pow(b, m) <= Pow(b, n)
    decreases n
  {
    if m < n {
      PowMonotoneInExponent(b, m, n - 1);
      PowAtLeastOne(b, n - 1);
      assert b * Pow(b, n - 1) >= Pow(b, n - 1);
    }
  }

  /**
   * With at least one tuple per page on average, each buffer holds at least
   * two pages, and a deeper levelStep never gets smaller buffers.
   */
  lemma PagesPerBufferGrows(avgTuplesPerPage: real, l1: nat, l2: nat)
    requires avgTuplesPerPage >= 1.0 && l1 <= l2
    ensures 2 <= PagesPerBuffer(avgTuplesPerPage, l1) <= PagesPerBuffer(avgTuplesPerPage, l2)
  {
    PowAtLeastOne(avgTuplesPerPage, l1);
    PowMonotoneInExponent(avgTuplesPerPage, l1, l2);
    RintMonotone(2.0, 2.0 * Pow(avgTuplesPerPage, l1));
    RintMonotone(2.0 * Pow(avgTuplesPerPage, l1), 2.0 * Pow(avgTuplesPerPage, l2));
    assert Rint(2.0) == 2;
  }
}
