// What a matrix kernel without shared scratch space has added to C so far: for a region of C,
// the terms of the product with k in a range.

module TiledProduct {
  import opened DivMod
  import opened Interleaving
  import opened Matrix

  datatype Factors = Factors(lda: nat, a: seq<int>, b: seq<int>) {
    predicate Valid() {
      |a| == lda * lda == |b|
    }

    /** The terms k = lo .. hi - 1 of element (j, i) of the product. */
    function Terms(j: nat, i: nat, lo: nat, hi: nat): int {
      Dot(a, b, lda, j, i, hi) - Dot(a, b, lda, j, i, lo)
    }
  }

  /** A and B are square, and so is an array of n elements. */
  predicate Square(f: Factors, n: nat) {
    f.Valid() && n == f.lda * f.lda
  }

  /** A set of elements by row and column. */
  type Region = (nat, nat) -> bool

  function Rectangle(j0: nat, j1: nat, i0: nat, i1: nat): Region {
    (j: nat, i: nat) => j0 <= j < j1 && i0 <= i < i1
  }

  function Plus(region: Region, j': nat, i': nat): Region {
    (j: nat, i: nat) => region(j, i) || (j == j' && i == i')
  }

  /** From x to y the region has gained the terms lo .. hi - 1, and nothing else has changed. */
  ghost predicate Adds(f: Factors, x: seq<int>, y: seq<int>, lo: nat, hi: nat, region: Region) {
    && |x| == |y| == f.lda * f.lda
    && forall j, i :: 0 <= j < f.lda && 0 <= i < f.lda ==>
         Entry(y, f.lda, j, i) == Entry(x, f.lda, j, i) + (if region(j, i) then f.Terms(j, i, lo, hi) else 0)
  }

  lemma AddsNothing(f: Factors, x: seq<int>, lo: nat, hi: nat, region: Region)
    requires |x| == f.lda * f.lda
    requires forall j, i :: 0 <= j < f.lda && 0 <= i < f.lda ==> !region(j, i)
    ensures Adds(f, x, x, lo, hi, region)
  {
  }

  /** Two disjoint regions one after the other. */
  lemma AddsBoth(f: Factors, x: seq<int>, y: seq<int>, z: seq<int>, lo: nat, hi: nat, r: Region, s: Region,
                 both: Region)
    requires Adds(f, x, y, lo, hi, r) && Adds(f, y, z, lo, hi, s)
    requires forall j, i :: 0 <= j < f.lda && 0 <= i < f.lda ==>
               !(r(j, i) && s(j, i)) && both(j, i) == (r(j, i) || s(j, i))
    ensures Adds(f, x, z, lo, hi, both)
  {
    hide Entry, Dot;
  }

  /** Two adjacent ranges of terms of one region, in either order. */
  lemma AddsMore(f: Factors, x: seq<int>, y: seq<int>, z: seq<int>, lo: nat, mid: nat, hi: nat, r: Region)
    requires (Adds(f, x, y, lo, mid, r) && Adds(f, y, z, mid, hi, r))
          || (Adds(f, x, y, mid, hi, r) && Adds(f, y, z, lo, mid, r))
    ensures Adds(f, x, z, lo, hi, r)
  {
    hide Entry, Dot;
  }

  lemma AddsSame(f: Factors, x: seq<int>, y: seq<int>, lo: nat, hi: nat, r: Region, s: Region)
    requires Adds(f, x, y, lo, hi, r)
    requires forall j, i :: 0 <= j < f.lda && 0 <= i < f.lda ==> r(j, i) == s(j, i)
    ensures Adds(f, x, y, lo, hi, s)
  {
    hide Entry, Dot;
  }

  lemma NoColumns(f: Factors, x: seq<int>, lo: nat, hi: nat, j0: nat, j1: nat, i: nat)
    requires Square(f, |x|)
    ensures Adds(f, x, x, lo, hi, Rectangle(j0, j1, i, i))
  {
    AddsNothing(f, x, lo, hi, Rectangle(j0, j1, i, i));
  }

  lemma NoRows(f: Factors, x: seq<int>, lo: nat, hi: nat, j: nat, i0: nat, i1: nat)
    requires Square(f, |x|)
    ensures Adds(f, x, x, lo, hi, Rectangle(j, j, i0, i1))
  {
    AddsNothing(f, x, lo, hi, Rectangle(j, j, i0, i1));
  }

  /** Two rectangles side by side, in either order. */
  lemma SideBySide(f: Factors, x: seq<int>, y: seq<int>, z: seq<int>, lo: nat, hi: nat, j0: nat, j1: nat,
                   i0: nat, i1: nat, i2: nat)
    requires i0 <= i1 <= i2
    requires (Adds(f, x, y, lo, hi, Rectangle(j0, j1, i0, i1)) && Adds(f, y, z, lo, hi, Rectangle(j0, j1, i1, i2)))
          || (Adds(f, x, y, lo, hi, Rectangle(j0, j1, i1, i2)) && Adds(f, y, z, lo, hi, Rectangle(j0, j1, i0, i1)))
    ensures Adds(f, x, z, lo, hi, Rectangle(j0, j1, i0, i2))
  {
    hide Adds;
    if Adds(f, x, y, lo, hi, Rectangle(j0, j1, i0, i1)) && Adds(f, y, z, lo, hi, Rectangle(j0, j1, i1, i2)) {
      AddsBoth(f, x, y, z, lo, hi, Rectangle(j0, j1, i0, i1), Rectangle(j0, j1, i1, i2), Rectangle(j0, j1, i0, i2));
    } else {
      AddsBoth(f, x, y, z, lo, hi, Rectangle(j0, j1, i1, i2), Rectangle(j0, j1, i0, i1), Rectangle(j0, j1, i0, i2));
    }
  }

  /** Two rectangles one above the other, in either order. */
  lemma OneAboveOther(f: Factors, x: seq<int>, y: seq<int>, z: seq<int>, lo: nat, hi: nat, j0: nat, j1: nat, j2: nat,
                      i0: nat, i1: nat)
    requires j0 <= j1 <= j2
    requires (Adds(f, x, y, lo, hi, Rectangle(j0, j1, i0, i1)) && Adds(f, y, z, lo, hi, Rectangle(j1, j2, i0, i1)))
          || (Adds(f, x, y, lo, hi, Rectangle(j1, j2, i0, i1)) && Adds(f, y, z, lo, hi, Rectangle(j0, j1, i0, i1)))
    ensures Adds(f, x, z, lo, hi, Rectangle(j0, j2, i0, i1))
  {
    hide Adds;
    if Adds(f, x, y, lo, hi, Rectangle(j0, j1, i0, i1)) && Adds(f, y, z, lo, hi, Rectangle(j1, j2, i0, i1)) {
      AddsBoth(f, x, y, z, lo, hi, Rectangle(j0, j1, i0, i1), Rectangle(j1, j2, i0, i1), Rectangle(j0, j2, i0, i1));
    } else {
      AddsBoth(f, x, y, z, lo, hi, Rectangle(j1, j2, i0, i1), Rectangle(j0, j1, i0, i1), Rectangle(j0, j2, i0, i1));
    }
  }

  /** Storing one finished element. */
  lemma AddsOne(f: Factors, x: seq<int>, y: seq<int>, lo: nat, hi: nat, r: Region, j: nat, i: nat, v: int)
    requires Adds(f, x, y, lo, hi, r) && j < f.lda && i < f.lda && !r(j, i)
    requires v == Entry(x, f.lda, j, i) + f.Terms(j, i, lo, hi)
    ensures Ix(f.lda, j, i) < |y| && Adds(f, x, y[Ix(f.lda, j, i) := v], lo, hi, Plus(r, j, i))
    ensures v == y[Ix(f.lda, j, i)] + f.Terms(j, i, lo, hi)
  {
    hide Dot, Ix;
    IxInside(f.lda, j, i);
    var z := y[Ix(f.lda, j, i) := v];
    forall j', i' | 0 <= j' < f.lda && 0 <= i' < f.lda
      ensures Entry(z, f.lda, j', i') ==
              Entry(x, f.lda, j', i') + (if Plus(r, j, i)(j', i') then f.Terms(j', i', lo, hi) else 0)
    {
      IxInside(f.lda, j', i');
      if Ix(f.lda, j', i') == Ix(f.lda, j, i) {
        IxInjective(f.lda, j', i', j, i);
      } else {
        assert Entry(z, f.lda, j', i') == Entry(y, f.lda, j', i');
      }
    }
  }

  /** The next term. */
  lemma TermsStep(f: Factors, j: nat, i: nat, lo: nat, k: nat)
    requires f.Valid() && j < f.lda && i < f.lda && k < f.lda
    ensures Ix(f.lda, j, k) < |f.a| && Ix(f.lda, k, i) < |f.b|
    ensures f.Terms(j, i, lo, k + 1) == f.Terms(j, i, lo, k) + f.a[Ix(f.lda, j, k)] * f.b[Ix(f.lda, k, i)]
  {
    IxInside(f.lda, j, k);
    IxInside(f.lda, k, i);
  }

  /** The term before. */
  lemma TermsDown(f: Factors, j: nat, i: nat, k: nat, hi: nat)
    requires f.Valid() && j < f.lda && i < f.lda && k < f.lda
    ensures Ix(f.lda, j, k) < |f.a| && Ix(f.lda, k, i) < |f.b|
    ensures f.Terms(j, i, k, hi) == f.Terms(j, i, k + 1, hi) + f.a[Ix(f.lda, j, k)] * f.b[Ix(f.lda, k, i)]
  {
    IxInside(f.lda, j, k);
    IxInside(f.lda, k, i);
  }

  /** C = C0 + A * B. */
  ghost predicate IsProductAdded(f: Factors, c0: seq<int>, c: seq<int>) {
    && |c| == |c0| == f.lda * f.lda
    && forall j, i :: 0 <= j < f.lda && 0 <= i < f.lda ==>
         Entry(c, f.lda, j, i) == Entry(c0, f.lda, j, i) + Dot(f.a, f.b, f.lda, j, i, f.lda)
  }

  lemma WholeIsProduct(f: Factors, x: seq<int>, y: seq<int>, region: Region)
    requires Adds(f, x, y, 0, f.lda, region)
    requires forall j, i :: 0 <= j < f.lda && 0 <= i < f.lda ==> region(j, i)
    ensures IsProductAdded(f, x, y)
  {
    hide Entry;
  }

  // ---------------------------------------------------------------------
  // The accesses to C
  // ---------------------------------------------------------------------

  ghost predicate InRegion(lda: nat, region: Region, at: nat) {
    exists j: nat, i: nat :: j < lda && i < lda && region(j, i) && at == Ix(lda, j, i)
  }

  ghost predicate Within(p: seq<Access>, lda: nat, region: Region) {
    forall a :: a in p ==> InRegion(lda, region, a.at)
  }

  /** The accesses of a piece of code that turns x into y, all in a region. */
  ghost predicate Traced(lda: nat, p: seq<Access>, x: seq<int>, y: seq<int>, region: Region) {
    Turns(p, x, y) && Within(p, lda, region)
  }

  lemma TracedNothing(lda: nat, x: seq<int>, region: Region)
    ensures Traced(lda, [], x, x, region)
  {
  }

  ghost predicate PartOf(lda: nat, r: Region, s: Region) {
    forall j: nat, i: nat :: j < lda && i < lda && r(j, i) ==> s(j, i)
  }

  lemma InRegionInside(lda: nat, r: Region, s: Region, at: nat)
    requires PartOf(lda, r, s) && InRegion(lda, r, at)
    ensures InRegion(lda, s, at)
  {
    hide Ix;
  }

  lemma TracedWiden(lda: nat, p: seq<Access>, x: seq<int>, y: seq<int>, r: Region, s: Region)
    requires Traced(lda, p, x, y, r) && PartOf(lda, r, s)
    ensures Traced(lda, p, x, y, s)
  {
    hide InRegion, Turns, PartOf;
    forall a | a in p
      ensures InRegion(lda, s, a.at)
    {
      InRegionInside(lda, r, s, a.at);
    }
  }

  /** One piece of code after another, in the first one's region. */
  lemma TracedOn(lda: nat, p: seq<Access>, q: seq<Access>, x: seq<int>, y: seq<int>, z: seq<int>, r: Region, s: Region)
    requires Traced(lda, p, x, y, r) && Traced(lda, q, y, z, s) && PartOf(lda, s, r)
    ensures Traced(lda, p + q, x, z, r)
  {
    hide InRegion, Turns, PartOf;
    TracedWiden(lda, q, y, z, s, r);
    TurnsOn(p, q, x, y, z);
  }

  /** A rectangle after other code, in the rectangle it is part of. */
  lemma TracedPart(lda: nat, p: seq<Access>, q: seq<Access>, x: seq<int>, y: seq<int>, z: seq<int>,
                   whole: (nat, nat, nat, nat), part: (nat, nat, nat, nat))
    requires whole.0 <= part.0 && part.1 <= whole.1 && whole.2 <= part.2 && part.3 <= whole.3
    requires Traced(lda, p, x, y, Rectangle(whole.0, whole.1, whole.2, whole.3))
    requires Traced(lda, q, y, z, Rectangle(part.0, part.1, part.2, part.3))
    ensures Traced(lda, p + q, x, z, Rectangle(whole.0, whole.1, whole.2, whole.3))
  {
    hide Traced;
    TracedOn(lda, p, q, x, y, z, Rectangle(whole.0, whole.1, whole.2, whole.3),
             Rectangle(part.0, part.1, part.2, part.3));
  }

  /** What a core's accesses come to, wherever they fall among those of other cores. */
  ghost predicate IsCoreProgram(f: Factors, p: seq<Access>, region: Region) {
    && Disciplined(p) && Within(p, f.lda, region)
    && forall j: nat, i: nat :: j < f.lda && i < f.lda ==>
         Total(p, Ix(f.lda, j, i)) == if region(j, i) then Dot(f.a, f.b, f.lda, j, i, f.lda) else 0
  }

  lemma TracedIsProgram(f: Factors, p: seq<Access>, x: seq<int>, y: seq<int>, region: Region)
    requires Traced(f.lda, p, x, y, region) && Adds(f, x, y, 0, f.lda, region)
    ensures IsCoreProgram(f, p, region)
  {
    hide Disciplined, Within, Total, Ix;
    forall j: nat, i: nat | j < f.lda && i < f.lda
      ensures Total(p, Ix(f.lda, j, i)) == if region(j, i) then Dot(f.a, f.b, f.lda, j, i, f.lda) else 0
    {
      IxInside(f.lda, j, i);
      assert Entry(y, f.lda, j, i) == Entry(x, f.lda, j, i) + Total(p, Ix(f.lda, j, i));
    }
  }

  ghost predicate ElementOf(regions: seq<Region>, t: nat, j: nat, i: nat) {
    t < |regions| && regions[t](j, i)
  }

  ghost predicate Owned(regions: seq<Region>, j: nat, i: nat) {
    exists t: nat :: ElementOf(regions, t, j, i)
  }

  /** Every element of C belongs to exactly one core's region. */
  ghost predicate Shared(lda: nat, regions: seq<Region>) {
    && (forall t: nat, u: nat, j: nat, i: nat ::
          j < lda && i < lda && ElementOf(regions, t, j, i) && ElementOf(regions, u, j, i) ==> t == u)
    && (forall j: nat, i: nat :: j < lda && i < lda ==> Owned(regions, j, i))
  }

  lemma RegionOfAccess(lda: nat, p: seq<Access>, region: Region, j: nat, i: nat)
    requires Within(p, lda, region) && j < lda && i < lda && Touches(p, Ix(lda, j, i))
    ensures region(j, i)
  {
    var a :| a in p && a.at == Ix(lda, j, i);
    var j': nat, i': nat :| j' < lda && i' < lda && region(j', i') && a.at == Ix(lda, j', i');
    IxInjective(lda, j, i, j', i');
  }

  lemma RegionOfTouch(lda: nat, p: seq<Access>, region: Region, at: nat) returns (j: nat, i: nat)
    requires Within(p, lda, region) && Touches(p, at)
    ensures j < lda && i < lda && region(j, i) && at == Ix(lda, j, i)
  {
    hide Ix;
    var a :| a in p && a.at == at;
    assert InRegion(lda, region, a.at);
    j, i :| j < lda && i < lda && region(j, i) && at == Ix(lda, j, i);
  }

  lemma RegionsAreApart(lda: nat, programs: seq<seq<Access>>, regions: seq<Region>)
    requires |programs| == |regions| && Shared(lda, regions)
    requires forall t: nat :: t < |programs| ==> Within(programs[t], lda, regions[t])
    ensures Apart(programs)
  {
    hide Ix, Within, Touches;
    forall t: nat, u: nat, at: nat |
      t < |programs| && u < |programs| && Touches(programs[t], at) && Touches(programs[u], at)
      ensures t == u
    {
      var j, i := RegionOfTouch(lda, programs[t], regions[t], at);
      RegionOfAccess(lda, programs[u], regions[u], j, i);
      assert ElementOf(regions, t, j, i) && ElementOf(regions, u, j, i);
    }
  }

  lemma ProgramsInside(lda: nat, programs: seq<seq<Access>>, regions: seq<Region>)
    requires |programs| == |regions| && forall t: nat :: t < |programs| ==> Within(programs[t], lda, regions[t])
    ensures Inside(programs, lda * lda)
  {
    hide Ix;
    forall t: nat, a | t < |programs| && a in programs[t]
      ensures a.at < lda * lda
    {
      assert InRegion(lda, regions[t], a.at);
      var j: nat, i: nat :| j < lda && i < lda && regions[t](j, i) && a.at == Ix(lda, j, i);
      IxInside(lda, j, i);
    }
  }

  lemma {:induction false} TotalUntouched(p: seq<Access>, at: nat)
    requires !Touches(p, at)
    ensures Total(p, at) == 0
    decreases |p|
  {
    if p != [] {
      assert p[|p| - 1] in p;
      forall a | a in p[..|p| - 1]
        ensures a.at != at
      {
        assert a in p;
      }
      TotalUntouched(p[..|p| - 1], at);
    }
  }

  lemma OneOwner(lda: nat, regions: seq<Region>, t: nat, u: nat, j: nat, i: nat)
    requires Shared(lda, regions) && j < lda && i < lda && ElementOf(regions, t, j, i)
    requires u < |regions| && regions[u](j, i)
    ensures t == u
  {
    assert ElementOf(regions, u, j, i);
  }

  /** Whatever the interleaving of the cores' accesses: C = C0 + A * B. */
  lemma EveryInterleaving(f: Factors, programs: seq<seq<Access>>, regions: seq<Region>, x: seq<int>, schedule: seq<nat>)
    requires f.Valid() && |x| == f.lda * f.lda && |programs| == |regions| && Shared(f.lda, regions)
    requires forall t: nat :: t < |programs| ==> IsCoreProgram(f, programs[t], regions[t])
    ensures Inside(programs, |x|)
    ensures Done(programs, After(programs, x, schedule)) ==> IsProductAdded(f, x, After(programs, x, schedule).memory)
  {
    hide Disciplined, Within, Total, Touches, Ix, After, Dot, Done, Apart, Inside;
    ProgramsInside(f.lda, programs, regions);
    RegionsAreApart(f.lda, programs, regions);
    if Done(programs, After(programs, x, schedule)) {
      SumsArrive(programs, x, schedule);
      var y := After(programs, x, schedule).memory;
      forall j: nat, i: nat | j < f.lda && i < f.lda
        ensures Entry(y, f.lda, j, i) == Entry(x, f.lda, j, i) + Dot(f.a, f.b, f.lda, j, i, f.lda)
      {
        var at := Ix(f.lda, j, i);
        IxInside(f.lda, j, i);
        assert Owned(regions, j, i);
        var t: nat :| ElementOf(regions, t, j, i);
        if !Touches(programs[t], at) {
          TotalUntouched(programs[t], at);
          forall u: nat | u < |programs|
            ensures !Touches(programs[u], at)
          {
            if Touches(programs[u], at) {
              RegionOfAccess(f.lda, programs[u], regions[u], j, i);
              OneOwner(f.lda, regions, t, u, j, i);
            }
          }
        }
      }
    }
  }

  // ---------------------------------------------------------------------
  // One tile
  // ---------------------------------------------------------------------

  /** The accumulators hold a tile of x plus its terms in range p, or q before row r and column s. */
  ghost predicate Holds(f: Factors, x: seq<int>, acc: array2<int>, j: nat, i: nat, p: (nat, nat), q: (nat, nat),
                        r: nat, s: nat)
    reads acc
  {
    forall r', s' :: 0 <= r' < acc.Length0 && 0 <= s' < acc.Length1 ==>
      var range := if r' < r || (r' == r && s' < s) then q else p;
      acc[r', s'] == Entry(x, f.lda, j + r', i + s') + f.Terms(j + r', i + s', range.0, range.1)
  }

  ghost predicate HoldsAll(f: Factors, x: seq<int>, acc: array2<int>, j: nat, i: nat, lo: nat, hi: nat)
    reads acc
  {
    Holds(f, x, acc, j, i, (lo, hi), (lo, hi), 0, 0)
  }

  /** Index of an element of a tile. */
  function Cell(lda: nat, j: nat, i: nat, r: nat, s: nat): nat {
    Ix(lda, j + r, i + s)
  }

  predicate IsBefore(r': nat, s': nat, r: nat, s: nat) {
    r' < r || (r' == r && s' < s)
  }

  /** The elements of a tile of w columns before row r, column s have been loaded and not been stored since. */
  ghost predicate FreshBefore(lda: nat, p: seq<Access>, j: nat, i: nat, w: nat, r: nat, s: nat) {
    forall r': nat, s': nat :: IsBefore(r', s', r, s) && s' < w ==> Fresh(p, Cell(lda, j, i, r', s'))
  }

  /** So have those of the h rows of a tile from there on. */
  ghost predicate FreshFrom(lda: nat, p: seq<Access>, j: nat, i: nat, h: nat, w: nat, r: nat, s: nat) {
    forall r': nat, s': nat :: r' < h && s' < w && !IsBefore(r', s', r, s) ==> Fresh(p, Cell(lda, j, i, r', s'))
  }

  /** The loads of a tile. */
  ghost predicate AreLoads(lda: nat, p: seq<Access>, x: seq<int>, j: nat, i: nat, h: nat, w: nat) {
    Traced(lda, p, x, x, Rectangle(j, j + h, i, i + w)) && FreshBefore(lda, p, j, i, w, h, 0)
  }

  lemma OneMoreLoad(lda: nat, p: seq<Access>, x: seq<int>, j: nat, i: nat, h: nat, w: nat, r: nat, s: nat)
    requires r < h && s < w && j + h <= lda && i + w <= lda
    requires Traced(lda, p, x, x, Rectangle(j, j + h, i, i + w)) && FreshBefore(lda, p, j, i, w, r, s)
    ensures var q := p + [Load(Ix(lda, j + r, i + s))];
            Traced(lda, q, x, x, Rectangle(j, j + h, i, i + w)) && FreshBefore(lda, q, j, i, w, r, s + 1)
  {
    hide Ix, Turns, Fresh;
    var at := Ix(lda, j + r, i + s);
    assert InRegion(lda, Rectangle(j, j + h, i, i + w), at);
    TurnsLoad(p, x, x, at);
    forall r': nat, s': nat | IsBefore(r', s', r, s + 1) && s' < w
      ensures Fresh(p + [Load(at)], Cell(lda, j, i, r', s'))
    {
      FreshNext(p, Load(at), Cell(lda, j, i, r', s'));
      assert IsBefore(r', s', r, s) || Cell(lda, j, i, r', s') == at;
    }
  }

  /** A store of a loaded element. */
  lemma OneMoreStore(lda: nat, p: seq<Access>, x: seq<int>, y: seq<int>, j: nat, i: nat, h: nat, w: nat, r: nat,
                     s: nat, term: int)
    requires r < h && s < w && j + h <= lda && i + w <= lda && Ix(lda, j + r, i + s) < |y|
    requires Traced(lda, p, x, y, Rectangle(j, j + h, i, i + w)) && FreshFrom(lda, p, j, i, h, w, r, s)
    ensures var at := Ix(lda, j + r, i + s); var q := p + [Store(at, term)];
            Traced(lda, q, x, y[at := y[at] + term], Rectangle(j, j + h, i, i + w))
            && FreshFrom(lda, q, j, i, h, w, r, s + 1)
  {
    hide Ix, Turns, Fresh;
    var at := Ix(lda, j + r, i + s);
    assert at == Cell(lda, j, i, r, s) && !IsBefore(r, s, r, s);
    assert InRegion(lda, Rectangle(j, j + h, i, i + w), at);
    TurnsStore(p, x, y, at, term);
    forall r': nat, s': nat | r' < h && s' < w && !IsBefore(r', s', r, s + 1)
      ensures Fresh(p + [Store(at, term)], Cell(lda, j, i, r', s'))
    {
      assert !IsBefore(r', s', r, s);
      FreshNext(p, Store(at, term), Cell(lda, j, i, r', s'));
      CellsDiffer(lda, j, i, r', s', r, s);
    }
  }

  lemma CellsDiffer(lda: nat, j: nat, i: nat, r: nat, s: nat, r': nat, s': nat)
    requires (r != r' || s != s') && i + s < lda && i + s' < lda
    ensures Cell(lda, j, i, r, s) != Cell(lda, j, i, r', s')
  {
    hide Ix;
    if Cell(lda, j, i, r, s) == Cell(lda, j, i, r', s') {
      IxInjective(lda, j + r, i + s, j + r', i + s');
    }
  }

  lemma NextRowFresh(lda: nat, p: seq<Access>, j: nat, i: nat, h: nat, w: nat, r: nat)
    ensures FreshBefore(lda, p, j, i, w, r, w) ==> FreshBefore(lda, p, j, i, w, r + 1, 0)
    ensures FreshFrom(lda, p, j, i, h, w, r, w) ==> FreshFrom(lda, p, j, i, h, w, r + 1, 0)
  {
    hide Cell, Fresh;
  }

  /** Loads a tile of C into accumulators. */
  method LoadTile(f: Factors, c: array<int>, acc: array2<int>, j: nat, i: nat, ghost lo: nat)
    returns (ghost loads: seq<Access>)
    requires Square(f, c.Length) && j + acc.Length0 <= f.lda && i + acc.Length1 <= f.lda
    modifies acc
    ensures HoldsAll(f, c[..], acc, j, i, lo, lo)
    ensures AreLoads(f.lda, loads, c[..], j, i, acc.Length0, acc.Length1)
  {
    hide Ix, Dot, Traced, FreshBefore;
    ghost var lda, h, w, region := f.lda, acc.Length0, acc.Length1, Rectangle(j, j + acc.Length0, i, i + acc.Length1);
    loads := [];
    LoadsStart(lda, c[..], j, i, h, w);
    for r := 0 to acc.Length0
      invariant forall r', s' :: 0 <= r' < r && 0 <= s' < acc.Length1 ==>
                 acc[r', s'] == Entry(c[..], f.lda, j + r', i + s')
      invariant Traced(lda, loads, c[..], c[..], region) && FreshBefore(lda, loads, j, i, w, r, 0)
    {
      for s := 0 to acc.Length1
        invariant forall r', s' :: 0 <= r' < acc.Length0 && 0 <= s' < acc.Length1 && (r' < r || (r' == r && s' < s)) ==>
                    acc[r', s'] == Entry(c[..], f.lda, j + r', i + s')
        invariant Traced(lda, loads, c[..], c[..], region) && FreshBefore(lda, loads, j, i, w, r, s)
      {
        IxInside(f.lda, j + r, i + s);
        acc[r, s] := c[Ix(f.lda, j + r, i + s)];
        OneMoreLoad(lda, loads, c[..], j, i, h, w, r, s);
        loads := loads + [Load(Ix(f.lda, j + r, i + s))];
      }
      NextRowFresh(lda, loads, j, i, h, w, r);
    }
  }

  lemma LoadsStart(lda: nat, x: seq<int>, j: nat, i: nat, h: nat, w: nat)
    ensures Traced(lda, [], x, x, Rectangle(j, j + h, i, i + w)) && FreshBefore(lda, [], j, i, w, 0, 0)
  {
  }

  lemma StoresStart(lda: nat, p: seq<Access>, x: seq<int>, j: nat, i: nat, h: nat, w: nat)
    requires AreLoads(lda, p, x, j, i, h, w)
    ensures Traced(lda, p, x, x, Rectangle(j, j + h, i, i + w)) && FreshFrom(lda, p, j, i, h, w, 0, 0)
  {
    hide Cell, Fresh, Traced;
  }

  /** Adds the terms of one k, at either end of the range, to all accumulators. row is where B holds them. */
  method AddTerms(f: Factors, acc: array2<int>, j: nat, i: nat, k: nat, row: nat, ghost x: seq<int>, ghost lo: nat,
                  ghost hi: nat)
    requires Square(f, |x|) && j + acc.Length0 <= f.lda && i + acc.Length1 <= f.lda && k < f.lda
    requires row == Ix(f.lda, k, i)
    requires (k == hi || k + 1 == lo) && HoldsAll(f, x, acc, j, i, lo, hi)
    modifies acc
    ensures HoldsAll(f, x, acc, j, i, if k == hi then lo else k, if k == hi then k + 1 else hi)
  {
    hide Dot, Entry;
    ghost var p, q := (lo, hi), if k == hi then (lo, k + 1) else (k, hi);
    for r := 0 to acc.Length0
      invariant Holds(f, x, acc, j, i, p, q, r, 0)
    {
      for s := 0 to acc.Length1
        invariant Holds(f, x, acc, j, i, p, q, r, s)
      {
        TermsStep(f, j + r, i + s, lo, k);
        TermsDown(f, j + r, i + s, k, hi);
        acc[r, s] := acc[r, s] + f.a[Ix(f.lda, j + r, k)] * f.b[row + s];
      }
    }
  }

  /** Stores the accumulators. The accesses recorded are those of the whole tile, the loads first. */
  method StoreTile(f: Factors, c: array<int>, acc: array2<int>, j: nat, i: nat, ghost lo: nat, ghost hi: nat,
                   ghost loads: seq<Access>) returns (ghost p: seq<Access>)
    requires Square(f, c.Length) && j + acc.Length0 <= f.lda && i + acc.Length1 <= f.lda
    requires HoldsAll(f, c[..], acc, j, i, lo, hi)
    requires AreLoads(f.lda, loads, c[..], j, i, acc.Length0, acc.Length1)
    modifies c
    ensures Adds(f, old(c[..]), c[..], lo, hi, Rectangle(j, j + acc.Length0, i, i + acc.Length1))
    ensures Traced(f.lda, p, old(c[..]), c[..], Rectangle(j, j + acc.Length0, i, i + acc.Length1))
  {
    hide Ix, Dot, Adds, Entry, Traced, FreshFrom, AreLoads;
    ghost var x, lda, h, w := c[..], f.lda, acc.Length0, acc.Length1;
    ghost var tile := Rectangle(j, j + h, i, i + w);
    p := loads;
    StoresStart(lda, p, x, j, i, h, w);
    AddsNothing(f, x, lo, hi, Rectangle(j, j, i, i + w));
    for r := 0 to acc.Length0
      invariant Adds(f, x, c[..], lo, hi, Rectangle(j, j + r, i, i + w))
      invariant Traced(lda, p, x, c[..], tile) && FreshFrom(lda, p, j, i, h, w, r, 0)
    {
      ghost var region := Partly(j, j + r, i, i + w, i);
      AddsSame(f, x, c[..], lo, hi, Rectangle(j, j + r, i, i + w), region);
      for s := 0 to acc.Length1
        invariant region == Partly(j, j + r, i, i + w, i + s)
        invariant Adds(f, x, c[..], lo, hi, region)
        invariant Traced(lda, p, x, c[..], tile) && FreshFrom(lda, p, j, i, h, w, r, s)
      {
        AddsOne(f, x, c[..], lo, hi, region, j + r, i + s, acc[r, s]);
        ghost var y, at := c[..], Ix(f.lda, j + r, i + s);
        IxInside(f.lda, j + r, i + s);
        c[Ix(f.lda, j + r, i + s)] := acc[r, s];
        assert c[..] == y[at := acc[r, s]];
        OneMoreStore(lda, p, x, y, j, i, h, w, r, s, f.Terms(j + r, i + s, lo, hi));
        p := p + [Store(at, f.Terms(j + r, i + s, lo, hi))];
        AddsSame(f, x, c[..], lo, hi, Plus(region, j + r, i + s), Partly(j, j + r, i, i + w, i + s + 1));
        region := Partly(j, j + r, i, i + w, i + s + 1);
      }
      NextRowFresh(lda, p, j, i, h, w, r);
      AddsSame(f, x, c[..], lo, hi, region, Rectangle(j, j + r + 1, i, i + w));
    }
  }

  /** Whole rows, and a further row up to a column. */
  function Partly(j0: nat, j1: nat, i0: nat, i1: nat, end: nat): Region {
    (j: nat, i: nat) => (j0 <= j < j1 && i0 <= i < i1) || (j == j1 && i0 <= i < end)
  }
}
