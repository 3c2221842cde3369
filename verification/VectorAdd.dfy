// vvadd0.c and vvadd3.c: a vector sum shared out among cores; vvadd0 deals out what the equal
// chunks leave over, vvadd3 runs one chunk through Duff's device.

module VectorAdd {
  import opened DivMod
  import opened Interleaving

  // ---------------------------------------------------------------------
  // vvadd0
  // ---------------------------------------------------------------------

  /** The vector's length, the cores, and what vvadd0 computes from them: chunk size and leftover. */
  datatype Shares = Shares(n: nat, ncores: nat) {
    /** With fewer elements than cores the chunk is 0 and the source divides by it. */
    predicate Valid() {
      0 < ncores <= n
    }

    function Chunk(): nat
      requires Valid()
    {
      n / ncores
    }

    function Leftover(): (r: nat)
      requires Valid()
      ensures r <= n
    {
      ChunkPositive(this);
      RemainderSmall(n, Chunk());
      n % Chunk()
    }

    /** Index i is in the core's chunk. */
    predicate InChunk(coreid: nat, i: nat)
      requires Valid()
    {
      coreid * Chunk() <= i < (coreid + 1) * Chunk()
    }

    /** Index i is dealt to the core from the leftover. */
    predicate Dealt(coreid: nat, i: nat)
      requires Valid()
    {
      n - Leftover() + coreid <= i < n && (i - (n - Leftover() + coreid)) % ncores == 0
    }

    predicate Writes(coreid: nat, i: nat)
      requires Valid()
    {
      InChunk(coreid, i) || Dealt(coreid, i)
    }
  }

  lemma ChunkPositive(s: Shares)
    requires s.Valid()
    ensures s.Chunk() > 0
  {
    assert s.n == s.Chunk() * s.ncores + s.n % s.ncores;
  }

  ghost predicate IsSum(x: seq<int>, y: seq<int>, z: seq<int>, z': seq<int>, written: nat -> bool) {
    && |x| == |y| == |z| == |z'|
    && forall i: nat :: i < |z| ==> z'[i] == if written(i) then x[i] + y[i] else z[i]
  }

  function Sum(x: seq<int>, y: seq<int>): (r: seq<int>)
    requires |x| == |y|
    ensures |r| == |x| && forall i :: 0 <= i < |r| ==> r[i] == x[i] + y[i]
  {
    seq(|x|, i requires 0 <= i < |x| => x[i] + y[i])
  }

  /** The stores of a core: sums, at just these indices. */
  ghost predicate Recorded(x: seq<int>, y: seq<int>, p: seq<Access>, written: nat -> bool) {
    |x| == |y| && Puts(p, Sum(x, y)) && forall i: nat :: i < |x| ==> (Touches(p, i) <==> written(i))
  }

  /** A core's code has made these stores, and they have turned z into z'. */
  ghost predicate Sums(x: seq<int>, y: seq<int>, z: seq<int>, z': seq<int>, p: seq<Access>, written: nat -> bool) {
    IsSum(x, y, z, z', written) && Recorded(x, y, p, written)
  }

  /** One more element stored. */
  lemma SumStored(x: seq<int>, y: seq<int>, z0: seq<int>, z: seq<int>, p: seq<Access>, before: nat -> bool, i: nat,
                  after: nat -> bool)
    requires Sums(x, y, z0, z, p, before) && i < |z|
    requires forall k: nat :: k < |z| ==> after(k) == (before(k) || k == i)
    ensures Sums(x, y, z0, z[i := x[i] + y[i]], p + [Put(i, x[i] + y[i])], after)
  {
    hide Puts;
    var q := p + [Put(i, x[i] + y[i])];
    OneMorePut(p, Put(i, x[i] + y[i]), Sum(x, y));
    forall k: nat | k < |x|
      ensures Touches(q, k) <==> Touches(p, k) || k == i
    {
      TouchesNext(p, Put(i, x[i] + y[i]), k);
    }
  }

  lemma OneMorePut(p: seq<Access>, a: Access, v: seq<int>)
    requires Puts(p, v) && a.Put? && a.at < |v| && a.value == v[a.at]
    ensures Puts(p + [a], v)
  {
  }

  lemma TouchesNext(p: seq<Access>, a: Access, k: nat)
    ensures Touches(p + [a], k) <==> Touches(p, k) || a.at == k
  {
    assert forall b :: b in p + [a] <==> b in p || b == a;
  }

  function Between(start: nat, end: nat): nat -> bool {
    (k: nat) => start <= k < end
  }

  /** What a core has written when its second loop is at i. */
  function WrittenBelow(s: Shares, coreid: nat, i: nat): nat -> bool
    requires s.Valid()
  {
    (k: nat) => s.InChunk(coreid, k) || (s.Dealt(coreid, k) && k < i)
  }

  function WrittenBy(s: Shares, coreid: nat): nat -> bool
    requires s.Valid()
  {
    (k: nat) => s.Writes(coreid, k)
  }

  method Vvadd0(coreid: nat, s: Shares, x: seq<int>, y: seq<int>, z: array<int>) returns (ghost p: seq<Access>)
    requires s.Valid() && coreid < s.ncores && |x| == |y| == z.Length == s.n
    modifies z
    ensures IsSum(x, y, old(z[..]), z[..], WrittenBy(s, coreid)) && Recorded(x, y, p, WrittenBy(s, coreid))
  {
    hide IsSum, Recorded, Sums, WrittenBelow, WrittenBy, Between;
    ghost var z0 := z[..];
    p := [];
    ChunkPositive(s);
    ChunksFit(s, coreid);
    var chunk := s.n / s.ncores;
    var leftover := s.n % chunk;
    NothingWritten(x, y, z0, coreid * chunk);
    var i := coreid * chunk;
    while i < (coreid + 1) * chunk
      invariant coreid * chunk <= i <= (coreid + 1) * chunk
      invariant Sums(x, y, z0, z[..], p, Between(coreid * chunk, i))
    {
      ghost var before := z[..];
      ChunkStep(x, y, z0, before, p, coreid * chunk, i);
      z[i] := x[i] + y[i];
      p := p + [Put(i, x[i] + y[i])];
      assert z[..] == before[i := x[i] + y[i]];
      i := i + 1;
    }
    ChunkDone(s, coreid, x, y, z0, z[..], p);
    ghost var dealt, first := 0, s.n - leftover + coreid;
    i := (s.n - leftover) + coreid;
    while i < s.n
      invariant i == first + dealt * s.ncores
      invariant Sums(x, y, z0, z[..], p, WrittenBelow(s, coreid, i))
    {
      ghost var before := z[..];
      DealtStep(s, coreid, x, y, z0, before, p, dealt, i);
      z[i] := x[i] + y[i];
      p := p + [Put(i, x[i] + y[i])];
      assert z[..] == before[i := x[i] + y[i]];
      i := i + s.ncores;
      dealt := dealt + 1;
      OneMoreDeal(dealt, s.ncores);
    }
    AllDealt(s, coreid, x, y, z0, z[..], p, i);
  }

  lemma OneMoreDeal(dealt: nat, n: nat)
    requires dealt > 0
    ensures dealt * n == (dealt - 1) * n + n
  {
  }

  lemma NothingWritten(x: seq<int>, y: seq<int>, z: seq<int>, start: nat)
    requires |x| == |y| == |z|
    ensures Sums(x, y, z, z, [], Between(start, start))
  {
  }

  lemma ChunkStep(x: seq<int>, y: seq<int>, z0: seq<int>, z: seq<int>, p: seq<Access>, start: nat, i: nat)
    requires Sums(x, y, z0, z, p, Between(start, i)) && start <= i < |z|
    ensures |x| == |y| == |z|
    ensures Sums(x, y, z0, z[i := x[i] + y[i]], p + [Put(i, x[i] + y[i])], Between(start, i + 1))
  {
    hide Recorded;
    SumStored(x, y, z0, z, p, Between(start, i), i, Between(start, i + 1));
  }

  lemma DealtStep(s: Shares, coreid: nat, x: seq<int>, y: seq<int>, z0: seq<int>, z: seq<int>, p: seq<Access>,
                  dealt: nat, i: nat)
    requires s.Valid() && coreid < s.ncores && i < s.n == |z| && Sums(x, y, z0, z, p, WrittenBelow(s, coreid, i))
    requires i == s.n - s.Leftover() + coreid + dealt * s.ncores
    ensures |x| == |y| == |z|
    ensures Sums(x, y, z0, z[i := x[i] + y[i]], p + [Put(i, x[i] + y[i])], WrittenBelow(s, coreid, i + s.ncores))
  {
    hide s.InChunk, s.Dealt, Recorded;
    NextDealt(s, coreid, dealt);
    SumStored(x, y, z0, z, p, WrittenBelow(s, coreid, i), i, WrittenBelow(s, coreid, i + s.ncores));
  }

  lemma SameWritten(x: seq<int>, y: seq<int>, z: seq<int>, z': seq<int>, p: seq<Access>, w: nat -> bool,
                    w': nat -> bool)
    requires Sums(x, y, z, z', p, w) && forall k: nat :: k < |z| ==> w(k) == w'(k)
    ensures Sums(x, y, z, z', p, w')
  {
    hide Puts, Touches;
  }

  lemma AllDealt(s: Shares, coreid: nat, x: seq<int>, y: seq<int>, z: seq<int>, z': seq<int>, p: seq<Access>, i: nat)
    requires s.Valid() && s.n <= i && Sums(x, y, z, z', p, WrittenBelow(s, coreid, i))
    ensures IsSum(x, y, z, z', WrittenBy(s, coreid)) && Recorded(x, y, p, WrittenBy(s, coreid))
  {
    hide Recorded, IsSum;
    SameWritten(x, y, z, z', p, WrittenBelow(s, coreid, i), WrittenBy(s, coreid));
  }

  lemma ChunkDone(s: Shares, coreid: nat, x: seq<int>, y: seq<int>, z: seq<int>, z': seq<int>, p: seq<Access>)
    requires s.Valid() && coreid < s.ncores
    requires Sums(x, y, z, z', p, Between(coreid * s.Chunk(), (coreid + 1) * s.Chunk()))
    ensures Sums(x, y, z, z', p, WrittenBelow(s, coreid, s.n - s.Leftover() + coreid))
  {
    hide Recorded, IsSum;
    ChunkPositive(s);
    SameWritten(x, y, z, z', p, Between(coreid * s.Chunk(), (coreid + 1) * s.Chunk()),
                WrittenBelow(s, coreid, s.n - s.Leftover() + coreid));
  }

  /** The chunk of a core lies before the leftover. */
  lemma ChunksFit(s: Shares, coreid: nat)
    requires s.Valid() && coreid < s.ncores
    ensures (coreid + 1) * s.Chunk() <= s.ncores * s.Chunk() <= s.n - s.Leftover() <= s.n
  {
    ChunkPositive(s);
    var q := s.Chunk();
    MulMonotone(coreid + 1, s.ncores, q);
    assert s.n == q * s.ncores + s.n % s.ncores;
    assert s.n == (s.n / q) * q + s.n % q;
    if s.n / q < s.ncores {
      MulMonotone(s.n / q + 1, s.ncores, q);
    }
    MulMonotone(s.ncores, s.n / q, q);
  }

  /** The indices dealt to a core are ncores apart. */
  lemma NextDealt(s: Shares, coreid: nat, dealt: nat)
    requires s.Valid() && coreid < s.ncores
    requires s.n - s.Leftover() + coreid + dealt * s.ncores < s.n
    ensures var i := s.n - s.Leftover() + coreid + dealt * s.ncores;
            s.Dealt(coreid, i) && forall k: nat :: i < k < i + s.ncores ==> !s.Dealt(coreid, k)
  {
    hide s.Leftover;
    var first := s.n - s.Leftover() + coreid;
    var i := first + dealt * s.ncores;
    StepsApart(i - first, s.ncores, dealt);
    forall k: nat | i < k < i + s.ncores
      ensures !s.Dealt(coreid, k)
    {
      assert (k - first) % s.ncores != 0;
    }
  }

  lemma StepsApart(d: nat, n: nat, q: nat)
    requires n > 0 && d == q * n
    ensures d % n == 0 && forall e: int :: d < e < d + n ==> e % n != 0
  {
    DivModUnique(d, n, q, 0);
    forall e: int | d < e < d + n
      ensures e % n != 0
    {
      DivModUnique(e, n, q, e - d);
    }
  }

  /** No index is written by two cores. */
  lemma WrittenOnce(s: Shares, t: nat, u: nat, i: nat)
    requires s.Valid() && t < s.ncores && u < s.ncores && s.Writes(t, i) && s.Writes(u, i)
    ensures t == u && !(s.InChunk(t, i) && s.Dealt(t, i))
  {
    ChunkPositive(s);
    ChunksFit(s, t);
    ChunksFit(s, u);
    var q, base := s.Chunk(), s.n - s.Leftover();
    if s.InChunk(t, i) {
      DivModUnique(i, q, t, i - t * q);
      DivModUnique(i, q, u, i - u * q);
    } else {
      SameDeal(s.ncores, i - base, t);
      SameDeal(s.ncores, i - base, u);
    }
  }

  /** What is dealt to core t is t modulo the number of cores. */
  lemma SameDeal(ncores: nat, d: nat, t: nat)
    requires t < ncores && t <= d
    ensures (d - t) % ncores == 0 <==> d % ncores == t
  {
    if (d - t) % ncores == 0 {
      DivModUnique(d, ncores, (d - t) / ncores, t);
    }
    if d % ncores == t {
      DivModUnique(d - t, ncores, d / ncores, 0);
    }
  }

  /** Which core writes an index: a chunk's own core, or, behind the chunks, the cores in turn. */
  lemma WriterIs(n: nat, ncores: nat, t: nat, i: nat)
    requires 0 < ncores <= n && t < ncores && i < n
    ensures var q := n / ncores;
            && q > 0
            && (Shares(n, ncores).Writes(t, i) <==>
                (i < ncores * q && t == i / q) || (n - n % q <= i && t == (i - (n - n % q)) % ncores))
  {
    var s := Shares(n, ncores);
    ChunkPositive(s);
    ChunkIs(n / ncores, ncores, t, i);
    var d := i - (n - s.Leftover());
    if d >= t {
      SameDeal(ncores, d, t);
    } else if d >= 0 {
      DivModUnique(d, ncores, 0, d);
    }
  }

  lemma ChunkIs(q: nat, ncores: nat, t: nat, i: nat)
    requires q > 0 && t < ncores
    ensures t * q <= i < (t + 1) * q <==> i < ncores * q && t == i / q
  {
    NextChunk(t, q);
    DivModFacts(i, q);
    MulMonotone(t + 1, ncores, q);
    if t * q <= i < (t + 1) * q {
      DivModUnique(i, q, t, i - t * q);
    }
  }

  /** Some core writes index i. */
  ghost predicate Covered(s: Shares, i: nat)
    requires s.Valid()
  {
    exists t: nat :: t < s.ncores && s.Writes(t, i)
  }

  /** The core whose chunk holds index i. */
  lemma ChunkOf(q: nat, n: nat, i: nat) returns (t: nat)
    requires i < n * q
    ensures t < n && t * q <= i < (t + 1) * q
  {
    assert q > 0;
    t := i / q;
    DivModFacts(i, q);
    NextChunk(t, q);
    if t >= n {
      MulMonotone(n, t, q);
    }
  }

  lemma DivModFacts(i: nat, q: nat)
    requires q > 0
    ensures i / q * q <= i < i / q * q + q
  {
  }

  /** The core that index i is dealt to. */
  lemma DealtTo(s: Shares, i: nat) returns (t: nat)
    requires s.Valid() && s.n - s.Leftover() <= i < s.n
    ensures t < s.ncores && s.Dealt(t, i)
  {
    hide s.Leftover;
    var d := i - (s.n - s.Leftover());
    t := d % s.ncores;
    RemainderSmall(d, s.ncores);
    SameDeal(s.ncores, d, t);
  }

  lemma NotInChunks(q: nat, n: nat, i: nat, t: nat)
    requires t < n && n * q <= i
    ensures !(t * q <= i < (t + 1) * q)
  {
    MulMonotone(t + 1, n, q);
  }

  /** An index is written by some core unless it lies between the chunks and the leftover. */
  lemma CoveredUnlessGap(s: Shares, i: nat)
    requires s.Valid() && i < s.n
    ensures Covered(s, i) <==> WrittenByAny(s)(i)
  {
    hide s.Chunk, s.Leftover;
    if i < s.ncores * s.Chunk() {
      var t := ChunkOf(s.Chunk(), s.ncores, i);
      assert s.Writes(t, i);
    } else if s.n - s.Leftover() <= i {
      var t := DealtTo(s, i);
      assert s.Writes(t, i);
    } else {
      forall t: nat | t < s.ncores
        ensures !s.Writes(t, i)
      {
        NotInChunks(s.Chunk(), s.ncores, i, t);
      }
    }
  }

  /** What all cores write: all but a gap between the chunks and the leftover. */
  function WrittenByAny(s: Shares): nat -> bool
    requires s.Valid()
  {
    (i: nat) => i < s.ncores * s.Chunk() || s.n - s.Leftover() <= i
  }

  lemma RemainderSmall(d: nat, n: nat)
    requires n > 0
    ensures d % n <= d
  {
    var q := d / n;
    assert d == q * n + d % n;
    MulMonotone(0, q, n);
  }

  /** Every index is written, and by exactly one core, if and only if the remainder is smaller than the chunk. */
  lemma CoveredIff(s: Shares)
    requires s.Valid()
    ensures (forall i: nat :: i < s.n ==> Covered(s, i)) <==> s.n % s.ncores < s.n / s.ncores
  {
    hide Covered;
    ChunkPositive(s);
    ChunksFit(s, 0);
    LeftoverOf(s);
    var q, r := s.Chunk(), s.n % s.ncores;
    assert s.n == s.ncores * q + r;
    if r < q {
      DivModUnique(r, q, 0, r);
      forall i: nat | i < s.n
        ensures Covered(s, i)
      {
        CoveredUnlessGap(s, i);
      }
    } else {
      CoveredUnlessGap(s, s.ncores * q);
      RemainderBelow(r, q);
      assert !Covered(s, s.ncores * q);
    }
  }

  lemma RemainderBelow(r: nat, q: nat)
    requires q > 0
    ensures r % q < q
  {
  }

  lemma LeftoverOf(s: Shares)
    requires s.Valid()
    ensures s.Leftover() == (s.n % s.ncores) % s.Chunk()
  {
    ChunkPositive(s);
    var q, r := s.Chunk(), s.n % s.ncores;
    var p := r / q;
    assert r == p * q + r % q;
    assert s.n == q * s.ncores + r;
    assert q * s.ncores + p * q == (s.ncores + p) * q;
    DivModUnique(s.n, q, s.ncores + p, r % q);
  }

  // ---------------------------------------------------------------------
  // All cores
  // ---------------------------------------------------------------------

  /** Whatever the interleaving of the cores' stores, the elements that some core stores are summed. */
  lemma EveryInterleaving(x: seq<int>, y: seq<int>, z: seq<int>, programs: seq<seq<Access>>, written: seq<nat -> bool>,
                          any: nat -> bool, schedule: seq<nat>)
    requires |x| == |y| == |z| && |programs| == |written|
    requires forall t: nat :: t < |programs| ==> Recorded(x, y, programs[t], written[t])
    requires forall i: nat :: i < |z| ==> (any(i) <==> exists t: nat :: t < |written| && written[t](i))
    ensures Inside(programs, |z|)
    ensures Done(programs, After(programs, z, schedule)) ==> IsSum(x, y, z, After(programs, z, schedule).memory, any)
  {
    hide After, Done, Touches;
    var v := Sum(x, y);
    forall t: nat, a | t < |programs| && a in programs[t]
      ensures a.at < |z|
    {
      assert Recorded(x, y, programs[t], written[t]);
    }
    if Done(programs, After(programs, z, schedule)) {
      forall u: nat | u < |programs|
        ensures Puts(programs[u], v)
      {
        assert Recorded(x, y, programs[u], written[u]);
      }
      PutsArrive(programs, z, v, schedule);
      forall i: nat | i < |z|
        ensures any(i) <==> exists t: nat :: t < |programs| && Touches(programs[t], i)
      {
        SomeCore(x, y, programs, written, i);
      }
    }
  }

  lemma SomeCore(x: seq<int>, y: seq<int>, programs: seq<seq<Access>>, written: seq<nat -> bool>, i: nat)
    requires |programs| == |written| && i < |x|
    requires forall t: nat :: t < |programs| ==> Recorded(x, y, programs[t], written[t])
    ensures (exists t: nat :: t < |written| && written[t](i)) <==>
            (exists t: nat :: t < |programs| && Touches(programs[t], i))
  {
    hide Touches, Puts;
    if t: nat :| t < |written| && written[t](i) {
      assert Recorded(x, y, programs[t], written[t]) && Touches(programs[t], i);
    }
    if t: nat :| t < |programs| && Touches(programs[t], i) {
      assert Recorded(x, y, programs[t], written[t]) && written[t](i);
    }
  }

  /** All cores, one after the other in any order or with their stores interleaved in any way: the whole sum if and only
      if the remainder is smaller than the chunk; otherwise the elements in the gap keep their old values. */
  method AllCores0(order: seq<nat>, s: Shares, x: seq<int>, y: seq<int>, z: array<int>)
    returns (ghost programs: seq<seq<Access>>)
    requires s.Valid() && |x| == |y| == z.Length == s.n
    requires forall t :: t in order <==> t < s.ncores
    requires forall i, j :: 0 <= i < j < |order| ==> order[i] != order[j]
    modifies z
    ensures IsSum(x, y, old(z[..]), z[..], WrittenByAny(s))
    ensures |programs| == s.ncores && Inside(programs, |old(z[..])|)
    ensures forall schedule :: Done(programs, After(programs, old(z[..]), schedule)) ==>
              IsSum(x, y, old(z[..]), After(programs, old(z[..]), schedule).memory, WrittenByAny(s))
    ensures (forall i: nat :: i < s.n ==> WrittenByAny(s)(i)) <==> s.n % s.ncores < s.n / s.ncores
  {
    hide IsSum, Recorded, WrittenBy, WrittenByAll, WrittenByAny, Inside, Done, After;
    ghost var z0 := z[..];
    programs := seq(s.ncores, _ => []);
    assert order[..0] == [];
    NoneWritten(s, x, y, z0);
    for k := 0 to |order|
      invariant IsSum(x, y, z0, z[..], WrittenByAll(s, order[..k]))
      invariant |programs| == s.ncores
      invariant forall t: nat :: t < s.ncores && t in order[..k] ==> Recorded(x, y, programs[t], WrittenBy(s, t))
    {
      ghost var before := z[..];
      assert order[k] in order && order[k] !in order[..k];
      ghost var p := Vvadd0(order[k], s, x, y, z);
      programs := programs[order[k] := p];
      MoreWritten(s, x, y, z0, before, z[..], order[..k], order[k]);
      assert order[..k + 1] == order[..k] + [order[k]];
    }
    assert order[..|order|] == order;
    EveryCore(s, x, y, z0, z[..], order);
    EveryInterleaving(x, y, z0, programs, WrittenEach(s), WrittenByAny(s), []);
    forall schedule
      ensures Done(programs, After(programs, z0, schedule)) ==>
                IsSum(x, y, z0, After(programs, z0, schedule).memory, WrittenByAny(s))
    {
      EveryInterleaving(x, y, z0, programs, WrittenEach(s), WrittenByAny(s), schedule);
    }
  }

  /** What each core writes. */
  function WrittenEach(s: Shares): (w: seq<nat -> bool>)
    requires s.Valid()
    ensures |w| == s.ncores && forall t: nat :: t < s.ncores ==> w[t] == WrittenBy(s, t)
  {
    seq(s.ncores, (t: nat) => WrittenBy(s, t))
  }

  function WrittenByAll(s: Shares, cores: seq<nat>): nat -> bool
    requires s.Valid()
  {
    (i: nat) => exists t :: t in cores && s.Writes(t, i)
  }

  lemma NoneWritten(s: Shares, x: seq<int>, y: seq<int>, z: seq<int>)
    requires s.Valid() && |x| == |y| == |z|
    ensures IsSum(x, y, z, z, WrittenByAll(s, []))
  {
  }

  lemma MoreWritten(s: Shares, x: seq<int>, y: seq<int>, z0: seq<int>, z: seq<int>, z': seq<int>, cores: seq<nat>,
                    u: nat)
    requires s.Valid() && IsSum(x, y, z0, z, WrittenByAll(s, cores)) && IsSum(x, y, z, z', WrittenBy(s, u))
    ensures IsSum(x, y, z0, z', WrittenByAll(s, cores + [u]))
  {
    hide s.Writes;
    forall i: nat | i < |z|
      ensures WrittenByAll(s, cores + [u])(i) <==> WrittenByAll(s, cores)(i) || s.Writes(u, i)
    {
      if WrittenByAll(s, cores)(i) {
        var t :| t in cores && s.Writes(t, i);
        assert t in cores + [u];
      }
      if s.Writes(u, i) {
        assert u in cores + [u];
      }
    }
  }

  lemma EveryCore(s: Shares, x: seq<int>, y: seq<int>, z: seq<int>, z': seq<int>, order: seq<nat>)
    requires s.Valid() && |z| == s.n && (forall t :: t in order <==> t < s.ncores)
    requires IsSum(x, y, z, z', WrittenByAll(s, order))
    ensures IsSum(x, y, z, z', WrittenByAny(s))
    ensures forall i: nat :: i < s.n ==> (WrittenByAny(s)(i) <==> exists t: nat :: t < s.ncores && WrittenEach(s)[t](i))
    ensures (forall i: nat :: i < s.n ==> WrittenByAny(s)(i)) <==> s.n % s.ncores < s.n / s.ncores
  {
    hide s.Writes, s.Chunk, s.Leftover, WrittenByAny;
    forall i: nat | i < s.n
      ensures WrittenByAll(s, order)(i) <==> Covered(s, i)
      ensures Covered(s, i) <==> WrittenByAny(s)(i)
      ensures Covered(s, i) <==> exists t: nat :: t < s.ncores && WrittenEach(s)[t](i)
    {
      CoveredUnlessGap(s, i);
      if Covered(s, i) {
        var t: nat :| t < s.ncores && s.Writes(t, i);
        assert t in order && WrittenEach(s)[t](i);
      }
    }
    CoveredIff(s);
  }

  // ---------------------------------------------------------------------
  // vvadd3
  // ---------------------------------------------------------------------

  /** One more than the largest size_t. */
  const WORD: nat := 0x1_0000_0000_0000_0000

  /** The rounds that are left when the counter is c: it is decremented before it is tested, and wraps. */
  function Rounds(c: nat): nat {
    if c == 0 then WORD else c
  }

  /** The elements that Duff's device stores for a count. */
  function Stored(count: nat): nat {
    if count == 0 then 8 * WORD else count
  }

  /** Only with fewer elements than cores does a core store more than its share. */
  lemma StoresItsShare(ncores: nat, n: nat)
    requires ncores > 0
    ensures Stored(n / ncores) == n / ncores <==> ncores <= n
  {
    DivModFacts(n, ncores);
    if n < ncores {
      DivModUnique(n, ncores, 0, n);
    }
  }

  /** Duff's device: the switch enters the first round of the unrolled loop so that a whole number of rounds
      remains. Exactly count consecutive elements are written, for every count from 1 on. */
  method Vvadd3(coreid: nat, ncores: nat, n: nat, x: seq<int>, y: seq<int>, z: array<int>)
    returns (ghost p: seq<Access>)
    requires coreid < ncores && n < WORD - 7 && |x| == |y| == z.Length
    requires coreid * (n / ncores) + Stored(n / ncores) <= z.Length
    modifies z
    ensures var start := coreid * (n / ncores); var end := start + Stored(n / ncores);
            IsSum(x, y, old(z[..]), z[..], Between(start, end)) && Recorded(x, y, p, Between(start, end))
  {
    hide IsSum, Recorded, Between;
    var count := n / ncores;
    var start := coreid * count;
    ghost var z0 := z[..];
    p := [];
    NothingWritten(x, y, z0, start);
    var at := start; // to, from1 and from2 advance together
    var c: nat := Add7(count) / 8;
    var entry := if count % 8 == 0 then 0 else 8 - count % 8; // the statements the switch jumps over
    var again := true;
    FirstRounds(n, ncores);
    while again
      invariant again ==> c < WORD && at + 8 * Rounds(c) - entry == start + Stored(count) && entry < 8
      invariant !again ==> at == start + Stored(count)
      invariant start <= at && Sums(x, y, z0, z[..], p, Between(start, at))
      decreases if again then Rounds(c) else 0
    {
      ghost var round := at;
      for k := entry to 8
        invariant at == round + k - entry && Sums(x, y, z0, z[..], p, Between(start, at))
      {
        ghost var before := z[..];
        ChunkStep(x, y, z0, before, p, start, at);
        z[at] := x[at] + y[at];
        p := p + [Put(at, x[at] + y[at])];
        assert z[..] == before[at := x[at] + y[at]];
        at := at + 1;
      }
      entry := 0;
      c := Decremented(c);
      again := c > 0;
    }
  }

  function Add7(count: nat): nat {
    (count + 7) % WORD
  }

  /** --c. */
  function Decremented(c: nat): (r: nat)
    requires c < WORD
    ensures r < WORD && r + 1 == Rounds(c)
  {
    (c + WORD - 1) % WORD
  }

  lemma FirstRounds(n: nat, ncores: nat)
    requires ncores > 0 && n < WORD - 7
    ensures var count := n / ncores; var c := Add7(count) / 8;
            c < WORD && 8 * Rounds(c) - (if count % 8 == 0 then 0 else 8 - count % 8) == Stored(count)
  {
    QuotientSmall(n, ncores);
    RoundsOf(n / ncores);
  }

  lemma RoundsOf(count: nat)
    requires count < WORD - 7
    ensures var c := Add7(count) / 8;
            c < WORD && 8 * Rounds(c) - (if count % 8 == 0 then 0 else 8 - count % 8) == Stored(count)
  {
    DivModUnique(count + 7, WORD, 0, count + 7);
  }

  lemma QuotientSmall(n: nat, d: nat)
    requires d > 0
    ensures n / d <= n
  {
    DivModFacts(n, d);
    MulMonotone(1, d, n / d);
  }

  lemma NextChunk(coreid: nat, q: nat)
    ensures (coreid + 1) * q == coreid * q + q
  {
  }

  /** Index i is in the t-th chunk of q elements. */
  predicate InChunkNo(q: nat, t: nat, i: nat) {
    t * q <= i < t * q + q
  }

  /** An index in the chunk of some core. */
  ghost predicate InSomeChunk(ncores: nat, q: nat, i: nat) {
    exists t: nat :: t < ncores && InChunkNo(q, t, i)
  }

  lemma InSomeChunkIff(ncores: nat, q: nat, i: nat)
    ensures InSomeChunk(ncores, q, i) <==> i < ncores * q
  {
    hide InChunkNo;
    if i < ncores * q {
      var t := ChunkOf(q, ncores, i);
      ChunkNo(q, t, i);
    } else {
      forall t: nat | t < ncores
        ensures !InChunkNo(q, t, i)
      {
        ChunkNo(q, t, i);
        NotInChunks(q, ncores, i, t);
      }
    }
  }

  lemma ChunkNo(q: nat, t: nat, i: nat)
    ensures InChunkNo(q, t, i) <==> t * q <= i < (t + 1) * q
  {
    NextChunk(t, q);
  }

  lemma ChunksAndRest(ncores: nat, n: nat)
    requires 0 < ncores
    ensures n == ncores * (n / ncores) + n % ncores
  {
  }

  /** The chunks of vvadd3 cover the vector if and only if the cores divide its length. */
  lemma ChunksCoverIff(ncores: nat, n: nat)
    requires 0 < ncores <= n
    ensures (forall i: nat :: i < n ==> InSomeChunk(ncores, n / ncores, i)) <==> n % ncores == 0
  {
    hide InSomeChunk;
    ChunksAndRest(ncores, n);
    if n % ncores == 0 {
      forall i: nat | i < n
        ensures InSomeChunk(ncores, n / ncores, i)
      {
        InSomeChunkIff(ncores, n / ncores, i);
      }
    } else {
      InSomeChunkIff(ncores, n / ncores, ncores * (n / ncores));
    }
  }

  /** What each core of vvadd3 writes. */
  function Chunks(ncores: nat, q: nat): (w: seq<nat -> bool>)
    ensures |w| == ncores && forall t: nat :: t < ncores ==> w[t] == Between(t * q, t * q + q)
  {
    seq(ncores, (t: nat) => Between(t * q, t * q + q))
  }

  lemma SomeChunk(ncores: nat, q: nat, i: nat)
    ensures Between(0, ncores * q)(i) <==> exists t: nat :: t < ncores && Chunks(ncores, q)[t](i)
  {
    hide Chunks;
    InSomeChunkIff(ncores, q, i);
    if t: nat :| t < ncores && InChunkNo(q, t, i) {
      assert Chunks(ncores, q)[t](i);
    }
    if t: nat :| t < ncores && Chunks(ncores, q)[t](i) {
      assert InChunkNo(q, t, i);
    }
  }

  /** All cores of vvadd3, with their stores interleaved in any way: their chunks are summed, and nothing else changes.
      */
  lemma AllCores3(ncores: nat, n: nat, x: seq<int>, y: seq<int>, z: seq<int>, programs: seq<seq<Access>>,
                  schedule: seq<nat>)
    requires 0 < ncores <= n == |x| == |y| == |z| && |programs| == ncores
    requires forall t: nat :: t < ncores ==>
               Recorded(x, y, programs[t], Between(t * (n / ncores), t * (n / ncores) + Stored(n / ncores)))
    ensures Inside(programs, n)
    ensures Done(programs, After(programs, z, schedule)) ==>
              IsSum(x, y, z, After(programs, z, schedule).memory, Between(0, ncores * (n / ncores)))
  {
    hide Recorded, IsSum, Inside, After, Done, Between, Chunks, Stored;
    StoresItsShare(ncores, n);
    var q := n / ncores;
    forall i: nat | i < n
      ensures Between(0, ncores * q)(i) <==> exists t: nat :: t < ncores && Chunks(ncores, q)[t](i)
    {
      SomeChunk(ncores, q, i);
    }
    EveryInterleaving(x, y, z, programs, Chunks(ncores, q), Between(0, ncores * q), schedule);
  }
}
