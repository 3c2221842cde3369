// Cores that share an array without waiting for each other: each makes its accesses in its own
// order, and the accesses of all cores are interleaved in any way whatever.

module Interleaving {

  /** An access of a core to the shared array. */
  datatype Access =
    | Load(at: nat)              // into a register of its own
    | Store(at: nat, term: int)  // of what it loaded from there last, plus a term
    | Put(at: nat, value: int)   // of a value that does not depend on the array

  /** The array, what each core has loaded, and how many of its accesses each core has made. */
  datatype State = State(memory: seq<int>, registers: seq<map<nat, int>>, places: seq<nat>)

  /** Every access is inside the array. */
  ghost predicate Inside(programs: seq<seq<Access>>, n: nat) {
    forall t: nat, a :: t < |programs| && a in programs[t] ==> a.at < n
  }

  ghost predicate Sound(programs: seq<seq<Access>>, s: State) {
    && Inside(programs, |s.memory|) && |s.registers| == |s.places| == |programs|
    && forall t: nat :: t < |programs| ==> s.places[t] <= |programs[t]|
  }

  function Register(registers: map<nat, int>, at: nat): int {
    if at in registers then registers[at] else 0
  }

  function Loaded(registers: map<nat, int>, at: nat, value: int): map<nat, int> {
    registers[at := value]
  }

  /** Core t makes its next access, if it has one. */
  ghost function Step(programs: seq<seq<Access>>, s: State, t: nat): (s': State)
    requires Sound(programs, s)
    ensures Sound(programs, s') && |s'.memory| == |s.memory|
  {
    if t >= |programs| || s.places[t] == |programs[t]| then s
    else
      assert programs[t][s.places[t]] in programs[t];
      var places := s.places[t := s.places[t] + 1];
      match programs[t][s.places[t]]
      case Load(at) => State(s.memory, s.registers[t := Loaded(s.registers[t], at, s.memory[at])], places)
      case Store(at, term) => State(s.memory[at := Register(s.registers[t], at) + term], s.registers, places)
      case Put(at, value) => State(s.memory[at := value], s.registers, places)
  }

  ghost function Run(programs: seq<seq<Access>>, s: State, schedule: seq<nat>): (s': State)
    requires Sound(programs, s)
    ensures Sound(programs, s') && |s'.memory| == |s.memory|
    decreases |schedule|
  {
    if schedule == [] then s
    else Step(programs, Run(programs, s, schedule[..|schedule| - 1]), schedule[|schedule| - 1])
  }

  function Init(ncores: nat, x: seq<int>): State {
    State(x, seq(ncores, _ => map[]), seq(ncores, _ => 0))
  }

  /** All cores have made all their accesses. */
  ghost predicate Done(programs: seq<seq<Access>>, s: State) {
    |s.places| == |programs| && forall t: nat :: t < |programs| ==> s.places[t] == |programs[t]|
  }

  /** Where this interleaving of all cores ends. */
  ghost function After(programs: seq<seq<Access>>, x: seq<int>, schedule: seq<nat>): State
    requires Inside(programs, |x|)
  {
    Run(programs, Init(|programs|, x), schedule)
  }

  // ---------------------------------------------------------------------
  // Some interleaving completes
  // ---------------------------------------------------------------------

  ghost function Left(programs: seq<seq<Access>>, s: State, n: nat): nat
    requires Sound(programs, s) && n <= |programs|
  {
    if n == 0 then 0 else Left(programs, s, n - 1) + |programs[n - 1]| - s.places[n - 1]
  }

  lemma {:induction false} StepUsesOne(programs: seq<seq<Access>>, s: State, t: nat, n: nat)
    requires Sound(programs, s) && t < |programs| && s.places[t] < |programs[t]| && n <= |programs|
    ensures Left(programs, Step(programs, s, t), n) == Left(programs, s, n) - (if t < n then 1 else 0)
  {
    if n > 0 {
      StepUsesOne(programs, s, t, n - 1);
    }
  }

  lemma {:induction false} RunLonger(programs: seq<seq<Access>>, s: State, t: nat, rest: seq<nat>)
    requires Sound(programs, s)
    ensures Run(programs, s, [t] + rest) == Run(programs, Step(programs, s, t), rest)
    decreases |rest|
  {
    var whole := [t] + rest;
    if rest == [] {
      assert whole[..0] == [] && Run(programs, s, []) == s;
    } else {
      RunLonger(programs, s, t, rest[..|rest| - 1]);
      assert whole[..|whole| - 1] == [t] + rest[..|rest| - 1];
    }
  }

  /** From any state the cores can make all their accesses. */
  lemma {:induction false} CanFinish(programs: seq<seq<Access>>, s: State) returns (schedule: seq<nat>)
    requires Sound(programs, s)
    ensures Done(programs, Run(programs, s, schedule))
    decreases Left(programs, s, |programs|)
  {
    if t: nat :| t < |programs| && s.places[t] < |programs[t]| {
      StepUsesOne(programs, s, t, |programs|);
      var rest := CanFinish(programs, Step(programs, s, t));
      RunLonger(programs, s, t, rest);
      schedule := [t] + rest;
    } else {
      schedule := [];
    }
  }

  // ---------------------------------------------------------------------
  // Cores that add terms to elements of their own
  // ---------------------------------------------------------------------

  /** What the stores of a core add to an element. */
  function Total(p: seq<Access>, i: nat): int {
    if p == [] then 0
    else
      var last := p[|p| - 1];
      Total(p[..|p| - 1], i) + if last.Store? && last.at == i then last.term else 0
  }

  /** The last access to an element is a load. */
  predicate Fresh(p: seq<Access>, i: nat) {
    p != [] && if p[|p| - 1].at == i then p[|p| - 1].Load? else Fresh(p[..|p| - 1], i)
  }

  /** Every store follows a load of the same element, with no store of it in between. */
  predicate Disciplined(p: seq<Access>) {
    p == [] ||
    (var front, last := p[..|p| - 1], p[|p| - 1];
     Disciplined(front) && !last.Put? && (last.Store? ==> Fresh(front, last.at)))
  }

  ghost predicate Touches(p: seq<Access>, i: nat) {
    exists a :: a in p && a.at == i
  }

  /** No element is accessed by two cores. */
  ghost predicate Apart(programs: seq<seq<Access>>) {
    forall t: nat, u: nat, i: nat ::
      t < |programs| && u < |programs| && Touches(programs[t], i) && Touches(programs[u], i) ==>
      t == u
  }

  /** An element of core t is as its own accesses so far have left it. */
  ghost predicate OwnInv(p: seq<Access>, x: int, memory: int, registers: map<nat, int>, i: nat) {
    memory == x + Total(p, i) && (Fresh(p, i) ==> Register(registers, i) == memory)
  }

  ghost predicate AddInv(programs: seq<seq<Access>>, x: seq<int>, s: State) {
    && Sound(programs, s) && |s.memory| == |x|
    && (forall t: nat, i: nat :: t < |programs| && i < |x| && Touches(programs[t], i) ==>
          OwnInv(programs[t][..s.places[t]], x[i], s.memory[i], s.registers[t], i))
    && (forall i: nat :: i < |x| && (forall t: nat :: t < |programs| ==> !Touches(programs[t], i)) ==>
        s.memory[i] == x[i])
  }

  lemma StepKeepsAdd(programs: seq<seq<Access>>, x: seq<int>, s: State, t: nat)
    requires AddInv(programs, x, s) && Apart(programs)
    requires t < |programs| && s.places[t] < |programs[t]| && Disciplined(programs[t][..s.places[t] + 1])
    ensures AddInv(programs, x, Step(programs, s, t))
  {
    var s', k, p := Step(programs, s, t), s.places[t], programs[t];
    assert p[k] in p && p[..k + 1][..k] == p[..k];
    assert Touches(p, p[k].at);
    forall u: nat, i: nat | u < |programs| && i < |x| && Touches(programs[u], i)
      ensures OwnInv(programs[u][..s'.places[u]], x[i], s'.memory[i], s'.registers[u], i)
    {
      assert OwnInv(programs[u][..s.places[u]], x[i], s.memory[i], s.registers[u], i);
      if u != t {
        assert i != p[k].at;
      }
    }
  }

  lemma {:induction false} PrefixDisciplined(p: seq<Access>, k: nat)
    requires Disciplined(p) && k <= |p|
    ensures Disciplined(p[..k])
    decreases |p|
  {
    if k == |p| {
      assert p[..k] == p;
    } else {
      PrefixDisciplined(p[..|p| - 1], k);
      assert p[..|p| - 1][..k] == p[..k];
    }
  }

  lemma {:induction false} RunKeepsAdd(programs: seq<seq<Access>>, x: seq<int>, schedule: seq<nat>)
    requires Inside(programs, |x|) && Apart(programs)
    requires forall t: nat :: t < |programs| ==> Disciplined(programs[t])
    ensures AddInv(programs, x, After(programs, x, schedule))
    decreases |schedule|
  {
    hide Disciplined, Apart, AddInv, Step;
    if schedule == [] {
      AddStarts(programs, x);
    } else {
      var n := |schedule| - 1;
      RunKeepsAdd(programs, x, schedule[..n]);
      var s, t := After(programs, x, schedule[..n]), schedule[n];
      AddStep(programs, x, s, t);
    }
  }

  lemma AddStarts(programs: seq<seq<Access>>, x: seq<int>)
    requires Inside(programs, |x|)
    ensures AddInv(programs, x, Init(|programs|, x))
  {
  }

  lemma AddStep(programs: seq<seq<Access>>, x: seq<int>, s: State, t: nat)
    requires AddInv(programs, x, s) && Apart(programs)
    requires forall u: nat :: u < |programs| ==> Disciplined(programs[u])
    ensures AddInv(programs, x, Step(programs, s, t))
  {
    hide Disciplined, Apart;
    if t < |programs| && s.places[t] < |programs[t]| {
      PrefixDisciplined(programs[t], s.places[t] + 1);
      StepKeepsAdd(programs, x, s, t);
    }
  }

  /** Whatever the interleaving, in the end each element has gained what its core adds to it. */
  lemma SumsArrive(programs: seq<seq<Access>>, x: seq<int>, schedule: seq<nat>)
    requires Inside(programs, |x|) && Apart(programs)
    requires forall t: nat :: t < |programs| ==> Disciplined(programs[t])
    requires Done(programs, After(programs, x, schedule))
    ensures var y := After(programs, x, schedule).memory;
            |y| == |x|
            && (forall t: nat, i: nat :: t < |programs| && i < |x| && Touches(programs[t], i) ==>
                  y[i] == x[i] + Total(programs[t], i))
            && (forall i: nat :: i < |x| && (forall t: nat :: t < |programs| ==> !Touches(programs[t], i)) ==>
                y[i] == x[i])
  {
    hide Disciplined, Apart, Run;
    RunKeepsAdd(programs, x, schedule);
    var s := After(programs, x, schedule);
    forall t: nat, i: nat | t < |programs| && i < |x| && Touches(programs[t], i)
      ensures s.memory[i] == x[i] + Total(programs[t], i)
    {
      assert programs[t][..s.places[t]] == programs[t];
      assert OwnInv(programs[t][..s.places[t]], x[i], s.memory[i], s.registers[t], i);
    }
  }

  // ---------------------------------------------------------------------
  // Putting programs together
  // ---------------------------------------------------------------------

  lemma {:induction false} TotalOfBoth(p: seq<Access>, q: seq<Access>, i: nat)
    ensures Total(p + q, i) == Total(p, i) + Total(q, i)
    decreases |q|
  {
    if q == [] {
      assert p + q == p;
    } else {
      assert (p + q)[..|p + q| - 1] == p + q[..|q| - 1];
      TotalOfBoth(p, q[..|q| - 1], i);
    }
  }

  lemma {:induction false} FreshInBoth(p: seq<Access>, q: seq<Access>, i: nat)
    requires Fresh(q, i)
    ensures Fresh(p + q, i)
    decreases |q|
  {
    assert (p + q)[..|p + q| - 1] == p + q[..|q| - 1];
    if q[|q| - 1].at != i {
      FreshInBoth(p, q[..|q| - 1], i);
    }
  }

  lemma {:induction false} DisciplinedBoth(p: seq<Access>, q: seq<Access>)
    requires Disciplined(p) && Disciplined(q)
    ensures Disciplined(p + q)
    decreases |q|
  {
    if q == [] {
      assert p + q == p;
    } else {
      assert (p + q)[..|p + q| - 1] == p + q[..|q| - 1];
      DisciplinedBoth(p, q[..|q| - 1]);
      if q[|q| - 1].Store? {
        FreshInBoth(p, q[..|q| - 1], q[|q| - 1].at);
      }
    }
  }

  /** A program that turns x into y, each element gaining its total. */
  ghost predicate Turns(p: seq<Access>, x: seq<int>, y: seq<int>) {
    Disciplined(p) && |x| == |y| && forall i: nat :: i < |x| ==> y[i] == x[i] + Total(p, i)
  }

  lemma TurnsOn(p: seq<Access>, q: seq<Access>, x: seq<int>, y: seq<int>, z: seq<int>)
    requires Turns(p, x, y) && Turns(q, y, z)
    ensures Turns(p + q, x, z)
  {
    hide Disciplined, Total;
    DisciplinedBoth(p, q);
    forall i: nat | i < |x|
      ensures z[i] == x[i] + Total(p + q, i)
    {
      TotalOfBoth(p, q, i);
    }
  }

  lemma FreshNext(p: seq<Access>, a: Access, i: nat)
    ensures Fresh(p + [a], i) <==> if a.at == i then a.Load? else Fresh(p, i)
  {
    assert (p + [a])[..|p|] == p;
  }

  lemma TurnsLoad(p: seq<Access>, x: seq<int>, y: seq<int>, at: nat)
    requires Turns(p, x, y)
    ensures Turns(p + [Load(at)], x, y)
  {
    assert (p + [Load(at)])[..|p|] == p;
  }

  lemma TurnsStore(p: seq<Access>, x: seq<int>, y: seq<int>, at: nat, term: int)
    requires Turns(p, x, y) && at < |y| && Fresh(p, at)
    ensures Turns(p + [Store(at, term)], x, y[at := y[at] + term])
  {
    assert (p + [Store(at, term)])[..|p|] == p;
  }

  // ---------------------------------------------------------------------
  // Cores that put the same values
  // ---------------------------------------------------------------------

  /** Every access puts the value that the element is to have. */
  ghost predicate Puts(p: seq<Access>, v: seq<int>) {
    forall a :: a in p ==> a.Put? && a.at < |v| && a.value == v[a.at]
  }

  /** Some core has put element i. */
  ghost predicate PutBy(programs: seq<seq<Access>>, places: seq<nat>, i: nat)
    requires |places| == |programs|
  {
    exists t: nat, k: nat :: t < |programs| && k < places[t] && k < |programs[t]| && programs[t][k].at == i
  }

  ghost predicate PutInv(programs: seq<seq<Access>>, x: seq<int>, v: seq<int>, s: State) {
    && Sound(programs, s) && |s.memory| == |x| == |v|
    && forall i: nat :: i < |x| ==> s.memory[i] == if PutBy(programs, s.places, i) then v[i] else x[i]
  }

  lemma StepKeepsPut(programs: seq<seq<Access>>, x: seq<int>, v: seq<int>, s: State, t: nat)
    requires PutInv(programs, x, v, s) && forall u: nat :: u < |programs| ==> Puts(programs[u], v)
    ensures PutInv(programs, x, v, Step(programs, s, t))
  {
    if t < |programs| && s.places[t] < |programs[t]| {
      var s', k := Step(programs, s, t), s.places[t];
      var at := programs[t][k].at;
      assert programs[t][k] in programs[t];
      forall i: nat | i < |x|
        ensures PutBy(programs, s'.places, i) <==> PutBy(programs, s.places, i) || i == at
      {
        if PutBy(programs, s.places, i) {
          var u: nat, h: nat :| u < |programs| && h < s.places[u] && h < |programs[u]| && programs[u][h].at == i;
          assert h < s'.places[u];
        }
        if PutBy(programs, s'.places, i) {
          var u: nat, h: nat :| u < |programs| && h < s'.places[u] && h < |programs[u]| && programs[u][h].at == i;
          assert h < s.places[u] || (u == t && h == k);
        }
        assert k < s'.places[t];
      }
    }
  }

  lemma {:induction false} RunKeepsPut(programs: seq<seq<Access>>, x: seq<int>, v: seq<int>, schedule: seq<nat>)
    requires Inside(programs, |x|) && |v| == |x| && forall u: nat :: u < |programs| ==> Puts(programs[u], v)
    ensures PutInv(programs, x, v, After(programs, x, schedule))
    decreases |schedule|
  {
    hide Puts, Step, PutBy;
    if schedule == [] {
      NonePut(programs, Init(|programs|, x));
    } else {
      var n := |schedule| - 1;
      RunKeepsPut(programs, x, v, schedule[..n]);
      StepKeepsPut(programs, x, v, After(programs, x, schedule[..n]), schedule[n]);
    }
  }

  lemma NonePut(programs: seq<seq<Access>>, s: State)
    requires |s.places| == |programs| && forall t: nat :: t < |programs| ==> s.places[t] == 0
    ensures forall i: nat :: !PutBy(programs, s.places, i)
  {
  }

  /** Whatever the interleaving, in the end the elements put by any core have their value, and no other has changed. */
  lemma PutsArrive(programs: seq<seq<Access>>, x: seq<int>, v: seq<int>, schedule: seq<nat>)
    requires Inside(programs, |x|) && |v| == |x| && forall u: nat :: u < |programs| ==> Puts(programs[u], v)
    requires Done(programs, After(programs, x, schedule))
    ensures var y := After(programs, x, schedule).memory;
            |y| == |x| && forall i: nat :: i < |x| ==>
              y[i] == if exists t: nat :: t < |programs| && Touches(programs[t], i) then v[i] else x[i]
  {
    hide Puts, Run;
    RunKeepsPut(programs, x, v, schedule);
    var s := After(programs, x, schedule);
    forall i: nat
      ensures PutBy(programs, s.places, i) <==> exists t: nat :: t < |programs| && Touches(programs[t], i)
    {
      if PutBy(programs, s.places, i) {
        var t: nat, k: nat :| t < |programs| && k < s.places[t] && k < |programs[t]| && programs[t][k].at == i;
        assert programs[t][k] in programs[t] && Touches(programs[t], i);
      }
      if t: nat :| t < |programs| && Touches(programs[t], i) {
        var a :| a in programs[t] && a.at == i;
        var k: nat :| k < |programs[t]| && programs[t][k] == a;
        assert k < s.places[t];
      }
    }
  }
}
