// multicore.c: any number of harts take a spin lock in turn, check that the shared buffer is the
// alphabet rotated and in one case, and write it anew. One access to shared memory is one step,
// and the steps of the harts interleave freely (sequential consistency).

module SpinLock {

  const SIZE: nat := 32 // sizeof(buf)
  const WORD: nat := 0x1_0000_0000 // unsigned arithmetic wraps here
  const UPPER: nat := 65 // 'A'
  const LOWER: nat := 97 // 'a'

  /** Where a hart stands in the loop of main. */
  datatype Place =
    | Locking                          // get_lock
    | Testing                          // buf_initialized to be read
    | Filling(i: nat)                  // buf[i] of the first alphabet to be written
    | Marking                          // buf_initialized to be set
    | Starting                         // buf[0] to be read
    | Checking(i: nat, first: nat)     // buf[i] to be compared
    | Writing(i: nat, first: nat)      // buf[i] to be written
    | Unlocking                        // put_lock
    | Counting                         // hart_count to be incremented

  datatype Hart = Hart(place: Place, count: nat)

  datatype State = State(lock: nat, buf: seq<nat>, initialized: bool, harts: seq<Hart>)

  function Init(n: nat, buf: seq<nat>): State {
    State(0, buf, false, seq(n, _ => Hart(Locking, 0)))
  }

  /** first & ~0x20, less 'A'. */
  function Offset(first: nat): int {
    (if first / 32 % 2 == 1 then first - 32 else first) - UPPER
  }

  /** (offset + i) % 26 in unsigned arithmetic. */
  function Expected(first: nat, i: nat): int {
    first - Offset(first) + (Offset(first) + i) % WORD % 26
  }

  /** What hart t writes at i: its case by its parity, its letter by a sum that wraps around. */
  function Letter(t: nat, count: nat, i: nat): nat {
    (if t % 2 == 1 then UPPER else LOWER) + (i + t + count) % WORD % 26
  }

  function Next(s: State, t: nat, place: Place): State
    requires t < |s.harts|
  {
    s.(harts := s.harts[t := s.harts[t].(place := place)])
  }

  /** One step of hart t. */
  function Step(s: State, t: nat): State
    requires t < |s.harts| && |s.buf| == SIZE
  {
    var me := s.harts[t];
    match me.place
    case Locking => Next(s, t, if s.lock == 1 then Locking else Testing).(lock := 1)
    case Testing => Next(s, t, if s.initialized then Starting else Filling(0))
    case Filling(i) =>
      if i < SIZE then Next(s, t, Filling(i + 1)).(buf := s.buf[i := UPPER + i % 26]) else Next(s, t, Marking)
    case Marking => Next(s, t, Starting).(initialized := true)
    case Starting => Next(s, t, Checking(0, s.buf[0]))
    case Checking(i, first) =>
      if i >= SIZE then Next(s, t, Unlocking)
      else if s.buf[i] != Expected(first, i) then s
      else Next(s, t, Writing(i, first))
    case Writing(i, first) =>
      if i < SIZE then Next(s, t, Checking(i + 1, first)).(buf := s.buf[i := Letter(t, me.count, i)])
      else Next(s, t, Unlocking)
    case Unlocking => Next(s, t, Counting).(lock := 0)
    case Counting => s.(harts := s.harts[t := Hart(Locking, (me.count + 1) % WORD)])
  }

  predicate WellFormed(s: State) {
    |s.buf| == SIZE
  }

  ghost predicate Schedule(s: State, schedule: seq<nat>) {
    forall t :: t in schedule ==> t < |s.harts|
  }

  ghost function Run(s: State, schedule: seq<nat>): (r: State)
    requires WellFormed(s) && Schedule(s, schedule)
    ensures WellFormed(r) && |r.harts| == |s.harts|
    decreases |schedule|
  {
    if schedule == [] then s else
      assert schedule[0] in schedule;
      assert forall t :: t in schedule[1..] ==> t in schedule;
      Run(Step(s, schedule[0]), schedule[1..])
  }

  // ---------------------------------------------------------------------
  // The invariant
  // ---------------------------------------------------------------------

  predicate Inside(place: Place) {
    !place.Locking? && !place.Counting?
  }

  /** A letter of the alphabet in one case. */
  predicate IsLetter(c: nat) {
    UPPER <= c < UPPER + 26 || LOWER <= c < LOWER + 26
  }

  /** The buffer is a rotated alphabet in a single case, as its first letter tells. */
  ghost predicate Rotated(buf: seq<nat>) {
    |buf| == SIZE && IsLetter(buf[0]) && forall k :: 0 <= k < SIZE ==> buf[k] == Expected(buf[0], k)
  }

  /** Hart t's letters do not run across the wrap-around of its sum. */
  predicate Steady(t: nat, count: nat) {
    (t + count) % WORD + SIZE <= WORD
  }

  /** If hart t is about to begin its check, it is steady. */
  predicate StartsSteady(s: State, t: nat)
    requires t < |s.harts|
  {
    s.harts[t].place.Starting? ==> Steady(t, s.harts[t].count)
  }

  /** What the hart in the critical section may rely on. */
  ghost predicate Holds(s: State, t: nat)
    requires t < |s.harts| && |s.buf| == SIZE
  {
    var me := s.harts[t];
    match me.place
    case Testing => s.initialized ==> Rotated(s.buf)
    case Filling(i) => i <= SIZE && !s.initialized && forall k :: 0 <= k < i ==> s.buf[k] == UPPER + k % 26
    case Marking => Rotated(s.buf)
    case Starting => s.initialized && Rotated(s.buf)
    case Checking(i, first) => s.initialized && Halfway(s.buf, i, first, t, me.count)
    case Writing(i, first) => s.initialized && i < SIZE && Halfway(s.buf, i, first, t, me.count)
    case Unlocking => s.initialized && Rotated(s.buf)
    case _ => false
  }

  /** Up to i the hart's own letters, from i on the ones it found. */
  ghost predicate Halfway(buf: seq<nat>, i: nat, first: nat, t: nat, count: nat)
    requires |buf| == SIZE
  {
    && i <= SIZE && IsLetter(first) && Steady(t, count)
    && (forall k :: 0 <= k < i ==> buf[k] == Letter(t, count, k))
    && (forall k :: i <= k < SIZE ==> buf[k] == Expected(first, k))
  }

  ghost predicate Inv(s: State) {
    && |s.buf| == SIZE
    && (forall t, u :: 0 <= t < |s.harts| && 0 <= u < |s.harts| && Inside(s.harts[t].place) && Inside(s.harts[u].place)
          ==> t == u)
    && (s.lock == 1 <==> exists t :: 0 <= t < |s.harts| && Inside(s.harts[t].place))
    && (s.lock != 1 && s.initialized ==> Rotated(s.buf))
    && (forall t :: 0 <= t < |s.harts| && Inside(s.harts[t].place) ==> Holds(s, t))
  }

  // ---------------------------------------------------------------------
  // Letters
  // ---------------------------------------------------------------------

  lemma ExpectedOf(first: nat, i: nat)
    requires IsLetter(first) && i < SIZE
    ensures 0 <= Offset(first) < 26
    ensures Expected(first, i) == (if first >= LOWER then LOWER else UPPER) + (Offset(first) + i) % 26
    ensures first == (if first >= LOWER then LOWER else UPPER) + Offset(first)
  {
  }

  /** Letters that do not wrap make a rotated alphabet. */
  lemma SteadyLetters(t: nat, count: nat, k: nat)
    requires Steady(t, count) && k < SIZE
    ensures IsLetter(Letter(t, count, 0))
    ensures Letter(t, count, k) == Expected(Letter(t, count, 0), k)
  {
    hide Expected, Offset;
    var b := (t + count) % WORD;
    SumWraps(t + count, k);
    SumWraps(t + count, 0);
    ExpectedOf(Letter(t, count, 0), k);
    assert Offset(Letter(t, count, 0)) == b % 26;
    SumModLetters(b, k);
  }

  lemma SumModLetters(b: nat, k: nat)
    ensures (b + k) % 26 == (b % 26 + k) % 26
  {
  }

  lemma SumWraps(sum: nat, k: nat)
    requires k < SIZE
    ensures (k + sum) % WORD == if sum % WORD + k < WORD then sum % WORD + k else sum % WORD + k - WORD
  {
  }

  lemma FirstAlphabet(buf: seq<nat>)
    requires |buf| == SIZE && forall k :: 0 <= k < SIZE ==> buf[k] == UPPER + k % 26
    ensures Rotated(buf)
  {
    forall k | 0 <= k < SIZE
      ensures buf[k] == Expected(buf[0], k)
    {
      ExpectedOf(buf[0], k);
    }
  }

  lemma OwnAlphabet(buf: seq<nat>, t: nat, count: nat)
    requires |buf| == SIZE && Steady(t, count)
    requires forall k :: 0 <= k < SIZE ==> buf[k] == Letter(t, count, k)
    ensures Rotated(buf)
  {
    forall k | 0 <= k < SIZE
      ensures buf[k] == Expected(buf[0], k) && IsLetter(buf[0])
    {
      SteadyLetters(t, count, k);
    }
  }

  /** A hart whose letters run across the wrap-around leaves a buffer that is no rotated alphabet: at the wrap the
      next letter would be W (4294967296 is 22 modulo 26), and it writes A. */
  lemma RotatedIffSteady(buf: seq<nat>, t: nat, count: nat)
    requires |buf| == SIZE && forall k :: 0 <= k < SIZE ==> buf[k] == Letter(t, count, k)
    ensures Rotated(buf) <==> Steady(t, count)
  {
    if Steady(t, count) {
      OwnAlphabet(buf, t, count);
    } else {
      var b := (t + count) % WORD;
      var k := WORD - b;
      SumWraps(t + count, k);
      SumWraps(t + count, 0);
      ExpectedOf(buf[0], k);
      assert (b % 26 + k) % 26 == WORD % 26 == 22;
      assert buf[k] != Expected(buf[0], k);
    }
  }

  // ---------------------------------------------------------------------
  // Every step keeps the invariant
  // ---------------------------------------------------------------------

  lemma InitInv(n: nat, buf: seq<nat>)
    requires |buf| == SIZE
    ensures Inv(Init(n, buf))
  {
  }

  /** One hart at a time in the critical section, and the lock says whether there is one. */
  ghost predicate Exclusive(s: State) {
    && |s.buf| == SIZE
    && (forall t, u :: 0 <= t < |s.harts| && 0 <= u < |s.harts| && Inside(s.harts[t].place) && Inside(s.harts[u].place)
          ==> t == u)
    && (s.lock == 1 <==> exists t :: 0 <= t < |s.harts| && Inside(s.harts[t].place))
  }

  /** A step moves its own hart only: in, taking the lock; out, giving it back; or neither. */
  lemma StepInside(s: State, t: nat)
    requires |s.buf| == SIZE && t < |s.harts|
    ensures var s' := Step(s, t); var before, after := Inside(s.harts[t].place), Inside(s'.harts[t].place);
            && |s'.buf| == SIZE && |s'.harts| == |s.harts|
            && (forall u :: 0 <= u < |s.harts| && u != t ==> s'.harts[u] == s.harts[u])
            && if before == after then s'.lock == s.lock
               else if after then s.lock != 1 && s'.lock == 1
               else s'.lock == 0
  {
    hide Expected, Letter;
  }

  lemma StepKeepsExclusion(s: State, t: nat)
    requires Exclusive(s) && t < |s.harts|
    ensures Exclusive(Step(s, t))
  {
    hide Step, Inside;
    var s' := Step(s, t);
    StepInside(s, t);
    if s.lock == 1 {
      var v :| 0 <= v < |s.harts| && Inside(s.harts[v].place);
      assert v != t ==> Inside(s'.harts[v].place);
    }
  }

  /** Mutual exclusion, along every run of any length, whatever the counters. */
  lemma {:induction false} RunExcludes(s: State, schedule: seq<nat>)
    requires Exclusive(s) && Schedule(s, schedule)
    ensures Exclusive(Run(s, schedule))
    decreases |schedule|
  {
    if schedule != [] {
      hide Exclusive;
      assert schedule[0] in schedule;
      assert forall t :: t in schedule[1..] ==> t in schedule;
      assert Exclusive(Step(s, schedule[0])) by {
        StepKeepsExclusion(s, schedule[0]);
      }
      WellFormedStep(s, schedule[0]);
      RunExcludes(Step(s, schedule[0]), schedule[1..]);
    }
  }

  /** What a hart may rely on after its own step inside the critical section. */
  lemma OwnStepHolds(s: State, t: nat)
    requires |s.buf| == SIZE && t < |s.harts| && Inside(s.harts[t].place) && Holds(s, t) && StartsSteady(s, t)
    ensures var s' := Step(s, t);
            if s.harts[t].place.Unlocking? then s'.initialized && Rotated(s'.buf) else Holds(s', t)
  {
    hide Expected, Letter, Steady, IsLetter;
    var me, s' := s.harts[t], Step(s, t);
    match me.place
    case Filling(i) =>
      if i == SIZE {
        FirstAlphabet(s.buf);
      }
    case Checking(i, first) =>
      if i == SIZE {
        OwnAlphabet(s.buf, t, me.count);
      }
    case _ =>
  }

  lemma StepKeepsInv(s: State, t: nat)
    requires Inv(s) && t < |s.harts| && StartsSteady(s, t)
    ensures Inv(Step(s, t))
  {
    hide Expected, Letter, Steady, Rotated, Halfway, StartsSteady;
    var me, s' := s.harts[t], Step(s, t);
    if Inside(me.place) {
      OwnStepHolds(s, t);
      assert forall u :: 0 <= u < |s.harts| && u != t ==> s'.harts[u] == s.harts[u] && !Inside(s.harts[u].place);
      assert s.lock == 1;
      if !me.place.Unlocking? {
        assert Inside(s'.harts[t].place);
        assert s'.lock == 1;
      }
    } else if me.place.Counting? || s.lock == 1 {
      OtherStepKeeps(s, s', t);
    } else {
      assert forall u :: 0 <= u < |s.harts| && u != t ==> s'.harts[u] == s.harts[u] && !Inside(s.harts[u].place);
      assert Inside(s'.harts[t].place);
    }
  }

  /** A hart that stays outside leaves the others as they were. */
  lemma OtherStepKeeps(s: State, s': State, t: nat)
    requires Inv(s) && t < |s.harts| == |s'.harts| && !Inside(s.harts[t].place) && !Inside(s'.harts[t].place)
    requires s'.lock == s.lock && s'.buf == s.buf && s'.initialized == s.initialized
    requires forall u :: 0 <= u < |s.harts| && u != t ==> s'.harts[u] == s.harts[u]
    ensures Inv(s')
  {
    hide Expected, Letter, Steady, Rotated, Halfway;
    if s.lock == 1 {
      var u :| 0 <= u < |s.harts| && Inside(s.harts[u].place);
      assert Inside(s'.harts[u].place);
    }
    forall u | 0 <= u < |s.harts| && Inside(s'.harts[u].place)
      ensures Holds(s', u)
    {
      assert Holds(s, u);
    }
  }

  /** Every hart that begins its check in the run has letters that do not run across the wrap-around. */
  ghost predicate SteadyRun(s: State, schedule: seq<nat>)
    requires WellFormed(s) && Schedule(s, schedule)
    decreases |schedule|
  {
    schedule == [] || (
      assert schedule[0] in schedule;
      assert forall t :: t in schedule[1..] ==> t in schedule;
      StartsSteady(s, schedule[0]) && SteadyRun(Step(s, schedule[0]), schedule[1..]))
  }

  lemma {:induction false} RunKeepsInv(s: State, schedule: seq<nat>)
    requires Inv(s) && Schedule(s, schedule) && SteadyRun(s, schedule)
    ensures Inv(Run(s, schedule))
    decreases |schedule|
  {
    if schedule != [] {
      hide Inv, StartsSteady;
      assert schedule[0] in schedule;
      assert forall t :: t in schedule[1..] ==> t in schedule;
      assert Inv(Step(s, schedule[0])) by {
        StepKeepsInv(s, schedule[0]);
      }
      WellFormedStep(s, schedule[0]);
      RunKeepsInv(Step(s, schedule[0]), schedule[1..]);
    }
  }

  lemma WellFormedStep(s: State, t: nat)
    requires WellFormed(s) && t < |s.harts|
    ensures WellFormed(Step(s, t)) && |Step(s, t).harts| == |s.harts|
  {
  }

  // ---------------------------------------------------------------------
  // What follows for whole runs
  // ---------------------------------------------------------------------

  /** Hart t compares a letter that differs: it will compare it again. */
  ghost predicate Spins(s: State, t: nat) {
    && t < |s.harts| && |s.buf| == SIZE && s.harts[t].place.Checking? && s.harts[t].place.i < SIZE
    && s.buf[s.harts[t].place.i] != Expected(s.harts[t].place.first, s.harts[t].place.i)
  }

  lemma CheckPasses(s: State, t: nat)
    requires Inv(s)
    ensures !Spins(s, t)
  {
    hide Rotated, Expected, Letter, Steady, IsLetter;
    if t < |s.harts| && Inside(s.harts[t].place) {
      assert Holds(s, t);
    }
  }

  /** One hart at a time between get_lock and put_lock, a rotated alphabet whenever the lock is free, and no check that
      fails. */
  lemma MulticoreSafety(n: nat, buf: seq<nat>, schedule: seq<nat>)
    requires |buf| == SIZE && Schedule(Init(n, buf), schedule) && SteadyRun(Init(n, buf), schedule)
    ensures var s := Run(Init(n, buf), schedule);
            && (forall t, u :: 0 <= t < n && 0 <= u < n && Inside(s.harts[t].place) && Inside(s.harts[u].place) ==>
                t == u)
            && (s.lock != 1 && s.initialized ==> Rotated(s.buf))
            && (forall t: nat :: !Spins(s, t))
  {
    hide Rotated, Expected, Letter, Steady, IsLetter;
    InitInv(n, buf);
    RunKeepsInv(Init(n, buf), schedule);
    var s := Run(Init(n, buf), schedule);
    forall t: nat
      ensures !Spins(s, t)
    {
      CheckPasses(s, t);
    }
  }

  /** Runs too short for a sum to wrap around are steady. */
  lemma {:induction false} ShortRunsAreSteady(s: State, schedule: seq<nat>)
    requires WellFormed(s) && Schedule(s, schedule)
    requires forall t :: 0 <= t < |s.harts| ==> t + s.harts[t].count + |schedule| + SIZE <= WORD
    ensures SteadyRun(s, schedule)
    decreases |schedule|
  {
    if schedule != [] {
      var t := schedule[0];
      assert t in schedule;
      var s' := Step(s, t);
      assert forall u :: u in schedule[1..] ==> u in schedule;
      WellFormedStep(s, t);
      forall u | 0 <= u < |s'.harts|
        ensures u + s'.harts[u].count + |schedule[1..]| + SIZE <= WORD
      {
        CountsByOne(s, t, u);
      }
      ShortRunsAreSteady(s', schedule[1..]);
    }
  }

  lemma CountsByOne(s: State, t: nat, u: nat)
    requires WellFormed(s) && t < |s.harts| && u < |s.harts|
    ensures Step(s, t).harts[u].count <= s.harts[u].count + 1
  {
  }

  /** Some hart can always go on. */
  lemma SomeHartMoves(s: State) returns (t: nat)
    requires Inv(s) && |s.harts| > 0
    ensures t < |s.harts| && Step(s, t) != s
  {
    hide Rotated, Expected, Letter, Steady;
    if s.lock == 1 {
      t :| 0 <= t < |s.harts| && Inside(s.harts[t].place);
      assert Holds(s, t);
      assert Step(s, t).harts[t].place != s.harts[t].place;
    } else {
      t := 0;
      assert !Inside(s.harts[0].place);
      assert Step(s, 0).harts[0] != s.harts[0];
    }
  }

  // ---------------------------------------------------------------------
  // One pass of a hart, whatever its counter
  // ---------------------------------------------------------------------

  /** Hart t is alone in the critical section. */
  ghost predicate Alone(s: State, t: nat) {
    && WellFormed(s) && t < |s.harts| && s.lock == 1 && Inside(s.harts[t].place)
    && forall u :: 0 <= u < |s.harts| && u != t ==> !Inside(s.harts[u].place)
  }

  /** The lock is free and hart t about to take it. */
  ghost predicate Free(s: State, t: nat) {
    && WellFormed(s) && t < |s.harts| && s.lock != 1 && s.initialized && s.harts[t].place.Locking?
    && forall u :: 0 <= u < |s.harts| ==> !Inside(s.harts[u].place)
  }

  /** The letters of buf are those of hart t below i, and those the check expects from i on. */
  ghost predicate Split(buf: seq<nat>, t: nat, count: nat, first: nat, i: nat) {
    && |buf| == SIZE && i <= SIZE
    && (forall k :: 0 <= k < i ==> buf[k] == Letter(t, count, k))
    && (forall k :: i <= k < SIZE ==> buf[k] == Expected(first, k))
  }

  /** Hart t is between the beginning of its check and put_lock, and no letter it has to compare differs. */
  ghost predicate Passing(s: State, t: nat, count: nat) {
    && Alone(s, t) && s.initialized && s.harts[t].count == count
    && match s.harts[t].place
       case Starting => Split(s.buf, t, count, s.buf[0], 0)
       case Checking(i, first) => Split(s.buf, t, count, first, i)
       case Writing(i, first) => i < SIZE && Split(s.buf, t, count, first, i)
       case Unlocking => Split(s.buf, t, count, 0, SIZE)
       case _ => false
  }

  /** No step but the hart's own put_lock ends its pass. */
  lemma PassGoesOn(s: State, t: nat, count: nat, u: nat)
    requires Passing(s, t, count) && u < |s.harts| && !(u == t && s.harts[t].place.Unlocking?)
    ensures Passing(Step(s, u), t, count)
  {
    hide Expected, Letter;
  }

  /** The pass of a hart leaves a rotated alphabet if and only if its letters do not run across the wrap-around. */
  lemma PassLeaves(s: State, t: nat, count: nat)
    requires Passing(s, t, count) && s.harts[t].place.Unlocking?
    ensures Rotated(Step(s, t).buf) <==> Steady(t, count)
    ensures IsLetter(Step(s, t).buf[0]) && !Inside(Step(s, t).harts[t].place) && Step(s, t).lock != 1
  {
    RotatedIffSteady(s.buf, t, count);
    LetterIsLetter(t, count, 0);
  }

  /** The letters it leaves: capitals of an odd hart, small letters of an even one, from the sum of the hart's number
      and its count on, modulo 26 after the wrap-around. */
  lemma PassWrites(s: State, t: nat, count: nat, k: nat)
    requires Passing(s, t, count) && s.harts[t].place.Unlocking? && k < 32
    ensures Step(s, t).buf[k] == (if t % 2 == 1 then 'A' as int else 'a' as int) + (t + count + k) % 4294967296 % 26
  {
    hide Expected;
    assert s.buf[k] == Letter(t, count, k);
  }

  /** The buffer as it is first filled. */
  lemma FirstFill(s: State, t: nat, k: nat)
    requires Inv(s) && t < |s.harts| && s.harts[t].place == Filling(32) && k < 32
    ensures Step(s, t).harts[t].place.Marking? && Step(s, t).buf[k] == 'A' as int + k % 26
  {
    hide Expected, Letter;
  }

  /** A rotated alphabet: thirty-two letters of one case, each the one after the letter before it, A after Z. */
  lemma RotatedMeans(buf: seq<nat>)
    requires |buf| == 32 && IsLetter(buf[0])
    ensures 'A' as int <= buf[0] <= 'Z' as int || 'a' as int <= buf[0] <= 'z' as int
    ensures var first := if buf[0] <= 'Z' as int then 'A' as int else 'a' as int;
            Rotated(buf) <==> forall k :: 0 <= k < 32 ==> buf[k] == first + (buf[0] - first + k) % 26
  {
    hide Expected, Offset;
    forall k | 0 <= k < 32
      ensures Expected(buf[0], k) ==
              var first := if buf[0] <= 'Z' as int then 'A' as int else 'a' as int; first + (buf[0] - first + k) % 26
    {
      ExpectedOf(buf[0], k);
    }
  }

  lemma LetterIsLetter(t: nat, count: nat, k: nat)
    ensures IsLetter(Letter(t, count, k))
  {
  }

  lemma {:induction false} RunOneMore(s: State, schedule: seq<nat>, t: nat)
    requires WellFormed(s) && Schedule(s, schedule) && t < |s.harts|
    ensures Schedule(s, schedule + [t]) && Run(s, schedule + [t]) == Step(Run(s, schedule), t)
    ensures SteadyRun(s, schedule) && StartsSteady(Run(s, schedule), t) ==> SteadyRun(s, schedule + [t])
    decreases |schedule|
  {
    hide StartsSteady;
    var longer := schedule + [t];
    if schedule == [] {
      assert longer[1..] == [];
    } else {
      assert longer[0] == schedule[0] && longer[1..] == schedule[1..] + [t];
      assert schedule[0] in schedule;
      assert forall u :: u in schedule[1..] ==> u in schedule;
      WellFormedStep(s, schedule[0]);
      RunOneMore(Step(s, schedule[0]), schedule[1..], t);
    }
  }

  /** One run after another. */
  lemma {:induction false} RunBoth(s: State, a: seq<nat>, b: seq<nat>)
    requires WellFormed(s) && Schedule(s, a) && Schedule(Run(s, a), b)
    ensures Schedule(s, a + b) && Run(s, a + b) == Run(Run(s, a), b)
    decreases |a|
  {
    if a == [] {
      assert a + b == b;
    } else {
      assert (a + b)[0] == a[0] && (a + b)[1..] == a[1..] + b;
      assert a[0] in a;
      assert forall u :: u in a[1..] ==> u in a;
      WellFormedStep(s, a[0]);
      RunBoth(Step(s, a[0]), a[1..], b);
    }
  }

  /** Only hart t has moved. */
  ghost predicate OthersStand(s: State, r: State, t: nat) {
    |r.harts| == |s.harts| && forall u :: 0 <= u < |s.harts| && u != t ==> r.harts[u] == s.harts[u]
  }

  /** While the letters are as expected, hart t comes to compare letter i. */
  lemma {:induction false} ComesToCheck(s: State, t: nat, i: nat) returns (schedule: seq<nat>)
    requires Alone(s, t) && s.initialized && s.harts[t].place.Starting? && i <= SIZE
    requires forall k :: 0 <= k < i ==> s.buf[k] == Expected(s.buf[0], k)
    ensures Schedule(s, schedule) && (Steady(t, s.harts[t].count) ==> SteadyRun(s, schedule))
    ensures var r := Run(s, schedule);
            && Alone(r, t) && r.initialized && OthersStand(s, r, t)
            && r.harts[t] == Hart(Checking(i, s.buf[0]), s.harts[t].count) && r.buf[i..] == s.buf[i..]
            && forall k :: 0 <= k < i ==> r.buf[k] == Letter(t, s.harts[t].count, k)
    decreases i
  {
    hide Expected, Letter, Steady;
    if i == 0 {
      RunOneMore(s, [], t);
      schedule := [] + [t];
    } else {
      schedule := ComesToCheck(s, t, i - 1);
      var r := Run(s, schedule);
      assert r.buf[i - 1..][0] == s.buf[i - 1..][0];
      assert r.buf[i - 1..][1..] == s.buf[i - 1..][1..];
      RunOneMore(s, schedule, t);
      RunOneMore(s, schedule + [t], t);
      schedule := schedule + [t] + [t];
    }
  }

  /** A hart that has the lock and finds all letters as expected completes its pass. */
  lemma PassCompletes(s: State, t: nat) returns (schedule: seq<nat>)
    requires Alone(s, t) && s.initialized && s.harts[t].place.Starting?
    requires forall k :: 0 <= k < SIZE ==> s.buf[k] == Expected(s.buf[0], k)
    ensures Schedule(s, schedule) && (Steady(t, s.harts[t].count) ==> SteadyRun(s, schedule))
    ensures var r, count := Run(s, schedule), s.harts[t].count;
            && Free(r, t) && OthersStand(s, r, t) && r.harts[t].count == (count + 1) % WORD
            && IsLetter(r.buf[0]) && (Rotated(r.buf) <==> Steady(t, count))
  {
    hide Expected, Letter, Steady, IsLetter, Rotated;
    schedule := ComesToCheck(s, t, SIZE);
    var r := Run(s, schedule);
    RotatedIffSteady(r.buf, t, s.harts[t].count);
    LetterIsLetter(t, s.harts[t].count, 0);
    RunOneMore(s, schedule, t);
    RunOneMore(s, schedule + [t], t);
    RunOneMore(s, schedule + [t] + [t], t);
    schedule := schedule + [t] + [t] + [t];
  }

  /** From a free lock and a rotated alphabet to the same, one count later: still rotated if and only if the sum of
      that pass did not wrap around. */
  lemma NextPass(s: State, t: nat) returns (schedule: seq<nat>)
    requires Free(s, t) && Rotated(s.buf)
    ensures Schedule(s, schedule) && (Steady(t, s.harts[t].count) ==> SteadyRun(s, schedule))
    ensures var r, count := Run(s, schedule), s.harts[t].count;
            && Free(r, t) && OthersStand(s, r, t) && r.harts[t].count == (count + 1) % WORD
            && IsLetter(r.buf[0]) && (Rotated(r.buf) <==> Steady(t, count))
  {
    var r: State;
    schedule, r := TakesLock(s, t);
    var more := PassCompletes(r, t);
    RunBoth(s, schedule, more);
    SteadyBoth(s, schedule, more);
    schedule := schedule + more;
  }

  /** Hart t takes a free lock and comes to its check. */
  lemma TakesLock(s: State, t: nat) returns (schedule: seq<nat>, r: State)
    requires Free(s, t)
    ensures Schedule(s, schedule) && SteadyRun(s, schedule) && r == Run(s, schedule)
    ensures Alone(r, t) && r.initialized && OthersStand(s, r, t) && r.buf == s.buf
    ensures r.harts[t] == Hart(Starting, s.harts[t].count)
  {
    RunOneMore(s, [], t);
    RunOneMore(s, [] + [t], t);
    schedule := [] + [t] + [t];
    r := Run(s, schedule);
  }

  lemma {:induction false} SteadyBoth(s: State, a: seq<nat>, b: seq<nat>)
    requires WellFormed(s) && Schedule(s, a) && Schedule(Run(s, a), b) && SteadyRun(s, a)
    ensures Schedule(s, a + b) && (SteadyRun(Run(s, a), b) ==> SteadyRun(s, a + b))
    decreases |a|
  {
    hide StartsSteady;
    RunBoth(s, a, b);
    if a == [] {
      assert a + b == b;
    } else {
      assert (a + b)[0] == a[0] && (a + b)[1..] == a[1..] + b;
      assert a[0] in a;
      assert forall u :: u in a[1..] ==> u in a;
      WellFormedStep(s, a[0]);
      SteadyBoth(Step(s, a[0]), a[1..], b);
    }
  }

  // ---------------------------------------------------------------------
  // A buffer that is no rotated alphabet stops all harts
  // ---------------------------------------------------------------------

  /** A hart that spins once spins for ever, and no other hart gets the lock. */
  lemma {:induction false} SpinsForEver(s: State, t: nat, schedule: seq<nat>)
    requires Alone(s, t) && Spins(s, t) && Schedule(s, schedule)
    ensures Alone(Run(s, schedule), t) && Spins(Run(s, schedule), t)
    decreases |schedule|
  {
    if schedule != [] {
      hide Expected, Letter;
      var u := schedule[0];
      assert u in schedule;
      var s' := Step(s, u);
      assert forall v :: v in schedule[1..] ==> v in schedule;
      WellFormedStep(s, u);
      assert s'.harts[t] == s.harts[t] && s'.buf == s.buf && s'.lock == 1;
      SpinsForEver(s', t, schedule[1..]);
    }
  }

  lemma FirstMismatch(buf: seq<nat>) returns (i: nat)
    requires |buf| == SIZE && IsLetter(buf[0]) && !Rotated(buf)
    ensures i < SIZE && buf[i] != Expected(buf[0], i)
    ensures forall k :: 0 <= k < i ==> buf[k] == Expected(buf[0], k)
  {
    hide Expected;
    i := 0;
    while i < SIZE && buf[i] == Expected(buf[0], i)
      invariant i <= SIZE && forall k :: 0 <= k < i ==> buf[k] == Expected(buf[0], k)
    {
      i := i + 1;
    }
  }

  ghost predicate CanSpin(s: State, t: nat, schedule: seq<nat>)
    requires WellFormed(s)
  {
    Schedule(s, schedule) && SteadyRun(s, schedule) && Spins(Run(s, schedule), t)
  }

  /** Taking a free lock over such a buffer leads to a check that never passes. */
  lemma ReachesSpin(s: State, t: nat) returns (schedule: seq<nat>)
    requires Free(s, t) && IsLetter(s.buf[0]) && !Rotated(s.buf)
    ensures Schedule(s, schedule) && (Steady(t, s.harts[t].count) ==> SteadyRun(s, schedule))
    ensures Alone(Run(s, schedule), t) && Spins(Run(s, schedule), t)
  {
    hide Expected, Letter, Steady, Rotated;
    var i := FirstMismatch(s.buf);
    var r: State;
    schedule, r := TakesLock(s, t);
    var more := ComesToCheck(r, t, i);
    assert Run(r, more).buf[i..][0] == r.buf[i..][0];
    RunBoth(s, schedule, more);
    SteadyBoth(s, schedule, more);
    schedule := schedule + more;
  }

  /** From a free lock and a steady hart about to take it: some steady run leaves the hart at a check that never passes
      if and only if the buffer is no rotated alphabet. */
  lemma SpinsIffNotRotated(s: State, t: nat)
    requires Free(s, t) && IsLetter(s.buf[0]) && Steady(t, s.harts[t].count)
    ensures (exists schedule :: CanSpin(s, t, schedule)) <==> !Rotated(s.buf)
  {
    hide Expected, Letter, Rotated, Steady;
    if Rotated(s.buf) {
      assert Inv(s);
      forall schedule
        ensures !CanSpin(s, t, schedule)
      {
        if CanSpin(s, t, schedule) {
          RunKeepsInv(s, schedule);
          CheckPasses(Run(s, schedule), t);
          assert false;
        }
      }
    } else {
      var schedule := ReachesSpin(s, t);
      assert CanSpin(s, t, schedule);
    }
  }

  // ---------------------------------------------------------------------
  // The wrap-around is reached, and stops all harts
  // ---------------------------------------------------------------------

  /** Where a hart in the critical section can be when letter i differs from what the letters found before it demand. */
  predicate Before(place: Place, i: nat, first: nat) {
    match place
    case Testing => true
    case Starting => true
    case Checking(k, f) => k <= i && f == first
    case Writing(k, f) => k < i && f == first
    case _ => false
  }

  /** How far a hart has rewritten the buffer. */
  function Reached(place: Place): nat {
    match place
    case Checking(k, _) => k
    case Writing(k, _) => k
    case _ => 0
  }

  /** The buffer differs from every rotated alphabet at letter i: a hart that has the lock has not got past it, and
      nobody is anywhere else in the critical section. */
  ghost predicate Stopped(s: State, bad: seq<nat>, i: nat) {
    && |bad| == SIZE == |s.buf| && 0 < i < SIZE && s.initialized && bad[i] != Expected(bad[0], i)
    && (forall t, u :: 0 <= t < |s.harts| && 0 <= u < |s.harts| && Inside(s.harts[t].place) && Inside(s.harts[u].place)
          ==> t == u)
    && (s.lock == 1 <==> exists t :: 0 <= t < |s.harts| && Inside(s.harts[t].place))
    && (s.lock != 1 ==> s.buf == bad)
    && (forall t :: 0 <= t < |s.harts| && Inside(s.harts[t].place) ==>
          && Before(s.harts[t].place, i, bad[0])
          && forall k :: Reached(s.harts[t].place) <= k < SIZE ==> s.buf[k] == bad[k])
  }

  lemma StepStaysStopped(s: State, bad: seq<nat>, i: nat, t: nat)
    requires Stopped(s, bad, i) && t < |s.harts|
    ensures Stopped(Step(s, t), bad, i)
  {
    hide Expected, Letter;
    var me, s' := s.harts[t], Step(s, t);
    assert forall u :: 0 <= u < |s.harts| && u != t ==> s'.harts[u] == s.harts[u];
    if s.lock == 1 {
      var v :| 0 <= v < |s.harts| && Inside(s.harts[v].place);
      assert Inside(s'.harts[v].place);
    } else {
      assert me.place.Locking? ==> Inside(s'.harts[t].place);
    }
  }

  /** Once stopped, no hart comes to put_lock any more, along any run. */
  lemma {:induction false} StoppedForEver(s: State, bad: seq<nat>, i: nat, schedule: seq<nat>)
    requires Stopped(s, bad, i) && Schedule(s, schedule)
    ensures Stopped(Run(s, schedule), bad, i)
    ensures forall t :: 0 <= t < |s.harts| ==> !Run(s, schedule).harts[t].place.Unlocking?
    decreases |schedule|
  {
    if schedule == [] {
      assert forall t :: 0 <= t < |s.harts| && s.harts[t].place.Unlocking? ==> Inside(s.harts[t].place);
    } else {
      hide Stopped;
      assert schedule[0] in schedule;
      assert forall t :: t in schedule[1..] ==> t in schedule;
      StepStaysStopped(s, bad, i, schedule[0]);
      WellFormedStep(s, schedule[0]);
      StoppedForEver(Step(s, schedule[0]), bad, i, schedule[1..]);
    }
  }

  /** A free lock over such a buffer is the end of progress. */
  lemma StoppedNow(s: State, t: nat) returns (i: nat)
    requires Free(s, t) && IsLetter(s.buf[0]) && !Rotated(s.buf)
    ensures Stopped(s, s.buf, i)
  {
    hide Expected;
    i := FirstMismatch(s.buf);
    FirstExpected(s.buf[0]);
  }

  lemma FirstExpected(first: nat)
    requires IsLetter(first)
    ensures Expected(first, 0) == first
  {
    ExpectedOf(first, 0);
  }

  /** The first pass: hart 0 makes the first alphabet and writes its own. */
  lemma FirstPass(n: nat, buf: seq<nat>) returns (schedule: seq<nat>)
    requires n > 0 && |buf| == SIZE
    ensures Schedule(Init(n, buf), schedule) && SteadyRun(Init(n, buf), schedule)
    ensures var r := Run(Init(n, buf), schedule); Free(r, 0) && r.harts[0].count == 1 && Rotated(r.buf)
  {
    hide Expected, Letter, Steady, IsLetter;
    var s := Init(n, buf);
    schedule := Fills(n, buf, SIZE);
    FirstAlphabet(Run(s, schedule).buf);
    RunOneMore(s, schedule, 0);
    RunOneMore(s, schedule + [0], 0);
    schedule := schedule + [0] + [0];
    var r := Run(s, schedule);
    var more := PassCompletes(r, 0);
    SteadyAtFirst();
    RunBoth(s, schedule, more);
    SteadyBoth(s, schedule, more);
    schedule := schedule + more;
  }

  lemma SteadyAtFirst()
    ensures Steady(0, 0)
  {
  }

  lemma {:induction false} Fills(n: nat, buf: seq<nat>, i: nat) returns (schedule: seq<nat>)
    requires n > 0 && |buf| == SIZE && i <= SIZE
    ensures Schedule(Init(n, buf), schedule) && SteadyRun(Init(n, buf), schedule)
    ensures var r := Run(Init(n, buf), schedule);
            && Alone(r, 0) && r.harts[0] == Hart(Filling(i), 0) && forall k :: 0 <= k < i ==> r.buf[k] == UPPER + k % 26
    decreases i
  {
    var s := Init(n, buf);
    if i == 0 {
      RunOneMore(s, [], 0);
      RunOneMore(s, [] + [0], 0);
      schedule := [] + [0] + [0];
    } else {
      schedule := Fills(n, buf, i - 1);
      RunOneMore(s, schedule, 0);
      schedule := schedule + [0];
    }
  }

  /** The first count at which hart 0's letters run across the wrap-around. */
  const WRAPS: nat := WORD - SIZE + 1

  /** Hart 0 alone comes to every count up to that one, with a rotated alphabet. */
  lemma {:induction false} CountsUpTo(n: nat, buf: seq<nat>, count: nat) returns (schedule: seq<nat>)
    requires n > 0 && |buf| == SIZE && 1 <= count <= WRAPS
    ensures Schedule(Init(n, buf), schedule) && SteadyRun(Init(n, buf), schedule)
    ensures var r := Run(Init(n, buf), schedule); Free(r, 0) && r.harts[0].count == count && Rotated(r.buf)
    decreases count
  {
    hide Rotated;
    if count == 1 {
      schedule := FirstPass(n, buf);
    } else {
      schedule := CountsUpTo(n, buf, count - 1);
      var s := Init(n, buf);
      var r := Run(s, schedule);
      var more := NextPass(r, 0);
      assert Steady(0, count - 1);
      RunBoth(s, schedule, more);
      SteadyBoth(s, schedule, more);
      schedule := schedule + more;
    }
  }

  /** From every initial state of one or more harts a run leads to the wrap-around: hart 0 completes a pass that is not
      steady, and after it no hart ever comes to put_lock again, along any continuation. */
  lemma WrapStopsAllHarts(n: nat, buf: seq<nat>) returns (schedule: seq<nat>, i: nat)
    requires n > 0 && |buf| == SIZE
    ensures Schedule(Init(n, buf), schedule)
    ensures var r := Run(Init(n, buf), schedule);
            Free(r, 0) && IsLetter(r.buf[0]) && !Rotated(r.buf) && Stopped(r, r.buf, i)
    ensures var r := Run(Init(n, buf), schedule);
            forall more, t :: Schedule(r, more) && 0 <= t < n ==> !Run(r, more).harts[t].place.Unlocking?
  {
    hide Rotated, Stopped, IsLetter;
    schedule := CountsUpTo(n, buf, WRAPS);
    var s := Init(n, buf);
    var more := NextPass(Run(s, schedule), 0);
    assert !Steady(0, WRAPS);
    RunBoth(s, schedule, more);
    schedule := schedule + more;
    var r := Run(s, schedule);
    i := StoppedNow(r, 0);
    forall later | Schedule(r, later)
      ensures forall t :: 0 <= t < n ==> !Run(r, later).harts[t].place.Unlocking?
    {
      StoppedForEver(r, r.buf, i, later);
    }
  }

  /** And from there any hart at get_lock can be led to a check that it repeats for ever. */
  lemma NextHartSpins(s: State, u: nat) returns (schedule: seq<nat>)
    requires Free(s, u) && IsLetter(s.buf[0]) && !Rotated(s.buf)
    ensures Schedule(s, schedule)
    ensures forall more :: Schedule(s, more) ==>
              Schedule(Run(s, schedule), more) && Spins(Run(Run(s, schedule), more), u)
  {
    hide Rotated, IsLetter, Expected;
    schedule := ReachesSpin(s, u);
    forall more | Schedule(s, more)
      ensures Schedule(Run(s, schedule), more) && Spins(Run(Run(s, schedule), more), u)
    {
      SpinsForEver(Run(s, schedule), u, more);
    }
  }

  /** An unsteady hart is in its pass, or it was the last to complete one. */
  ghost predicate Doomed(s: State) {
    (exists t, count :: Passing(s, t, count) && !Steady(t, count)) || (exists bad, i :: Stopped(s, bad, i))
  }

  lemma StepStaysDoomed(s: State, u: nat)
    requires Doomed(s) && u < |s.harts|
    ensures Doomed(Step(s, u))
  {
    hide Passing, Stopped, Steady, Rotated, IsLetter;
    if bad, i :| Stopped(s, bad, i) {
      StepStaysStopped(s, bad, i, u);
    } else {
      var t, count :| Passing(s, t, count) && !Steady(t, count);
      if UnlocksNow(s, t, u) {
        var i := PassStops(s, t, count);
      } else {
        PassGoesOn(s, t, count, u);
      }
    }
  }

  predicate UnlocksNow(s: State, t: nat, u: nat) {
    t < |s.harts| && u == t && s.harts[t].place.Unlocking?
  }

  lemma PassStops(s: State, t: nat, count: nat) returns (i: nat)
    requires Passing(s, t, count) && s.harts[t].place.Unlocking? && !Steady(t, count)
    ensures Stopped(Step(s, t), Step(s, t).buf, i)
  {
    hide Rotated, Steady, Expected, Letter, IsLetter;
    PassLeaves(s, t, count);
    var r := Step(s, t);
    i := FirstMismatch(r.buf);
    FirstExpected(r.buf[0]);
    assert forall u :: 0 <= u < |r.harts| ==> !Inside(r.harts[u].place);
  }

  /** What the beginning of a check decides: if the hart is steady everything the harts rely on is kept, and if it is
      not, then along every continuation at most its own pass is completed. */
  lemma StartDecides(s: State, t: nat, schedule: seq<nat>)
    requires Inv(s) && t < |s.harts| && s.harts[t].place.Starting? && Schedule(s, schedule)
    ensures Steady(t, s.harts[t].count) ==> Inv(Step(s, t))
    ensures !Steady(t, s.harts[t].count) ==> Doomed(Run(s, schedule))
  {
    hide Rotated, Steady, Expected, Letter;
    if Steady(t, s.harts[t].count) {
      StepKeepsInv(s, t);
    } else {
      assert Holds(s, t);
      StartsPassing(s, t);
      RunStaysDoomed(s, schedule);
    }
  }

  lemma StartsPassing(s: State, t: nat)
    requires Inv(s) && t < |s.harts| && s.harts[t].place.Starting?
    ensures Passing(s, t, s.harts[t].count)
  {
    hide Expected, Letter, IsLetter, Steady;
    assert Inside(s.harts[t].place) && Holds(s, t);
  }

  lemma {:induction false} RunStaysDoomed(s: State, schedule: seq<nat>)
    requires WellFormed(s) && Doomed(s) && Schedule(s, schedule)
    ensures Doomed(Run(s, schedule))
    decreases |schedule|
  {
    if schedule != [] {
      hide Doomed;
      assert schedule[0] in schedule;
      assert forall u :: u in schedule[1..] ==> u in schedule;
      StepStaysDoomed(s, schedule[0]);
      WellFormedStep(s, schedule[0]);
      RunStaysDoomed(Step(s, schedule[0]), schedule[1..]);
    }
  }
}
