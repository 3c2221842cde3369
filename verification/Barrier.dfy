// The sense-reversing barrier of util.h as a state machine: any number of
// threads, any number of rounds, one shared-memory access per step, in any
// interleaving (sequential consistency).

module Barrier {

  /** Where a thread stands in the text of barrier(). */
  datatype Place =
    | Outside   // not in the barrier
    | Arriving  // threadsense flipped, fetch-and-add to come
    | Resetting // last to arrive: count = 0 to come
    | Releasing // last to arrive: sense = threadsense to come
    | Spinning  // waiting for sense to become threadsense

  /** entered counts the barriers the thread has entered. */
  datatype Thread = Thread(place: Place, threadsense: bool, entered: nat) {
    /** Barriers the thread has left. */
    function Left(): int {
      if place == Outside then entered else entered - 1
    }
  }

  /** sense and count are the static variables; released counts the stores to sense and is not read by any step. */
  datatype State = State(sense: bool, count: int, threads: seq<Thread>, released: nat)

  function Init(n: nat): State {
    State(false, 0, seq(n, _ => Thread(Outside, false, 0)), 0)
  }

  /** One step of thread t. */
  function Step(s: State, t: nat): State
    requires t < |s.threads|
  {
    var me := s.threads[t];
    match me.place
    case Outside =>
      s.(threads := s.threads[t := Thread(Arriving, !me.threadsense, me.entered + 1)])
    case Arriving =>
      var last := s.count == |s.threads| - 1;
      s.(count := s.count + 1, threads := s.threads[t := me.(place := if last then Resetting else Spinning)])
    case Resetting =>
      s.(count := 0, threads := s.threads[t := me.(place := Releasing)])
    case Releasing =>
      s.(sense := me.threadsense, threads := s.threads[t := me.(place := Outside)], released := s.released + 1)
    case Spinning =>
      if s.sense != me.threadsense then s else s.(threads := s.threads[t := me.(place := Outside)])
  }

  /** Thread i has been counted in the round that is open. */
  predicate Counted(s: State, i: nat)
    requires i < |s.threads|
  {
    s.threads[i].entered == s.released + 1 && s.threads[i].place != Arriving
  }

  ghost function Arrived(s: State): set<nat> {
    set i | 0 <= i < |s.threads| && Counted(s, i)
  }

  function Odd(n: nat): bool {
    n % 2 == 1
  }

  /** What holds of one thread when the open round is round released + 1. */
  predicate ThreadOk(me: Thread, released: nat) {
    && me.threadsense == Odd(me.entered)
    && match me.place
       case Outside => me.entered == released
       case Spinning => me.entered == released || me.entered == released + 1
       case _ => me.entered == released + 1
  }

  /** Some thread is about to store to count or to sense. */
  predicate Closing(s: State) {
    exists i :: 0 <= i < |s.threads| && (s.threads[i].place.Resetting? || s.threads[i].place.Releasing?)
  }

  /** Some thread has reset count and not yet released the others. */
  predicate AboutToRelease(s: State) {
    exists i :: 0 <= i < |s.threads| && s.threads[i].place.Releasing?
  }

  /** All threads but i wait in the open round. */
  predicate OthersWait(s: State, i: nat) {
    forall j :: 0 <= j < |s.threads| && j != i ==>
      s.threads[j].place.Spinning? && s.threads[j].entered == s.released + 1
  }

  /** The invariant of the barrier. */
  ghost predicate Inv(s: State) {
    && |s.threads| > 0
    && s.sense == Odd(s.released)
    && (forall i :: 0 <= i < |s.threads| ==> ThreadOk(s.threads[i], s.released))
    && (forall i :: 0 <= i < |s.threads| && (s.threads[i].place.Resetting? || s.threads[i].place.Releasing?) ==>
          OthersWait(s, i))
    && s.count == (if AboutToRelease(s) then 0 else |Arrived(s)|)
    && (Closing(s) || |Arrived(s)| < |s.threads|)
  }

  function Run(s: State, schedule: seq<nat>): State
    requires forall t :: t in schedule ==> t < |s.threads|
    ensures |Run(s, schedule).threads| == |s.threads|
    decreases |schedule|
  {
    if schedule == [] then s else
      assert schedule[0] in schedule;
      assert forall t :: t in schedule[1..] ==> t in schedule;
      Run(Step(s, schedule[0]), schedule[1..])
  }

  // ---------------------------------------------------------------------
  // Counting arrivals
  // ---------------------------------------------------------------------

  /** The first n naturals. */
  ghost function Below(n: nat): (r: set<nat>)
    ensures |r| == n && forall i :: i in r <==> 0 <= i < n
  {
    if n == 0 then {} else Below(n - 1) + {n - 1}
  }

  /** All threads have arrived exactly when as many have as there are threads. */
  lemma AllArrived(s: State)
    ensures |Arrived(s)| <= |s.threads|
    ensures |Arrived(s)| == |s.threads| <==> forall i :: 0 <= i < |s.threads| ==> Counted(s, i)
  {
    var all := Below(|s.threads|);
    SubsetSize(Arrived(s), all);
    if forall i :: 0 <= i < |s.threads| ==> Counted(s, i) {
      assert Arrived(s) == all;
    } else {
      var i :| 0 <= i < |s.threads| && !Counted(s, i);
      assert i in all && i !in Arrived(s);
    }
  }

  lemma {:induction false} SubsetSize(a: set<nat>, b: set<nat>)
    requires a <= b
    ensures |a| <= |b| && (|a| == |b| <==> a == b)
  {
    assert b == a + (b - a) && a !! (b - a);
  }

  // ---------------------------------------------------------------------
  // The invariant holds in every reachable state
  // ---------------------------------------------------------------------

  lemma InitInv(n: nat)
    requires n > 0
    ensures Inv(Init(n))
  {
    var s := Init(n);
    assert Arrived(s) == {};
  }

  /** While a thread is arriving no thread is past the count. */
  lemma NoneClosing(s: State, t: nat)
    requires Inv(s) && t < |s.threads| && s.threads[t].place.Arriving?
    ensures !Closing(s) && !AboutToRelease(s)
  {
    hide Arrived, ThreadOk;
  }

  /** An arrival counts its own thread and no other. */
  lemma ArriveCountsOne(s: State, t: nat)
    requires t < |s.threads| && s.threads[t].place.Arriving? && ThreadOk(s.threads[t], s.released)
    ensures var s' := Step(s, t);
            && |s'.threads| == |s.threads| && Counted(s', t) && !Counted(s, t)
            && forall i :: 0 <= i < |s.threads| && i != t ==> Counted(s', i) == Counted(s, i)
  {
    hide Odd;
  }

  lemma ArrivedGrows(s: State, s': State, t: nat)
    requires |s'.threads| == |s.threads| && t < |s.threads| && Counted(s', t) && !Counted(s, t)
    requires forall i :: 0 <= i < |s.threads| && i != t ==> Counted(s', i) == Counted(s, i)
    ensures Arrived(s') == Arrived(s) + {t} && t !in Arrived(s) && |Arrived(s')| == |Arrived(s)| + 1
  {
    hide Counted;
    var all := Arrived(s) + {t};
    forall i: nat
      ensures i in Arrived(s') <==> i in all
    {
    }
    assert Arrived(s') == all;
  }

  /** One more arrival. */
  lemma ArriveCounts(s: State, t: nat)
    requires Inv(s) && t < |s.threads| && s.threads[t].place.Arriving?
    ensures !Closing(s) && !AboutToRelease(s)
    ensures Arrived(Step(s, t)) == Arrived(s) + {t} && t !in Arrived(s)
    ensures |Arrived(Step(s, t))| == s.count + 1
  {
    hide Arrived, Counted, Step, ThreadOk, Closing, AboutToRelease, OthersWait;
    NoneClosing(s, t);
    ArriveCountsOne(s, t);
    ArrivedGrows(s, Step(s, t), t);
  }

  /** The last arrival finds all others waiting. */
  lemma LastArrives(s: State, t: nat)
    requires Inv(s) && t < |s.threads| && s.threads[t].place.Arriving? && s.count == |s.threads| - 1
    ensures OthersWait(s, t)
  {
    var s' := Step(s, t);
    ArriveCounts(s, t);
    AllArrived(s');
    hide Arrived;
    forall j | 0 <= j < |s.threads| && j != t
      ensures s.threads[j].place.Spinning? && s.threads[j].entered == s.released + 1
    {
      assert Counted(s', j) && ThreadOk(s.threads[j], s.released);
    }
  }

  lemma ArriveKeepsInv(s: State, t: nat)
    requires Inv(s) && t < |s.threads| && s.threads[t].place.Arriving?
    ensures Inv(Step(s, t))
  {
    hide Arrived;
    var s' := Step(s, t);
    ArriveCounts(s, t);
    AllArrived(s');
    if s.count == |s.threads| - 1 {
      LastArrives(s, t);
      assert s'.threads[t].place.Resetting?;
      assert forall i :: 0 <= i < |s'.threads| && i != t ==> s'.threads[i] == s.threads[i];
      assert OthersWait(s', t) && Closing(s') && !AboutToRelease(s');
    } else {
      assert forall i :: 0 <= i < |s'.threads| && i != t ==> s'.threads[i] == s.threads[i];
      assert !Closing(s') && !AboutToRelease(s');
    }
  }

  lemma ReleaseKeepsInv(s: State, t: nat)
    requires Inv(s) && t < |s.threads| && s.threads[t].place.Releasing?
    ensures Inv(Step(s, t))
  {
    var s' := Step(s, t);
    assert OthersWait(s, t);
    assert Arrived(s') == {};
    assert !Closing(s') && !AboutToRelease(s');
  }

  lemma ResetKeepsInv(s: State, t: nat)
    requires Inv(s) && t < |s.threads| && s.threads[t].place.Resetting?
    ensures Inv(Step(s, t))
  {
    var s' := Step(s, t);
    assert OthersWait(s, t);
    assert s'.threads[t].place.Releasing?;
    assert AboutToRelease(s') && Closing(s');
  }

  /** A step of thread t that changes neither the shared variables nor who has arrived. */
  lemma LocalStepKeepsInv(s: State, t: nat)
    requires Inv(s) && t < |s.threads| && (s.threads[t].place.Outside? || s.threads[t].place.Spinning?)
    ensures Inv(Step(s, t))
  {
    var s' := Step(s, t);
    if s' != s {
      assert forall i :: 0 <= i < |s.threads| && i != t ==> s'.threads[i] == s.threads[i];
      assert !Counted(s, t) && !Counted(s', t);
      assert Arrived(s') == Arrived(s);
      hide Arrived;
      assert !Closing(s);
      assert !Closing(s') && !AboutToRelease(s') && !AboutToRelease(s);
    }
  }

  lemma StepKeepsInv(s: State, t: nat)
    requires Inv(s) && t < |s.threads|
    ensures Inv(Step(s, t))
  {
    hide Inv, Step;
    match s.threads[t].place
    case Outside => LocalStepKeepsInv(s, t);
    case Arriving => ArriveKeepsInv(s, t);
    case Resetting => ResetKeepsInv(s, t);
    case Releasing => ReleaseKeepsInv(s, t);
    case Spinning => LocalStepKeepsInv(s, t);
  }

  /** Any interleaving of any length keeps the invariant. */
  lemma {:induction false} RunKeepsInv(s: State, schedule: seq<nat>)
    requires Inv(s) && forall t :: t in schedule ==> t < |s.threads|
    ensures Inv(Run(s, schedule))
    decreases |schedule|
  {
    if schedule != [] {
      assert schedule[0] in schedule;
      assert forall t :: t in schedule[1..] ==> t in schedule;
      StepKeepsInv(s, schedule[0]);
      RunKeepsInv(Step(s, schedule[0]), schedule[1..]);
    }
  }

  // ---------------------------------------------------------------------
  // Safety
  // ---------------------------------------------------------------------

  /** After any interleaving: a thread that has left its k-th barrier finds that every thread has entered its k-th,
      no thread is more than one round ahead of another, and unless the last arriver has already reset it count is
      the number of arrivals of the open round. */
  lemma BarrierSafety(n: nat, schedule: seq<nat>)
    requires n > 0 && forall t :: t in schedule ==> t < n
    ensures var s := Run(Init(n), schedule);
            && (forall i, j :: 0 <= i < n && 0 <= j < n ==> s.threads[i].Left() <= s.threads[j].entered)
            && (forall i, j :: 0 <= i < n && 0 <= j < n ==> s.threads[i].entered <= s.threads[j].entered + 1)
            && (forall i, j :: 0 <= i < n && 0 <= j < n ==> s.threads[i].Left() <= s.threads[j].Left() + 1)
            && ((forall i :: 0 <= i < n ==> !s.threads[i].place.Releasing?) ==> s.count == |Arrived(s)|)
  {
    InitInv(n);
    RunKeepsInv(Init(n), schedule);
  }

  /** A release cannot be missed: as long as a thread spins for a flip that has happened, sense keeps its value. */
  lemma ReleaseNotMissed(s: State, t: nat, i: nat)
    requires Inv(s) && t < |s.threads| && i < |s.threads|
    requires s.threads[i].place.Spinning? && s.sense == s.threads[i].threadsense
    ensures Step(s, t).sense == s.sense
    ensures t != i ==> Step(s, t).threads[i] == s.threads[i]
  {
    assert Odd(s.released) == Odd(s.threads[i].entered);
    assert s.threads[i].entered == s.released;
  }

  // ---------------------------------------------------------------------
  // Progress
  // ---------------------------------------------------------------------

  /** Steps a thread still has to take to leave the barrier it is in. */
  function Distance(p: Place): nat {
    match p
    case Outside => 0
    case Spinning => 1
    case Releasing => 2
    case Resetting => 3
    case Arriving => 4
  }

  function TotalDistance(ts: seq<Thread>): nat {
    if ts == [] then 0 else Distance(ts[0].place) + TotalDistance(ts[1..])
  }

  lemma {:induction false} TotalDistanceUpdate(ts: seq<Thread>, t: nat, me: Thread)
    requires t < |ts|
    ensures TotalDistance(ts[t := me]) == TotalDistance(ts) - Distance(ts[t].place) + Distance(me.place)
  {
    if t == 0 {
      assert ts[0 := me][1..] == ts[1..];
    } else {
      assert ts[t := me][1..] == ts[1..][t - 1 := me];
      TotalDistanceUpdate(ts[1..], t - 1, me);
    }
  }

  /** Every step of a thread inside the barrier brings it closer to the way out, unless it spins in vain. */
  lemma StepMakesProgress(s: State, t: nat)
    requires t < |s.threads| && !s.threads[t].place.Outside? && Step(s, t) != s
    ensures TotalDistance(Step(s, t).threads) < TotalDistance(s.threads)
  {
    TotalDistanceUpdate(s.threads, t, Step(s, t).threads[t]);
  }

  /** No deadlock: when every thread has entered round k and some thread has not left it, some thread inside the
      barrier has a step that is not spinning in vain. */
  lemma SomeStepEnabled(s: State, k: nat) returns (t: nat)
    requires Inv(s)
    requires forall i :: 0 <= i < |s.threads| ==> s.threads[i].entered >= k
    requires exists i :: 0 <= i < |s.threads| && s.threads[i].entered == k && !s.threads[i].place.Outside?
    ensures t < |s.threads| && !s.threads[t].place.Outside? && Step(s, t) != s
  {
    var i :| 0 <= i < |s.threads| && s.threads[i].entered == k && !s.threads[i].place.Outside?;
    t := i;
    if s.threads[i].place.Spinning? && s.sense != s.threads[i].threadsense {
      assert s.released + 1 == k;
      if j :| 0 <= j < |s.threads| && !s.threads[j].place.Spinning? {
        t := j;
      } else {
        assert forall j :: 0 <= j < |s.threads| ==> s.threads[j].place.Spinning? && Counted(s, j);
        AllArrived(s);
        assert false;
      }
    }
  }

  /** All threads have left round k. */
  predicate AllLeft(s: State, k: nat) {
    forall i :: 0 <= i < |s.threads| ==> s.threads[i].place.Outside? && s.threads[i].entered == k
  }

  /** From any reachable state in which all threads have entered round k and none a later one, some schedule of at most
      TotalDistance steps lets all of them out. */
  lemma {:induction false} RoundCompletes(s: State, k: nat) returns (schedule: seq<nat>)
    requires Inv(s) && forall i :: 0 <= i < |s.threads| ==> s.threads[i].entered == k
    ensures |schedule| <= TotalDistance(s.threads) && forall t :: t in schedule ==> t < |s.threads|
    ensures AllLeft(Run(s, schedule), k)
    decreases TotalDistance(s.threads)
  {
    schedule := [];
    if exists i :: 0 <= i < |s.threads| && !s.threads[i].place.Outside? {
      var t := SomeStepEnabled(s, k);
      StepMakesProgress(s, t);
      StepKeepsInv(s, t);
      var rest := RoundCompletes(Step(s, t), k);
      schedule := [t] + rest;
      assert schedule[1..] == rest;
    }
  }
}
