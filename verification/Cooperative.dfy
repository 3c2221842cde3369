// Kernels in which every core runs its own program over one shared memory and
// meets the others at the barrier. A step is one access to shared memory or
// one step inside the barrier, and the steps of the cores interleave freely.

module Cooperative {
  import Barrier

  /** What a core does next: one access to shared memory, the barrier, or nothing more. */
  datatype Op = Read(a: nat) | Write(a: nat, v: int) | Wait | Done

  /** The program of n cores: each core's local state, the operation it does next there, and the local state after
      it, given the value read (0 for the other operations). */
  datatype Kernel<!L(!new)> = Kernel(n: nat, start: nat -> L, next: (nat, L) -> Op, resume: (nat, L, int) -> L)

  datatype System<L> = System(barrier: Barrier.State, locals: seq<L>, mem: seq<int>)

  function Boot<L(!new)>(k: Kernel<L>, mem: seq<int>): System<L> {
    System(Barrier.Init(k.n), seq(k.n, t requires 0 <= t => k.start(t)), mem)
  }

  function At(mem: seq<int>, a: nat): int {
    if a < |mem| then mem[a] else 0
  }

  function Store(mem: seq<int>, a: nat, v: int): seq<int> {
    if a < |mem| then mem[a := v] else mem
  }

  /** One step of core t. A core that leaves the barrier goes on with its program. */
  function Step<L(!new)>(k: Kernel<L>, s: System<L>, t: nat): System<L>
    requires t < |s.locals| && |s.barrier.threads| == |s.locals|
  {
    var l := s.locals[t];
    if s.barrier.threads[t].place.Outside? then
      match k.next(t, l)
      case Read(a) => s.(locals := s.locals[t := k.resume(t, l, At(s.mem, a))])
      case Write(a, v) => s.(locals := s.locals[t := k.resume(t, l, 0)], mem := Store(s.mem, a, v))
      case Wait => s.(barrier := Barrier.Step(s.barrier, t))
      case Done => s
    else
      var b := Barrier.Step(s.barrier, t);
      if b.threads[t].place.Outside? then s.(barrier := b, locals := s.locals[t := k.resume(t, l, 0)])
      else s.(barrier := b)
  }

  function Run<L(!new)>(k: Kernel<L>, s: System<L>, schedule: seq<nat>): System<L>
    requires |s.barrier.threads| == |s.locals| && forall t :: t in schedule ==> t < |s.locals|
    decreases |schedule|
  {
    if schedule == [] then s else
      assert schedule[0] in schedule;
      assert forall t :: t in schedule[1..] ==> t in schedule;
      Run(k, Step(k, s, schedule[0]), schedule[1..])
  }

  /** Every core has come to the end of its program. */
  predicate AllDone<L(!new)>(k: Kernel<L>, s: System<L>) {
    && |s.locals| == |s.barrier.threads|
    && forall t :: 0 <= t < |s.locals| ==> s.barrier.threads[t].place.Outside? && k.next(t, s.locals[t]).Done?
  }

  // ---------------------------------------------------------------------
  // Proof outline for a kernel
  // ---------------------------------------------------------------------

  /** What core t knows in phase r (after r barriers) in local state l with shared memory m. */
  type Outline<!L> = (nat, nat, L, seq<int>) -> bool

  /** Core t's next step keeps what it knows, and its access is in bounds. */
  ghost predicate StepKept<L(!new)>(k: Kernel<L>, inv: Outline<L>, t: nat, r: nat, l: L, m: seq<int>) {
    match k.next(t, l)
    case Read(a) => a < |m| && inv(t, r, k.resume(t, l, m[a]), m)
    case Write(a, v) => a < |m| && inv(t, r, k.resume(t, l, 0), m[a := v])
    case _ => true
  }

  /** A core's own steps keep what it knows, and every access is in bounds. */
  ghost predicate Local<L(!new)>(k: Kernel<L>, inv: Outline<L>, size: nat) {
    forall t: nat, r: nat, l: L, m: seq<int> {:trigger inv(t, r, l, m)} ::
      t < k.n && |m| == size && inv(t, r, l, m) ==> StepKept(k, inv, t, r, l, m)
  }

  /** No core's write disturbs what another core knows in the same phase. */
  ghost predicate NonInterfering<L(!new)>(k: Kernel<L>, inv: Outline<L>, size: nat) {
    forall t: nat, u: nat, r: nat, l: L, l': L, m: seq<int> {:trigger inv(t, r, l, m), inv(u, r, l', m)} ::
      t < k.n && u < k.n && t != u && |m| == size && inv(t, r, l, m) && inv(u, r, l', m) && k.next(u, l').Write? ==>
        inv(t, r, l, Store(m, k.next(u, l').a, k.next(u, l').v))
  }

  /** What all cores know together when all wait lets each of them start the next phase. */
  ghost predicate Turning<L(!new)>(k: Kernel<L>, inv: Outline<L>, size: nat) {
    forall r: nat, ls: seq<L>, m: seq<int> ::
      |ls| == k.n && |m| == size && AllWait(k, inv, r, ls, m) ==>
        forall t: nat :: t < k.n ==> inv(t, r + 1, k.resume(t, ls[t], 0), m)
  }

  ghost predicate AllWait<L(!new)>(k: Kernel<L>, inv: Outline<L>, r: nat, ls: seq<L>, m: seq<int>)
    requires |ls| == k.n
  {
    forall t: nat :: t < k.n ==> inv(t, r, ls[t], m) && k.next(t, ls[t]).Wait?
  }

  /** A complete outline, from the initial memory on. */
  ghost predicate Outlined<L(!new)>(k: Kernel<L>, inv: Outline<L>, mem: seq<int>) {
    && k.n > 0
    && (forall t: nat :: t < k.n ==> inv(t, 0, k.start(t), mem))
    && Local(k, inv, |mem|) && NonInterfering(k, inv, |mem|) && Turning(k, inv, |mem|)
  }

  // ---------------------------------------------------------------------
  // The outline holds along every interleaving
  // ---------------------------------------------------------------------

  /** Core t is inside the barrier of a phase that is still open. */
  predicate Waiting<L>(s: System<L>, t: nat)
    requires t < |s.barrier.threads|
  {
    !s.barrier.threads[t].place.Outside? && s.barrier.threads[t].entered == s.barrier.released + 1
  }

  /** Where core t's program stands: past the barrier once it has been released, even if the core still spins. */
  function View<L(!new)>(k: Kernel<L>, s: System<L>, t: nat): L
    requires t < |s.locals| == |s.barrier.threads|
  {
    if s.barrier.threads[t].place.Outside? || Waiting(s, t) then s.locals[t] else k.resume(t, s.locals[t], 0)
  }

  ghost predicate Inv<L(!new)>(k: Kernel<L>, inv: Outline<L>, s: System<L>, size: nat) {
    && Barrier.Inv(s.barrier)
    && |s.locals| == |s.barrier.threads| == k.n && |s.mem| == size
    && forall t: nat :: t < k.n ==>
         && inv(t, s.barrier.released, View(k, s, t), s.mem)
         && (Waiting(s, t) ==> k.next(t, s.locals[t]).Wait?)
  }

  lemma BootInv<L(!new)>(k: Kernel<L>, inv: Outline<L>, mem: seq<int>)
    requires Outlined(k, inv, mem)
    ensures Inv(k, inv, Boot(k, mem), |mem|)
  {
    Barrier.InitInv(k.n);
  }

  /** A step outside the barrier. */
  lemma AccessKeepsInv<L(!new)>(k: Kernel<L>, inv: Outline<L>, s: System<L>, t: nat, size: nat)
    requires Local(k, inv, size) && NonInterfering(k, inv, size)
    requires Inv(k, inv, s, size) && t < k.n && s.barrier.threads[t].place.Outside? && !k.next(t, s.locals[t]).Wait?
    ensures Inv(k, inv, Step(k, s, t), size)
  {
    var s' := Step(k, s, t);
    assert inv(t, s.barrier.released, View(k, s, t), s.mem);
    forall u: nat | u < k.n
      ensures inv(u, s.barrier.released, View(k, s', u), s'.mem)
    {
      assert inv(u, s.barrier.released, View(k, s, u), s.mem);
      if u != t {
        assert View(k, s', u) == View(k, s, u);
      }
    }
  }

  /** The store to sense: all cores turn to the next phase at once. */
  lemma ReleaseKeepsInv<L(!new)>(k: Kernel<L>, inv: Outline<L>, s: System<L>, t: nat, size: nat)
    requires Turning(k, inv, size)
    requires Inv(k, inv, s, size) && t < k.n && s.barrier.threads[t].place.Releasing?
    ensures Inv(k, inv, Step(k, s, t), size)
  {
    var s' := Step(k, s, t);
    Barrier.StepKeepsInv(s.barrier, t);
    assert Barrier.OthersWait(s.barrier, t);
    forall u: nat | u < k.n
      ensures inv(u, s.barrier.released, s.locals[u], s.mem) && k.next(u, s.locals[u]).Wait?
    {
      assert Barrier.ThreadOk(s.barrier.threads[u], s.barrier.released);
      assert Waiting(s, u);
      assert inv(u, s.barrier.released, View(k, s, u), s.mem);
    }
    assert AllWait(k, inv, s.barrier.released, s.locals, s.mem);
    forall u: nat | u < k.n
      ensures inv(u, s'.barrier.released, View(k, s', u), s'.mem) && !Waiting(s', u)
    {
      assert inv(u, s.barrier.released + 1, k.resume(u, s.locals[u], 0), s.mem);
    }
  }

  /** Every other step inside the barrier leaves all views alone. */
  lemma BarrierKeepsInv<L(!new)>(k: Kernel<L>, inv: Outline<L>, s: System<L>, t: nat, size: nat)
    requires Inv(k, inv, s, size) && t < k.n && !s.barrier.threads[t].place.Releasing?
    requires s.barrier.threads[t].place.Outside? ==> k.next(t, s.locals[t]).Wait?
    ensures Inv(k, inv, Step(k, s, t), size)
  {
    var s' := Step(k, s, t);
    Barrier.StepKeepsInv(s.barrier, t);
    assert Barrier.ThreadOk(s.barrier.threads[t], s.barrier.released);
    assert Barrier.ThreadOk(s'.barrier.threads[t], s'.barrier.released);
    forall u: nat | u < k.n
      ensures inv(u, s'.barrier.released, View(k, s', u), s'.mem) && (Waiting(s', u) ==> k.next(u, s'.locals[u]).Wait?)
    {
      assert inv(u, s.barrier.released, View(k, s, u), s.mem);
      assert View(k, s', u) == View(k, s, u);
    }
  }

  lemma StepKeepsInv<L(!new)>(k: Kernel<L>, inv: Outline<L>, s: System<L>, t: nat, size: nat)
    requires Local(k, inv, size) && NonInterfering(k, inv, size) && Turning(k, inv, size)
    requires Inv(k, inv, s, size) && t < k.n
    ensures Inv(k, inv, Step(k, s, t), size)
  {
    hide Inv, Step, Local, NonInterfering, Turning;
    assert |s.locals| == |s.barrier.threads| == k.n by {
      InvShape(k, inv, s, size);
    }
    if s.barrier.threads[t].place.Releasing? {
      ReleaseKeepsInv(k, inv, s, t, size);
    } else if s.barrier.threads[t].place.Outside? && !k.next(t, s.locals[t]).Wait? {
      AccessKeepsInv(k, inv, s, t, size);
    } else {
      BarrierKeepsInv(k, inv, s, t, size);
    }
  }

  lemma InvShape<L(!new)>(k: Kernel<L>, inv: Outline<L>, s: System<L>, size: nat)
    requires Inv(k, inv, s, size)
    ensures |s.locals| == |s.barrier.threads| == k.n && |s.mem| == size
  {
  }

  lemma {:induction false} RunKeepsInv<L(!new)>(k: Kernel<L>, inv: Outline<L>, s: System<L>, schedule: seq<nat>,
                                         size: nat)
    requires Local(k, inv, size) && NonInterfering(k, inv, size) && Turning(k, inv, size)
    requires Inv(k, inv, s, size) && forall t :: t in schedule ==> t < k.n
    requires |s.locals| == |s.barrier.threads| == k.n
    ensures Inv(k, inv, Run(k, s, schedule), size)
    decreases |schedule|
  {
    hide Inv, Local, NonInterfering, Turning;
    if schedule != [] {
      assert schedule[0] in schedule;
      assert forall t :: t in schedule[1..] ==> t in schedule;
      StepKeepsInv(k, inv, s, schedule[0], size);
      RunKeepsInv(k, inv, Step(k, s, schedule[0]), schedule[1..], size);
    }
  }

  /** Along every interleaving, every core that is outside the barrier knows what its outline says, and all cores
      agree on the phase. */
  lemma OutlineHolds<L(!new)>(k: Kernel<L>, inv: Outline<L>, mem: seq<int>, schedule: seq<nat>)
    requires Outlined(k, inv, mem) && forall t :: t in schedule ==> t < k.n
    ensures var s := Run(k, Boot(k, mem), schedule);
            && |s.locals| == |s.barrier.threads| == k.n && |s.mem| == |mem|
            && forall t: nat :: t < k.n && s.barrier.threads[t].place.Outside? ==>
                 s.barrier.threads[t].entered == s.barrier.released && inv(t, s.barrier.released, s.locals[t], s.mem)
  {
    BootInv(k, inv, mem);
    RunKeepsInv(k, inv, Boot(k, mem), schedule, |mem|);
    var s := Run(k, Boot(k, mem), schedule);
    forall t: nat | t < k.n && s.barrier.threads[t].place.Outside?
      ensures s.barrier.threads[t].entered == s.barrier.released && inv(t, s.barrier.released, s.locals[t], s.mem)
    {
      assert Barrier.ThreadOk(s.barrier.threads[t], s.barrier.released);
      assert inv(t, s.barrier.released, View(k, s, t), s.mem);
    }
  }

  // ---------------------------------------------------------------------
  // No deadlock
  // ---------------------------------------------------------------------

  /** Core t can do something other than spin in vain. */
  predicate Enabled<L(!new)>(k: Kernel<L>, s: System<L>, t: nat) {
    && t < |s.locals| == |s.barrier.threads|
    && if s.barrier.threads[t].place.Outside? then !k.next(t, s.locals[t]).Done?
       else Barrier.Step(s.barrier, t) != s.barrier
  }

  /** In a phase in which one core waits at its end, no core has already finished. */
  ghost predicate Uniform<L(!new)>(k: Kernel<L>, inv: Outline<L>, size: nat) {
    forall t: nat, u: nat, r: nat, l: L, l': L, m: seq<int> {:trigger inv(t, r, l, m), inv(u, r, l', m)} ::
      t < k.n && u < k.n && |m| == size && inv(t, r, l, m) && inv(u, r, l', m) && k.next(t, l).Wait? ==>
        !k.next(u, l').Done?
  }

  /** A core inside the barrier, when every core outside has finished: someone can move. */
  lemma InsideEnabled<L(!new)>(k: Kernel<L>, inv: Outline<L>, s: System<L>, size: nat, t: nat) returns (e: nat)
    requires Uniform(k, inv, size) && Inv(k, inv, s, size) && t < k.n && !s.barrier.threads[t].place.Outside?
    requires forall u :: 0 <= u < k.n && s.barrier.threads[u].place.Outside? ==> k.next(u, s.locals[u]).Done?
    ensures Enabled(k, s, e)
  {
    e := t;
    assert Barrier.ThreadOk(s.barrier.threads[t], s.barrier.released);
    if Waiting(s, t) {
      assert inv(t, s.barrier.released, View(k, s, t), s.mem);
      forall u | 0 <= u < k.n
        ensures !s.barrier.threads[u].place.Outside? && s.barrier.threads[u].entered >= s.barrier.released
      {
        assert Barrier.ThreadOk(s.barrier.threads[u], s.barrier.released);
        assert inv(u, s.barrier.released, View(k, s, u), s.mem);
      }
      if u :| 0 <= u < k.n && s.barrier.threads[u].entered == s.barrier.released {
        e := u;
        assert Barrier.ThreadOk(s.barrier.threads[u], s.barrier.released);
      } else {
        e := Barrier.SomeStepEnabled(s.barrier, s.barrier.released + 1);
      }
    }
  }

  /** Along every interleaving, until all cores are done some core can move. */
  lemma NoDeadlock<L(!new)>(k: Kernel<L>, inv: Outline<L>, mem: seq<int>, schedule: seq<nat>) returns (e: nat)
    requires Outlined(k, inv, mem) && Uniform(k, inv, |mem|) && forall t :: t in schedule ==> t < k.n
    requires !AllDone(k, Run(k, Boot(k, mem), schedule))
    ensures Enabled(k, Run(k, Boot(k, mem), schedule), e)
  {
    hide Boot, Uniform, Outlined, Barrier.Inv;
    assert Inv(k, inv, Run(k, Boot(k, mem), schedule), |mem|) by {
      OutlineInv(k, inv, mem, schedule);
    }
    var s := Run(k, Boot(k, mem), schedule);
    var t :| 0 <= t < k.n && !(s.barrier.threads[t].place.Outside? && k.next(t, s.locals[t]).Done?);
    if u :| 0 <= u < k.n && s.barrier.threads[u].place.Outside? && !k.next(u, s.locals[u]).Done? {
      e := u;
    } else {
      e := InsideEnabled(k, inv, s, |mem|, t);
    }
  }

  lemma OutlineInv<L(!new)>(k: Kernel<L>, inv: Outline<L>, mem: seq<int>, schedule: seq<nat>)
    requires Outlined(k, inv, mem) && forall t :: t in schedule ==> t < k.n
    ensures |Boot(k, mem).locals| == |Boot(k, mem).barrier.threads| == k.n
    ensures Inv(k, inv, Run(k, Boot(k, mem), schedule), |mem|)
  {
    BootInv(k, inv, mem);
    RunKeepsInv(k, inv, Boot(k, mem), schedule, |mem|);
  }
}
