/**
 Threads that call `pmm_alloc` and `pmm_free` in any interleaving. Each call takes the lock with compare-and-swap steps,
 works on the pool in steps of its own, and gives the lock back; in between any other thread may run.
 */
module PmmThreads {
  import opened Common
  import Locks
  import PmmSpec

  /** A call a thread may make; `pieces` is the length of the message should it find no frame. */
  datatype Request = AllocReq(pieces: nat) | FreeReq(addr: nat)

  /** Where a thread is: outside, trying for the lock, or at one of the steps it makes under it. */
  datatype Phase =
    | Idle
    | Waiting(req: Request)
    | Entered(req: Request)
    | Fed(pieces: nat)
    | Reading(frame: nat)
    | Leaving

  /** An allocation that is over: its place in the log, and what it returned. */
  datatype Got = Got(at: nat, frame: nat)

  /** A thread's place in its call, the frames it owns, and what its allocations returned. */
  datatype Worker = Worker(phase: Phase, owned: set<nat>, got: seq<Got>)

  /**
   The lock bytes and lock steps of all threads, the pool, the threads, and the calls in the order they took effect.
   */
  datatype System = System(locks: Locks.State, pool: PmmSpec.State, workers: seq<Worker>, log: seq<PmmSpec.Event>)

  /** Which thread runs next, and what it asks for should it be idle. */
  datatype Turn = Turn(thread: nat, req: Request)

  // ----- steps

  const PLAIN: seq<Locks.Act> := Locks.PmmFree()

  const LAST: seq<Locks.Act> := [Locks.Release(Locks.PmmLock)]

  /** What thread `i` still has to do with locks. */
  function SetTodo(s: Locks.State, i: nat, todo: seq<Locks.Act>): Locks.State
    requires i < |s.threads|
  {
    s.(threads := s.threads[i := s.threads[i].(todo := todo)])
  }

  /** The refill at the start of `pmm_alloc`. */
  function Feed(g: PmmSpec.Geometry, s: PmmSpec.State): PmmSpec.State {
    if s.stk == [] then PmmSpec.Refill(g, s) else s
  }

  /** `page_stk[--page_stk_size]`, whose value has been read. */
  function Pop(s: PmmSpec.State, frame: nat): PmmSpec.State {
    if s.stk == [] then s else s.(stk := s.stk[..|s.stk| - 1], live := s.live + {frame})
  }

  /** One step of thread `t.thread`. Threads release only what they own. */
  function Step(g: PmmSpec.Geometry, s: System, t: Turn): System {
    var i := t.thread;
    if i >= |s.workers| || |s.workers| != |s.locks.threads| then s
    else
      var w := s.workers[i];
      match w.phase
      case Idle =>
        if t.req.FreeReq? && PageBase(t.req.addr) !in w.owned then s
        else s.(locks := SetTodo(s.locks, i, PLAIN), workers := s.workers[i := w.(phase := Waiting(t.req))])
      case Waiting(req) =>
        var locks := Locks.Step(s.locks, i);
        if Locks.PmmLock in locks.threads[i].held then
          s.(locks := locks, workers := s.workers[i := w.(phase := Entered(req))])
        else s.(locks := locks)
      case Entered(AllocReq(k)) =>
        s.(pool := Feed(g, s.pool), workers := s.workers[i := w.(phase := Fed(k))])
      case Entered(FreeReq(addr)) =>
        s.(pool := PmmSpec.Free(g, s.pool, addr), log := s.log + [PmmSpec.FreeEv(addr)],
           workers := s.workers[i := w.(phase := Leaving, owned := w.owned - {PageBase(addr)})])
      case Fed(k) =>
        if s.pool.stk == [] then
          s.(locks := SetTodo(s.locks, i, Locks.Println(k) + LAST), log := s.log + [PmmSpec.AllocEv],
             workers := s.workers[i := w.(phase := Leaving, got := w.got + [Got(|s.log|, PHYS_ADDR_NULL)])])
        else s.(workers := s.workers[i := w.(phase := Reading(s.pool.stk[|s.pool.stk| - 1]))])
      case Reading(frame) =>
        s.(pool := Pop(s.pool, frame), log := s.log + [PmmSpec.AllocEv],
           workers := s.workers[i := Worker(Leaving, w.owned + {frame}, w.got + [Got(|s.log|, frame)])])
      case Leaving =>
        var locks := Locks.Step(s.locks, i);
        s.(locks := locks,
           workers := s.workers[i := w.(phase := if locks.threads[i].todo == [] then Idle else Leaving)])
  }

  function Run(g: PmmSpec.Geometry, s: System, turns: seq<Turn>): System
    decreases |turns|
  {
    if turns == [] then s else Run(g, Step(g, s, turns[0]), turns[1..])
  }

  /** Threads that have not started, over a pool of which they own nothing yet. */
  function Start(pool: PmmSpec.State, n: nat): System {
    System(Locks.State(map[], seq(n, _ => Locks.Thread([], {}, {}))), pool, seq(n, _ => Worker(Idle, {}, [])), [])
  }

  // ----- locks: where a thread is in its call says what it holds

  /** Up to the release of the frame lock at its end, nothing is done with that lock. */
  ghost predicate EndsWithRelease(todo: seq<Locks.Act>) {
    && todo != [] && todo[|todo| - 1] == Locks.Release(Locks.PmmLock)
    && forall k :: 0 <= k < |todo| - 1 ==> todo[k].lock != Locks.PmmLock
  }

  ghost predicate ThreadOk(t: Locks.Thread, p: Phase) {
    match p
    case Idle => t == Locks.Thread([], {}, {})
    case Waiting(_) => t == Locks.Thread(PLAIN, {}, {})
    case Leaving => Locks.PmmLock in t.held && EndsWithRelease(t.todo)
    case _ => t == Locks.Thread(LAST, {Locks.PmmLock}, {})
  }

  /** The thread is between taking the lock and giving it back. */
  predicate Inside(p: Phase) {
    !p.Idle? && !p.Waiting?
  }

  ghost predicate LocksOk(s: System) {
    && Locks.Inv(s.locks) && |s.workers| == |s.locks.threads|
    && forall i :: 0 <= i < |s.workers| ==> ThreadOk(s.locks.threads[i], s.workers[i].phase)
  }

  /** At most one thread is inside. */
  lemma OneInside(s: System, i: nat, j: nat)
    requires LocksOk(s) && i < |s.workers| && j < |s.workers|
    requires Inside(s.workers[i].phase) && Inside(s.workers[j].phase)
    ensures i == j
  {
    assert Locks.PmmLock in s.locks.threads[i].held && Locks.PmmLock in s.locks.threads[j].held;
    Locks.OneHolder(s.locks, Locks.PmmLock, i, j);
  }

  lemma PlainDisciplined()
    ensures Locks.Disciplined(Locks.Thread(PLAIN, {}, {}))
    ensures PLAIN == [Locks.Acquire(Locks.PmmLock), Locks.Release(Locks.PmmLock)] && PLAIN[1..] == LAST
  {
    Locks.PmmNests(true, 0);
    assert Locks.Below({}, {}, 4);
  }

  lemma MessageDisciplined(k: nat)
    ensures Locks.Disciplined(Locks.Thread(Locks.Println(k) + LAST, {Locks.PmmLock}, {}))
  {
    var held := {Locks.PmmLock};
    Locks.PrintNests(k);
    assert Locks.Below(held, {}, 5);
    Locks.ExecConcat(held, {}, Locks.Println(k), LAST);
    Locks.ExecOne(held, {}, Locks.Release(Locks.PmmLock));
    assert held - {Locks.PmmLock} == {};
  }

  lemma {:induction false} TimesElsewhere(k: nat, p: seq<Locks.Act>)
    requires forall a :: a in p ==> a.lock != Locks.PmmLock
    ensures forall a :: a in Locks.Times(k, p) ==> a.lock != Locks.PmmLock
  {
    if k > 0 {
      TimesElsewhere(k - 1, p);
    }
  }

  /** Printing has nothing to do with the frame lock. */
  lemma MessageEnds(k: nat)
    ensures EndsWithRelease(Locks.Println(k) + LAST)
  {
    var todo := Locks.Println(k) + LAST;
    TimesElsewhere(k, Locks.SerialWrite());
    forall j | 0 <= j < |todo| - 1 ensures todo[j].lock != Locks.PmmLock {
      assert todo[j] in Locks.Println(k);
    }
  }

  /** Other acts before a thread, with what it holds unchanged. */
  lemma TodoKeeps(s: Locks.State, i: nat, todo: seq<Locks.Act>)
    requires Locks.Inv(s) && i < |s.threads| && Locks.Disciplined(s.threads[i].(todo := todo))
    ensures Locks.Inv(SetTodo(s, i, todo))
  {
    var s' := SetTodo(s, i, todo);
    forall l ensures Locks.ByteAt(s', l) == if Locks.Taken(s', l) then 1 else 0 {
      Locks.TakenAfter(s, i, s.threads[i].(todo := todo), l);
    }
  }

  /** The step of a thread at the lock changes no other thread. */
  lemma LockStepOthers(s: Locks.State, i: nat, j: nat)
    requires i < |s.threads| && j < |s.threads| && i != j
    ensures Locks.Step(s, i).threads[j] == s.threads[j]
  {
  }

  lemma TryEnter(s: Locks.State, i: nat)
    requires Locks.Inv(s) && i < |s.threads| && s.threads[i] == Locks.Thread(PLAIN, {}, {})
    ensures var t := Locks.Step(s, i).threads[i];
      if Locks.PmmLock in t.held then t == Locks.Thread(LAST, {Locks.PmmLock}, {}) else t == s.threads[i]
  {
    PlainDisciplined();
  }

  lemma TryLeave(s: Locks.State, i: nat)
    requires Locks.Inv(s) && i < |s.threads| && Locks.PmmLock in s.threads[i].held && EndsWithRelease(s.threads[i].todo)
    ensures var t := Locks.Step(s, i).threads[i];
      if t.todo == [] then t == Locks.Thread([], {}, {}) else Locks.PmmLock in t.held && EndsWithRelease(t.todo)
  {
    Locks.StepKeeps(s, i);
    var t, t' := s.threads[i], Locks.Step(s, i).threads[i];
    assert Locks.Disciplined(t');
    if t' != t && t.todo[1..] != [] {
      assert t'.todo[|t'.todo| - 1] == t.todo[|t.todo| - 1];
      forall k | 0 <= k < |t'.todo| - 1 ensures t'.todo[k].lock != Locks.PmmLock {
        assert t'.todo[k] == t.todo[k + 1];
      }
    }
  }

  /** Only the phase of the thread that runs can change, and the lock steps of no other. */
  lemma OthersStay(s: System, s': System, i: nat)
    requires LocksOk(s) && i < |s.workers| && |s'.workers| == |s.workers| && |s'.locks.threads| == |s.workers|
    requires forall j :: 0 <= j < |s.workers| && j != i ==>
      s'.workers[j] == s.workers[j] && s'.locks.threads[j] == s.locks.threads[j]
    requires Locks.Inv(s'.locks) && ThreadOk(s'.locks.threads[i], s'.workers[i].phase)
    ensures LocksOk(s')
  {
  }

  lemma AskLocks(g: PmmSpec.Geometry, s: System, t: Turn)
    requires LocksOk(s) && t.thread < |s.workers| && s.workers[t.thread].phase.Idle?
    ensures LocksOk(Step(g, s, t))
  {
    PlainDisciplined();
    TodoKeeps(s.locks, t.thread, PLAIN);
  }

  lemma EnterLocks(g: PmmSpec.Geometry, s: System, t: Turn)
    requires LocksOk(s) && t.thread < |s.workers| && s.workers[t.thread].phase.Waiting?
    ensures LocksOk(Step(g, s, t))
  {
    var i, s' := t.thread, Step(g, s, t);
    Locks.StepKeeps(s.locks, i);
    TryEnter(s.locks, i);
    forall j | 0 <= j < |s.workers| && j != i ensures s'.locks.threads[j] == s.locks.threads[j] {
      LockStepOthers(s.locks, i, j);
    }
    OthersStay(s, s', i);
  }

  lemma LeaveLocks(g: PmmSpec.Geometry, s: System, t: Turn)
    requires LocksOk(s) && t.thread < |s.workers| && s.workers[t.thread].phase.Leaving?
    ensures LocksOk(Step(g, s, t))
  {
    var i, s' := t.thread, Step(g, s, t);
    Locks.StepKeeps(s.locks, i);
    TryLeave(s.locks, i);
    forall j | 0 <= j < |s.workers| && j != i ensures s'.locks.threads[j] == s.locks.threads[j] {
      LockStepOthers(s.locks, i, j);
    }
    OthersStay(s, s', i);
  }

  lemma FailLocks(g: PmmSpec.Geometry, s: System, t: Turn)
    requires LocksOk(s) && t.thread < |s.workers| && s.workers[t.thread].phase.Fed? && s.pool.stk == []
    ensures LocksOk(Step(g, s, t))
  {
    var k := s.workers[t.thread].phase.pieces;
    MessageDisciplined(k);
    MessageEnds(k);
    TodoKeeps(s.locks, t.thread, Locks.Println(k) + LAST);
  }

  lemma LastEnds()
    ensures EndsWithRelease(LAST)
  {
  }

  /** Every step keeps what the threads hold in step with where they are. */
  lemma LocksStep(g: PmmSpec.Geometry, s: System, t: Turn)
    requires LocksOk(s)
    ensures LocksOk(Step(g, s, t)) && |Step(g, s, t).workers| == |s.workers|
  {
    if t.thread < |s.workers| {
      LastEnds();
      match s.workers[t.thread].phase
      case Idle => AskLocks(g, s, t);
      case Waiting(_) => EnterLocks(g, s, t);
      case Leaving => LeaveLocks(g, s, t);
      case Fed(_) =>
        if s.pool.stk == [] {
          FailLocks(g, s, t);
        }
      case Entered(_) =>
      case Reading(_) =>
    }
  }

  // ----- the pool: every call takes effect as if it were alone

  /** What the pool holds while thread `i` is where it is, `base` being the pool after the calls of the log. */
  predicate PoolFor(g: PmmSpec.Geometry, base: PmmSpec.State, pool: PmmSpec.State, p: Phase) {
    match p
    case Fed(_) => pool == Feed(g, base)
    case Reading(frame) => pool == Feed(g, base) && pool.stk != [] && frame == pool.stk[|pool.stk| - 1]
    case _ => pool == base
  }

  /** A phase in which the pool is not as the log leaves it. */
  predicate Midway(p: Phase) {
    p.Fed? || p.Reading?
  }

  function Base(g: PmmSpec.Geometry, s0: PmmSpec.State, s: System): PmmSpec.State {
    PmmSpec.Run(g, s0, s.log)
  }

  ghost predicate PoolOk(g: PmmSpec.Geometry, s0: PmmSpec.State, s: System) {
    && PmmSpec.Legal(g, s0, s.log)
    && (forall i :: 0 <= i < |s.workers| && Midway(s.workers[i].phase) ==>
          PoolFor(g, Base(g, s0, s), s.pool, s.workers[i].phase))
    && ((forall i :: 0 <= i < |s.workers| ==> !Midway(s.workers[i].phase)) ==> s.pool == Base(g, s0, s))
  }

  predicate AsksForOwn(w: Worker) {
    (w.phase.Waiting? || w.phase.Entered?) && w.phase.req.FreeReq? ==> PageBase(w.phase.req.addr) in w.owned
  }

  /** Threads own different frames, and what they ask to release is theirs. */
  ghost predicate FramesOk(g: PmmSpec.Geometry, s0: PmmSpec.State, s: System) {
    && (forall i :: 0 <= i < |s.workers| ==> s.workers[i].owned <= Base(g, s0, s).live)
    && (forall i, j :: 0 <= i < j < |s.workers| ==> s.workers[i].owned !! s.workers[j].owned)
    && (forall i :: 0 <= i < |s.workers| ==> AsksForOwn(s.workers[i]))
  }

  /** What an allocation returned is what the calls of the log, made one after the other, return at its place. */
  ghost predicate GotOk(g: PmmSpec.Geometry, s0: PmmSpec.State, log: seq<PmmSpec.Event>, w: Worker) {
    forall k :: 0 <= k < |w.got| ==>
      && w.got[k].at < |log| && log[w.got[k].at].AllocEv?
      && w.got[k].frame == PmmSpec.ResultAt(g, s0, log, w.got[k].at)
  }

  ghost predicate ResultsOk(g: PmmSpec.Geometry, s0: PmmSpec.State, s: System) {
    forall i :: 0 <= i < |s.workers| ==> GotOk(g, s0, s.log, s.workers[i])
  }

  ghost predicate SystemOk(g: PmmSpec.Geometry, s0: PmmSpec.State, s: System) {
    && PmmSpec.ValidGeometry(g) && PmmSpec.Owned(g, s0)
    && LocksOk(s) && PoolOk(g, s0, s) && FramesOk(g, s0, s) && ResultsOk(g, s0, s)
  }

  /** One more call in the log. */
  lemma LogGrows(g: PmmSpec.Geometry, s0: PmmSpec.State, log: seq<PmmSpec.Event>, e: PmmSpec.Event)
    requires PmmSpec.ValidGeometry(g) && PmmSpec.Owned(g, s0) && PmmSpec.Legal(g, s0, log)
    requires e.FreeEv? ==> PageBase(e.addr) in PmmSpec.Run(g, s0, log).live
    ensures PmmSpec.Run(g, s0, log + [e]) == PmmSpec.Step(g, PmmSpec.Run(g, s0, log), e)
    ensures PmmSpec.Legal(g, s0, log + [e]) && PmmSpec.Owned(g, PmmSpec.Run(g, s0, log))
  {
    var base := PmmSpec.Run(g, s0, log);
    PmmSpec.RunConcat(g, s0, log, [e]);
    PmmSpec.RunKeeps(g, s0, log);
    assert [e][1..] == [];
    assert PmmSpec.Run(g, base, [e]) == PmmSpec.Run(g, PmmSpec.Step(g, base, e), []);
    assert PmmSpec.Legal(g, PmmSpec.Step(g, base, e), []);
  }

  lemma GotStays(g: PmmSpec.Geometry, s0: PmmSpec.State, log: seq<PmmSpec.Event>, e: PmmSpec.Event, w: Worker)
    requires GotOk(g, s0, log, w)
    ensures GotOk(g, s0, log + [e], w)
  {
    forall k | 0 <= k < |w.got|
      ensures w.got[k].at < |log + [e]| && (log + [e])[w.got[k].at].AllocEv?
      ensures w.got[k].frame == PmmSpec.ResultAt(g, s0, log + [e], w.got[k].at)
    {
      assert (log + [e])[..w.got[k].at] == log[..w.got[k].at];
    }
  }

  lemma GotMore(g: PmmSpec.Geometry, s0: PmmSpec.State, log: seq<PmmSpec.Event>, w: Worker, w': Worker, frame: nat)
    requires GotOk(g, s0, log, w) && w'.got == w.got + [Got(|log|, frame)]
    requires frame == PmmSpec.Alloc(g, PmmSpec.Run(g, s0, log)).1
    ensures GotOk(g, s0, log + [PmmSpec.AllocEv], w')
  {
    GotStays(g, s0, log, PmmSpec.AllocEv, w);
    assert (log + [PmmSpec.AllocEv])[..|log|] == log;
  }

  /** Inside, a thread has the pool to itself. */
  lemma AloneInside(g: PmmSpec.Geometry, s0: PmmSpec.State, s: System, i: nat)
    requires LocksOk(s) && PoolOk(g, s0, s) && i < |s.workers| && Inside(s.workers[i].phase)
    ensures PoolFor(g, Base(g, s0, s), s.pool, s.workers[i].phase)
    ensures forall j :: 0 <= j < |s.workers| && j != i ==> !Midway(s.workers[j].phase)
  {
    forall j | 0 <= j < |s.workers| && j != i ensures !Midway(s.workers[j].phase) {
      if Midway(s.workers[j].phase) {
        OneInside(s, i, j);
      }
    }
  }

  /** Only thread `i` has changed. */
  ghost predicate OnlyThread(s: System, s': System, i: nat) {
    && i < |s.workers| && |s'.workers| == |s.workers|
    && forall j :: 0 <= j < |s.workers| && j != i ==> s'.workers[j] == s.workers[j]
  }

  /** A step of thread `i` that leaves pool and log alone, outside the middle of a call. */
  lemma QuietOk(g: PmmSpec.Geometry, s0: PmmSpec.State, s: System, s': System, i: nat)
    requires SystemOk(g, s0, s) && OnlyThread(s, s', i) && LocksOk(s') && s'.pool == s.pool && s'.log == s.log
    requires !Midway(s.workers[i].phase) && !Midway(s'.workers[i].phase) && AsksForOwn(s'.workers[i])
    requires s'.workers[i].owned == s.workers[i].owned && s'.workers[i].got == s.workers[i].got
    ensures SystemOk(g, s0, s')
  {
    assert GotOk(g, s0, s.log, s.workers[i]);
    assert forall j :: 0 <= j < |s.workers| ==> (Midway(s'.workers[j].phase) <==> Midway(s.workers[j].phase));
  }

  /** A step of thread `i` in the middle of its call, after which the pool is as the phase says. */
  lemma MidwayOk(g: PmmSpec.Geometry, s0: PmmSpec.State, s: System, s': System, i: nat)
    requires SystemOk(g, s0, s) && OnlyThread(s, s', i) && LocksOk(s') && s'.log == s.log
    requires Inside(s.workers[i].phase) && Midway(s'.workers[i].phase)
    requires PoolFor(g, Base(g, s0, s), s'.pool, s'.workers[i].phase)
    requires s'.workers[i].owned == s.workers[i].owned && s'.workers[i].got == s.workers[i].got
    ensures SystemOk(g, s0, s')
  {
    AloneInside(g, s0, s, i);
    assert GotOk(g, s0, s.log, s.workers[i]);
  }

  lemma LoggedFrames(g: PmmSpec.Geometry, s0: PmmSpec.State, s: System, s': System, i: nat)
    requires FramesOk(g, s0, s) && OnlyThread(s, s', i) && Base(g, s0, s') == s'.pool
    requires s'.workers[i].phase.Leaving? && s'.workers[i].owned <= s'.pool.live
    requires forall j :: 0 <= j < |s.workers| && j != i ==>
      s.workers[j].owned <= s'.pool.live && s.workers[j].owned !! s'.workers[i].owned
    ensures FramesOk(g, s0, s')
  {
    forall j, k | 0 <= j < k < |s'.workers| ensures s'.workers[j].owned !! s'.workers[k].owned {
      if j != i && k != i {
        assert s.workers[j].owned !! s.workers[k].owned;
      }
    }
  }

  /** The step with which a call of thread `i` takes effect. */
  lemma LoggedOk(g: PmmSpec.Geometry, s0: PmmSpec.State, s: System, s': System, i: nat, e: PmmSpec.Event)
    requires SystemOk(g, s0, s) && OnlyThread(s, s', i) && LocksOk(s') && s'.log == s.log + [e]
    requires e.FreeEv? ==> PageBase(e.addr) in Base(g, s0, s).live
    requires Inside(s.workers[i].phase) && s'.workers[i].phase.Leaving? && s'.pool == PmmSpec.Step(g, Base(g, s0, s), e)
    requires s'.workers[i].owned <= s'.pool.live
    requires forall j :: 0 <= j < |s.workers| && j != i ==>
      s.workers[j].owned <= s'.pool.live && s.workers[j].owned !! s'.workers[i].owned
    requires GotOk(g, s0, s'.log, s'.workers[i])
    ensures SystemOk(g, s0, s')
  {
    LogGrows(g, s0, s.log, e);
    AloneInside(g, s0, s, i);
    forall j | 0 <= j < |s.workers| && j != i ensures GotOk(g, s0, s'.log, s'.workers[j]) {
      GotStays(g, s0, s.log, e, s.workers[j]);
    }
    LoggedFrames(g, s0, s, s', i);
  }

  /** `pmm_alloc` taken apart: the refill, the look at the stack, and the pop. */
  lemma AllocInSteps(g: PmmSpec.Geometry, base: PmmSpec.State)
    ensures var s1 := Feed(g, base);
      if s1.stk == [] then PmmSpec.Alloc(g, base) == (s1, PHYS_ADDR_NULL)
      else PmmSpec.Alloc(g, base) == (Pop(s1, s1.stk[|s1.stk| - 1]), s1.stk[|s1.stk| - 1])
  {
  }

  lemma QuietStep(g: PmmSpec.Geometry, s0: PmmSpec.State, s: System, t: Turn)
    requires SystemOk(g, s0, s) && t.thread < |s.workers|
    requires var p := s.workers[t.thread].phase; p.Idle? || p.Waiting? || p.Leaving?
    ensures SystemOk(g, s0, Step(g, s, t))
  {
    LocksStep(g, s, t);
    var i, s' := t.thread, Step(g, s, t);
    assert AsksForOwn(s.workers[i]);
    if s' != s {
      QuietOk(g, s0, s, s', i);
    }
  }

  /** Before its first step inside, a thread finds the pool as the log leaves it. */
  lemma OneMidway(g: PmmSpec.Geometry, s0: PmmSpec.State, s: System, i: nat)
    requires LocksOk(s) && PoolOk(g, s0, s) && i < |s.workers| && Inside(s.workers[i].phase)
    requires !Midway(s.workers[i].phase)
    ensures s.pool == Base(g, s0, s)
  {
    AloneInside(g, s0, s, i);
  }

  lemma FeedStep(g: PmmSpec.Geometry, s0: PmmSpec.State, s: System, t: Turn)
    requires SystemOk(g, s0, s) && t.thread < |s.workers|
    requires s.workers[t.thread].phase.Entered? && s.workers[t.thread].phase.req.AllocReq?
    ensures SystemOk(g, s0, Step(g, s, t))
  {
    LocksStep(g, s, t);
    AloneInside(g, s0, s, t.thread);
    OneMidway(g, s0, s, t.thread);
    MidwayOk(g, s0, s, Step(g, s, t), t.thread);
  }

  lemma LookStep(g: PmmSpec.Geometry, s0: PmmSpec.State, s: System, t: Turn)
    requires SystemOk(g, s0, s) && t.thread < |s.workers| && s.workers[t.thread].phase.Fed? && s.pool.stk != []
    ensures SystemOk(g, s0, Step(g, s, t))
  {
    LocksStep(g, s, t);
    AloneInside(g, s0, s, t.thread);
    MidwayOk(g, s0, s, Step(g, s, t), t.thread);
  }

  lemma OwnedApart(g: PmmSpec.Geometry, s0: PmmSpec.State, s: System, i: nat)
    requires FramesOk(g, s0, s) && i < |s.workers|
    ensures forall j :: 0 <= j < |s.workers| && j != i ==> s.workers[j].owned !! s.workers[i].owned
  {
  }

  lemma FailStep(g: PmmSpec.Geometry, s0: PmmSpec.State, s: System, t: Turn)
    requires SystemOk(g, s0, s) && t.thread < |s.workers| && s.workers[t.thread].phase.Fed? && s.pool.stk == []
    ensures SystemOk(g, s0, Step(g, s, t))
  {
    var i, s', base := t.thread, Step(g, s, t), Base(g, s0, s);
    LocksStep(g, s, t);
    AloneInside(g, s0, s, i);
    AllocInSteps(g, base);
    PmmSpec.RunKeeps(g, s0, s.log);
    PmmSpec.AllocMeaning(g, base);
    GotMore(g, s0, s.log, s.workers[i], s'.workers[i], PHYS_ADDR_NULL);
    OwnedApart(g, s0, s, i);
    LoggedOk(g, s0, s, s', i, PmmSpec.AllocEv);
  }

  /** A frame found on the stack is one. */
  lemma FrameReal(g: PmmSpec.Geometry, base: PmmSpec.State)
    requires PmmSpec.ValidGeometry(g) && PmmSpec.Owned(g, base) && Feed(g, base).stk != []
    ensures PmmSpec.Alloc(g, base).1 != PHYS_ADDR_NULL
  {
    PmmSpec.RefillKeeps(g, base);
    AllocInSteps(g, base);
    var stk := Feed(g, base).stk;
    assert stk[|stk| - 1] in PmmSpec.AllFrames(g) by {
      assert stk[|stk| - 1] in Elems(stk);
    }
    PmmSpec.FrameFacts(g, stk[|stk| - 1]);
  }

  lemma PopFrames(g: PmmSpec.Geometry, base: PmmSpec.State, s: System, s': System, i: nat, frame: nat)
    requires PmmSpec.ValidGeometry(g) && PmmSpec.Owned(g, base) && i < |s.workers| && |s'.workers| == |s.workers|
    requires s'.pool == PmmSpec.Alloc(g, base).0 && frame == PmmSpec.Alloc(g, base).1 != PHYS_ADDR_NULL
    requires s'.workers[i].owned == s.workers[i].owned + {frame}
    requires forall j :: 0 <= j < |s.workers| ==> s.workers[j].owned <= base.live
    requires forall j :: 0 <= j < |s.workers| && j != i ==> s.workers[j].owned !! s.workers[i].owned
    ensures s'.workers[i].owned <= s'.pool.live
    ensures forall j :: 0 <= j < |s.workers| && j != i ==>
      s.workers[j].owned <= s'.pool.live && s.workers[j].owned !! s'.workers[i].owned
  {
    PmmSpec.AllocMeaning(g, base);
  }

  lemma PopLogged(g: PmmSpec.Geometry, s0: PmmSpec.State, s: System, s': System, i: nat, base: PmmSpec.State,
                  frame: nat)
    requires SystemOk(g, s0, s) && OnlyThread(s, s', i) && LocksOk(s') && s'.log == s.log + [PmmSpec.AllocEv]
    requires base == Base(g, s0, s) && PmmSpec.Owned(g, base) && Inside(s.workers[i].phase)
    requires PoolFor(g, base, s.pool, Reading(frame)) && s'.pool == Pop(s.pool, frame)
    requires s'.workers[i] == Worker(Leaving, s.workers[i].owned + {frame}, s.workers[i].got + [Got(|s.log|, frame)])
    requires forall j :: 0 <= j < |s.workers| && j != i ==> s.workers[j].owned !! s.workers[i].owned
    ensures SystemOk(g, s0, s')
  {
    AllocInSteps(g, base);
    FrameReal(g, base);
    GotMore(g, s0, s.log, s.workers[i], s'.workers[i], frame);
    PopFrames(g, base, s, s', i, frame);
    LoggedOk(g, s0, s, s', i, PmmSpec.AllocEv);
  }

  lemma PopStep(g: PmmSpec.Geometry, s0: PmmSpec.State, s: System, t: Turn)
    requires SystemOk(g, s0, s) && t.thread < |s.workers| && s.workers[t.thread].phase.Reading?
    ensures SystemOk(g, s0, Step(g, s, t))
  {
    LocksStep(g, s, t);
    AloneInside(g, s0, s, t.thread);
    PmmSpec.RunKeeps(g, s0, s.log);
    OwnedApart(g, s0, s, t.thread);
    PopLogged(g, s0, s, Step(g, s, t), t.thread, Base(g, s0, s), s.workers[t.thread].phase.frame);
  }

  lemma FreeFrames(g: PmmSpec.Geometry, base: PmmSpec.State, s: System, s': System, i: nat, addr: nat)
    requires PmmSpec.ValidGeometry(g) && PmmSpec.Owned(g, base) && i < |s.workers| && |s'.workers| == |s.workers|
    requires s'.pool == PmmSpec.Free(g, base, addr) && PageBase(addr) in s.workers[i].owned
    requires s'.workers[i].owned == s.workers[i].owned - {PageBase(addr)}
    requires forall j :: 0 <= j < |s.workers| ==> s.workers[j].owned <= base.live
    requires forall j :: 0 <= j < |s.workers| && j != i ==> s.workers[j].owned !! s.workers[i].owned
    ensures s'.workers[i].owned <= s'.pool.live && PageBase(addr) in base.live
    ensures forall j :: 0 <= j < |s.workers| && j != i ==>
      s.workers[j].owned <= s'.pool.live && s.workers[j].owned !! s'.workers[i].owned
  {
    PmmSpec.FreeKeepsIff(g, base, addr);
  }

  lemma GotSame(g: PmmSpec.Geometry, s0: PmmSpec.State, log: seq<PmmSpec.Event>, w: Worker, w': Worker)
    requires GotOk(g, s0, log, w) && w'.got == w.got
    ensures GotOk(g, s0, log, w')
  {
  }

  lemma FreeLogged(g: PmmSpec.Geometry, s0: PmmSpec.State, s: System, s': System, i: nat, addr: nat)
    requires SystemOk(g, s0, s) && OnlyThread(s, s', i) && LocksOk(s') && s'.log == s.log + [PmmSpec.FreeEv(addr)]
    requires s.pool == Base(g, s0, s) && PmmSpec.Owned(g, s.pool) && Inside(s.workers[i].phase)
    requires PageBase(addr) in s.workers[i].owned && s'.pool == PmmSpec.Free(g, s.pool, addr)
    requires s'.workers[i] == Worker(Leaving, s.workers[i].owned - {PageBase(addr)}, s.workers[i].got)
    requires forall j :: 0 <= j < |s.workers| && j != i ==> s.workers[j].owned !! s.workers[i].owned
    ensures SystemOk(g, s0, s')
  {
    assert GotOk(g, s0, s.log, s.workers[i]);
    GotStays(g, s0, s.log, PmmSpec.FreeEv(addr), s.workers[i]);
    GotSame(g, s0, s'.log, s.workers[i], s'.workers[i]);
    FreeFrames(g, s.pool, s, s', i, addr);
    LoggedOk(g, s0, s, s', i, PmmSpec.FreeEv(addr));
  }

  lemma FreeStep(g: PmmSpec.Geometry, s0: PmmSpec.State, s: System, t: Turn)
    requires SystemOk(g, s0, s) && t.thread < |s.workers|
    requires s.workers[t.thread].phase.Entered? && s.workers[t.thread].phase.req.FreeReq?
    ensures SystemOk(g, s0, Step(g, s, t))
  {
    LocksStep(g, s, t);
    OneMidway(g, s0, s, t.thread);
    PmmSpec.RunKeeps(g, s0, s.log);
    OwnedApart(g, s0, s, t.thread);
    assert AsksForOwn(s.workers[t.thread]);
    FreeLogged(g, s0, s, Step(g, s, t), t.thread, s.workers[t.thread].phase.req.addr);
  }

  lemma StepOk(g: PmmSpec.Geometry, s0: PmmSpec.State, s: System, t: Turn)
    requires SystemOk(g, s0, s)
    ensures SystemOk(g, s0, Step(g, s, t))
  {
    if t.thread < |s.workers| {
      match s.workers[t.thread].phase
      case Idle => QuietStep(g, s0, s, t);
      case Waiting(_) => QuietStep(g, s0, s, t);
      case Leaving => QuietStep(g, s0, s, t);
      case Entered(req) =>
        if req.AllocReq? {
          FeedStep(g, s0, s, t);
        } else {
          FreeStep(g, s0, s, t);
        }
      case Fed(_) =>
        if s.pool.stk == [] {
          FailStep(g, s0, s, t);
        } else {
          LookStep(g, s0, s, t);
        }
      case Reading(_) => PopStep(g, s0, s, t);
    }
  }

  lemma StartIsOk(g: PmmSpec.Geometry, s0: PmmSpec.State, n: nat)
    requires PmmSpec.ValidGeometry(g) && PmmSpec.Owned(g, s0)
    ensures SystemOk(g, s0, Start(s0, n))
  {
    Locks.StartOk(Start(s0, n).locks);
  }

  lemma {:induction false} RunOk(g: PmmSpec.Geometry, s0: PmmSpec.State, s: System, turns: seq<Turn>)
    requires SystemOk(g, s0, s)
    ensures SystemOk(g, s0, Run(g, s, turns)) && |Run(g, s, turns).workers| == |s.workers|
    decreases |turns|
  {
    if turns == [] {
    } else {
      StepOk(g, s0, s, turns[0]);
      LocksStep(g, s, turns[0]);
      RunOk(g, s0, Step(g, s, turns[0]), turns[1..]);
    }
  }

  // ----- what that means

  /**
   Any number of threads, any calls, any interleaving of their steps: the calls that have taken effect make a legal run
   of the sequential allocator; each allocation returned what it returns there; whenever no call is in its middle the
   pool is the one that run leaves.
   */
  lemma CallsMakeARun(g: PmmSpec.Geometry, s0: PmmSpec.State, n: nat, turns: seq<Turn>)
    requires PmmSpec.ValidGeometry(g) && PmmSpec.Owned(g, s0)
    ensures var s := Run(g, Start(s0, n), turns);
      && |s.workers| == n && PmmSpec.Legal(g, s0, s.log)
      && (forall i, k :: 0 <= i < n && 0 <= k < |s.workers[i].got| ==>
            && s.workers[i].got[k].at < |s.log|
            && s.workers[i].got[k].frame == PmmSpec.ResultAt(g, s0, s.log, s.workers[i].got[k].at))
      && ((forall i :: 0 <= i < n ==> !Midway(s.workers[i].phase)) ==> s.pool == PmmSpec.Run(g, s0, s.log))
  {
    StartIsOk(g, s0, n);
    RunOk(g, s0, Start(s0, n), turns);
    var s := Run(g, Start(s0, n), turns);
    forall i, k | 0 <= i < n && 0 <= k < |s.workers[i].got|
      ensures s.workers[i].got[k].at < |s.log|
      ensures s.workers[i].got[k].frame == PmmSpec.ResultAt(g, s0, s.log, s.workers[i].got[k].at)
    {
      assert GotOk(g, s0, s.log, s.workers[i]);
    }
  }

  /** No two threads ever own the same frame, in the middle of calls or outside. */
  lemma FramesApart(g: PmmSpec.Geometry, s0: PmmSpec.State, n: nat, turns: seq<Turn>, i: nat, j: nat)
    requires PmmSpec.ValidGeometry(g) && PmmSpec.Owned(g, s0) && i < n && j < n && i != j
    ensures var s := Run(g, Start(s0, n), turns);
      |s.workers| == n && s.workers[i].owned !! s.workers[j].owned
  {
    StartIsOk(g, s0, n);
    RunOk(g, s0, Start(s0, n), turns);
    OwnedApart(g, s0, Run(g, Start(s0, n), turns), i);
    OwnedApart(g, s0, Run(g, Start(s0, n), turns), j);
  }

  /** The acts of a worker's call are those of `pmm_alloc` and `pmm_free`. */
  lemma ActsOfCall(k: nat)
    ensures PLAIN == Locks.PmmFree() == Locks.PmmAlloc(true, k)
    ensures [Locks.Acquire(Locks.PmmLock)] + LAST == PLAIN
    ensures [Locks.Acquire(Locks.PmmLock)] + (Locks.Println(k) + LAST) == Locks.PmmAlloc(false, k)
  {
  }

  /** Whoever works on the pool holds the lock, alone. */
  lemma WorkUnderLock(g: PmmSpec.Geometry, s0: PmmSpec.State, n: nat, turns: seq<Turn>, i: nat, j: nat)
    requires PmmSpec.ValidGeometry(g) && PmmSpec.Owned(g, s0) && i < n && j < n
    ensures var s := Run(g, Start(s0, n), turns);
      && |s.workers| == |s.locks.threads| == n
      && (Inside(s.workers[i].phase) ==>
            Locks.PmmLock in s.locks.threads[i].held && Locks.ByteAt(s.locks, Locks.PmmLock) == 1)
      && (Inside(s.workers[i].phase) && Inside(s.workers[j].phase) ==> i == j)
  {
    var s := Run(g, Start(s0, n), turns);
    StartIsOk(g, s0, n);
    RunOk(g, s0, Start(s0, n), turns);
    if Inside(s.workers[i].phase) {
      assert Locks.Taken(s.locks, Locks.PmmLock);
      if Inside(s.workers[j].phase) {
        OneInside(s, i, j);
      }
    }
  }

  // ----- a call that nobody disturbs

  /** The next `k` turns go to one thread. */
  function Alone(t: Turn, k: nat): seq<Turn> {
    seq(k, _ => t)
  }

  lemma AloneStep(g: PmmSpec.Geometry, s: System, t: Turn, k: nat)
    requires 0 < k
    ensures Run(g, s, Alone(t, k)) == Run(g, Step(g, s, t), Alone(t, k - 1))
  {
    assert Alone(t, k)[1..] == Alone(t, k - 1);
  }

  lemma AloneTwice(g: PmmSpec.Geometry, s: System, t: Turn, k: nat)
    requires 2 <= k
    ensures Run(g, s, Alone(t, k)) == Run(g, Step(g, Step(g, s, t), t), Alone(t, k - 2))
  {
    AloneStep(g, s, t, k);
    AloneStep(g, Step(g, s, t), t, k - 1);
  }

  lemma AloneEnds(g: PmmSpec.Geometry, s: System, t: Turn)
    ensures Run(g, s, Alone(t, 0)) == s
  {
  }

  /** Thread `i` is idle and may take the lock. */
  ghost predicate MayEnter(s: System, i: nat) {
    && i < |s.workers| && |s.workers| == |s.locks.threads| && s.workers[i].phase.Idle?
    && s.locks.threads[i] == Locks.Thread([], {}, {}) && Locks.ByteAt(s.locks, Locks.PmmLock) == 0
  }

  /** Asking and taking the lock: after two turns the thread is inside, and nothing else has changed. */
  lemma Enters(g: PmmSpec.Geometry, s: System, t: Turn)
    requires MayEnter(s, t.thread) && (t.req.FreeReq? ==> PageBase(t.req.addr) in s.workers[t.thread].owned)
    ensures var i, s' := t.thread, Step(g, Step(g, s, t), t);
      && s'.pool == s.pool && s'.log == s.log && |s'.locks.threads| == |s.workers|
      && s'.workers == s.workers[i := s.workers[i].(phase := Entered(t.req))]
      && s'.locks.threads[i] == Locks.Thread(LAST, {Locks.PmmLock}, {})
      && Locks.ByteAt(s'.locks, Locks.PmmLock) == 1
  {
    PlainDisciplined();
  }

  /** Giving the lock back. */
  lemma Leaves(g: PmmSpec.Geometry, s: System, t: Turn)
    requires t.thread < |s.workers| == |s.locks.threads| && s.workers[t.thread].phase.Leaving?
    requires s.locks.threads[t.thread] == Locks.Thread(LAST, {Locks.PmmLock}, {})
    requires Locks.ByteAt(s.locks, Locks.PmmLock) == 1
    ensures var i, s' := t.thread, Step(g, s, t);
      && s'.pool == s.pool && s'.log == s.log && s'.workers == s.workers[i := s.workers[i].(phase := Idle)]
      && MayEnter(s', i)
  {
    assert LAST[1..] == [];
    assert {Locks.PmmLock} - {Locks.PmmLock} == {};
  }

  /** An undisturbed `pmm_free` releases the frame, once. */
  lemma FreeAlone(g: PmmSpec.Geometry, s: System, t: Turn)
    requires MayEnter(s, t.thread) && t.req.FreeReq? && PageBase(t.req.addr) in s.workers[t.thread].owned
    ensures var i, w, s' := t.thread, s.workers[t.thread], Run(g, s, Alone(t, 4));
      && s'.pool == PmmSpec.Free(g, s.pool, t.req.addr) && s'.log == s.log + [PmmSpec.FreeEv(t.req.addr)]
      && s'.workers == s.workers[i := w.(owned := w.owned - {PageBase(t.req.addr)})]
      && MayEnter(s', i)
  {
    var s2 := Step(g, Step(g, s, t), t);
    Enters(g, s, t);
    Leaves(g, Step(g, s2, t), t);
    AloneTwice(g, s, t, 4);
    AloneTwice(g, s2, t, 2);
    AloneEnds(g, Step(g, Step(g, s2, t), t), t);
  }

  /** Refilling and reading the top of the stack. */
  lemma FeedsAndReads(g: PmmSpec.Geometry, s: System, t: Turn, k: nat)
    requires t.thread < |s.workers| == |s.locks.threads| && s.workers[t.thread].phase == Entered(AllocReq(k))
    requires PmmSpec.Alloc(g, s.pool).1 != PHYS_ADDR_NULL
    ensures var i, w, p, s' := t.thread, s.workers[t.thread], PmmSpec.Alloc(g, s.pool).1,
      Step(g, Step(g, Step(g, s, t), t), t);
      && s'.locks == s.locks && s'.pool == PmmSpec.Alloc(g, s.pool).0 && s'.log == s.log + [PmmSpec.AllocEv]
      && s'.workers == s.workers[i := Worker(Leaving, w.owned + {p}, w.got + [Got(|s.log|, p)])]
  {
  }

  /** An undisturbed `pmm_alloc` that finds a frame: it is the thread's, and the allocator's next. */
  lemma AllocAlone(g: PmmSpec.Geometry, s: System, t: Turn)
    requires MayEnter(s, t.thread) && t.req.AllocReq? && PmmSpec.Alloc(g, s.pool).1 != PHYS_ADDR_NULL
    ensures var i, w, p, s' := t.thread, s.workers[t.thread], PmmSpec.Alloc(g, s.pool).1, Run(g, s, Alone(t, 6));
      && s'.pool == PmmSpec.Alloc(g, s.pool).0 && s'.log == s.log + [PmmSpec.AllocEv]
      && s'.workers == s.workers[i := Worker(Idle, w.owned + {p}, w.got + [Got(|s.log|, p)])]
      && MayEnter(s', i)
  {
    var s2 := Step(g, Step(g, s, t), t);
    var s5 := Step(g, Step(g, Step(g, s2, t), t), t);
    Enters(g, s, t);
    FeedsAndReads(g, s2, t, t.req.pieces);
    Leaves(g, s5, t);
    AloneTwice(g, s, t, 6);
    AloneTwice(g, s2, t, 4);
    AloneTwice(g, Step(g, Step(g, s2, t), t), t, 2);
    AloneEnds(g, Step(g, s5, t), t);
  }

  lemma FeedsAndFails(g: PmmSpec.Geometry, s: System, t: Turn, k: nat)
    requires t.thread < |s.workers| == |s.locks.threads| && s.workers[t.thread].phase == Entered(AllocReq(k))
    requires s.pool.stk == [] && PmmSpec.Refill(g, s.pool) == s.pool
    ensures var i, w, s' := t.thread, s.workers[t.thread], Step(g, Step(g, s, t), t);
      && s'.pool == s.pool && s'.log == s.log + [PmmSpec.AllocEv] && |s'.locks.threads| == |s.workers|
      && s'.workers == s.workers[i := Worker(Leaving, w.owned, w.got + [Got(|s.log|, PHYS_ADDR_NULL)])]
      && s'.locks.threads[i].todo == Locks.Println(k) + LAST
  {
    var s1 := Step(g, s, t);
    assert s1.pool == s.pool && s1.locks == s.locks && s1.log == s.log;
    assert s1.workers == s.workers[t.thread := s.workers[t.thread].(phase := Fed(k))];
  }

  /** One that finds none returns null and leaves the pool as it is, with its message still to print under the lock. */
  lemma FailAlone(g: PmmSpec.Geometry, s: System, t: Turn)
    requires MayEnter(s, t.thread) && t.req.AllocReq? && s.pool.stk == [] && PmmSpec.Refill(g, s.pool) == s.pool
    ensures var i, w, s' := t.thread, s.workers[t.thread], Run(g, s, Alone(t, 4));
      && s'.pool == s.pool && s'.log == s.log + [PmmSpec.AllocEv] && |s'.locks.threads| == |s.workers|
      && s'.workers == s.workers[i := Worker(Leaving, w.owned, w.got + [Got(|s.log|, PHYS_ADDR_NULL)])]
      && s'.locks.threads[i].todo == Locks.Println(t.req.pieces) + LAST
  {
    var s2 := Step(g, Step(g, s, t), t);
    Enters(g, s, t);
    FeedsAndFails(g, s2, t, t.req.pieces);
    AloneTwice(g, s, t, 4);
    AloneTwice(g, s2, t, 2);
    AloneEnds(g, Step(g, Step(g, s2, t), t), t);
  }
}
