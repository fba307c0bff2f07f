/**
 The byte spin lock of aatomic.S under any number of threads, and the order in which the kernel nests its locks.
 Every compare-and-swap is one step; a failed one leaves everything as it is and is tried again.
 */
module Locks {
  import opened Common
  import Blkdev

  /** The mutex bytes of the kernel, from the outermost to the innermost. */
  datatype Lock =
    | CacheLock(cache: nat)
    | DevLock(mutex: nat)
    | AtaLock
    | HeapLock
    | PmmLock
    | PrintLock
    | SerialLock

  function Rank(l: Lock): (r: nat)
    ensures r <= 6
  {
    match l
    case CacheLock(_) => 0
    case DevLock(_) => 1
    case AtaLock => 2
    case HeapLock => 3
    case PmmLock => 4
    case PrintLock => 5
    case SerialLock => 6
  }

  /** `Begin` and `End` bracket a call of a device driver under the mutex it is made with. */
  datatype Act = Acquire(lock: Lock) | Release(lock: Lock) | Begin(lock: Lock) | End(lock: Lock)

  /** What a thread still has to do, the locks it has taken and not given back, and the driver calls it is in. */
  datatype Thread = Thread(todo: seq<Act>, held: set<Lock>, busy: set<Lock>)

  /** The bytes that are not zero, and the threads. */
  datatype State = State(bytes: map<Lock, nat>, threads: seq<Thread>)

  function ByteAt(s: State, l: Lock): nat {
    if l in s.bytes then s.bytes[l] else 0
  }

  /** `lock cmpxchgb`: whether the byte was `expected`, and the bytes after it. */
  function CompareAndSwap(s: State, l: Lock, expected: nat, new_: nat): (bool, map<Lock, nat>) {
    if ByteAt(s, l) == expected then (true, s.bytes[l := new_]) else (false, s.bytes)
  }

  /** The thread after the act at the front of its list has succeeded. */
  function Advance(t: Thread): Thread
    requires t.todo != []
  {
    match t.todo[0]
    case Acquire(l) => Thread(t.todo[1..], t.held + {l}, t.busy)
    case Release(l) => Thread(t.todo[1..], t.held - {l}, t.busy)
    case Begin(l) => Thread(t.todo[1..], t.held, t.busy + {l})
    case End(l) => Thread(t.todo[1..], t.held, t.busy - {l})
  }

  /** One step of thread `i`: `aatomic_set` swaps 0 for 1, `aatomic_clr` swaps 1 for 0. */
  function Step(s: State, i: nat): (s': State)
    ensures |s'.threads| == |s.threads|
  {
    if i >= |s.threads| || s.threads[i].todo == [] then s
    else
      var t := s.threads[i];
      var (ok, bytes) := match t.todo[0]
        case Acquire(l) => CompareAndSwap(s, l, 0, 1)
        case Release(l) => CompareAndSwap(s, l, 1, 0)
        case _ => (true, s.bytes);
      if ok then State(bytes, s.threads[i := Advance(t)]) else s
  }

  function Run(s: State, schedule: seq<nat>): (s': State)
    ensures |s'.threads| == |s.threads|
    decreases |schedule|
  {
    if schedule == [] then s else Run(Step(s, schedule[0]), schedule[1..])
  }

  // ----- lock discipline

  predicate Allowed(held: set<Lock>, busy: set<Lock>, a: Act) {
    match a
    case Acquire(l) => forall h :: h in held ==> Rank(h) < Rank(l)
    case Release(l) => l in held && l !in busy
    case Begin(l) => l in held && l !in busy
    case End(l) => l in busy
  }

  /**
   Follows a thread's acts: locks are taken in strictly ascending rank, only held locks are released, and not in
   the middle of a driver call made under them; a driver is called under its mutex. None when a rule is broken.
   */
  function Exec(held: set<Lock>, busy: set<Lock>, p: seq<Act>): Option<(set<Lock>, set<Lock>)>
    decreases |p|
  {
    if p == [] then Some((held, busy))
    else if !Allowed(held, busy, p[0]) then None
    else
      var t := Advance(Thread(p, held, busy));
      Exec(t.held, t.busy, p[1..])
  }

  /** The thread can go on to its end without breaking a rule, and ends holding nothing. */
  predicate Disciplined(t: Thread) {
    t.busy <= t.held && Exec(t.held, t.busy, t.todo) == Some(({}, {}))
  }

  ghost predicate Taken(s: State, l: Lock) {
    exists i :: 0 <= i < |s.threads| && l in s.threads[i].held
  }

  /** A byte is 1 exactly when some thread holds the lock, 0 otherwise, and no two threads hold the same. */
  ghost predicate Inv(s: State) {
    && (forall i :: 0 <= i < |s.threads| ==> Disciplined(s.threads[i]))
    && (forall l :: ByteAt(s, l) == if Taken(s, l) then 1 else 0)
    && (forall i, j :: 0 <= i < j < |s.threads| ==> s.threads[i].held !! s.threads[j].held)
  }

  /** Threads that have not started, with all bytes zero. */
  lemma StartOk(s: State)
    requires forall i :: 0 <= i < |s.threads| ==> s.threads[i].held == {} && Disciplined(s.threads[i])
    requires forall l :: ByteAt(s, l) == 0
    ensures Inv(s)
  {
  }

  lemma AdvanceKeeps(t: Thread)
    requires Disciplined(t) && t.todo != []
    ensures Disciplined(Advance(t)) && Allowed(t.held, t.busy, t.todo[0])
  {
  }

  /** The only lock whose holders change is the one of the act. */
  lemma TakenAfter(s: State, i: nat, t: Thread, l: Lock)
    requires i < |s.threads| && (l in t.held <==> l in s.threads[i].held)
    ensures Taken(s.(threads := s.threads[i := t]), l) <==> Taken(s, l)
  {
    var s' := s.(threads := s.threads[i := t]);
    if Taken(s, l) {
      var k :| 0 <= k < |s.threads| && l in s.threads[k].held;
      assert l in s'.threads[k].held;
    }
    if Taken(s', l) {
      var k :| 0 <= k < |s'.threads| && l in s'.threads[k].held;
      assert l in s.threads[k].held;
    }
  }

  /** What the step of a thread does when its compare-and-swap succeeds. */
  ghost predicate Succeeds(s: State, i: nat) {
    && i < |s.threads| && s.threads[i].todo != []
    && match s.threads[i].todo[0]
       case Acquire(l) => ByteAt(s, l) == 0
       case Release(l) => ByteAt(s, l) == 1
       case _ => true
  }

  /** No thread holds a lock whose byte is 0. */
  lemma FreeIsUntaken(s: State, l: Lock)
    requires Inv(s) && ByteAt(s, l) == 0
    ensures forall i :: 0 <= i < |s.threads| ==> l !in s.threads[i].held
  {
    assert !Taken(s, l);
  }

  lemma AcquireKeeps(s: State, i: nat, l: Lock)
    requires Inv(s) && i < |s.threads| && s.threads[i].todo != [] && s.threads[i].todo[0] == Acquire(l)
      && ByteAt(s, l) == 0
    ensures Inv(Step(s, i))
  {
    var t := s.threads[i];
    var s' := Step(s, i);
    AdvanceKeeps(t);
    FreeIsUntaken(s, l);
    forall m ensures ByteAt(s', m) == if Taken(s', m) then 1 else 0 {
      if m == l {
        assert l in s'.threads[i].held;
      } else {
        TakenAfter(s, i, Advance(t), m);
        assert Taken(s', m) <==> Taken(s.(threads := s.threads[i := Advance(t)]), m);
      }
    }
  }

  /** A holder is the only one, so the lock is free of holders after it lets go. */
  lemma ReleaseKeeps(s: State, i: nat, l: Lock)
    requires Inv(s) && i < |s.threads| && s.threads[i].todo != [] && s.threads[i].todo[0] == Release(l)
    ensures ByteAt(s, l) == 1 && Inv(Step(s, i))
  {
    var t := s.threads[i];
    AdvanceKeeps(t);
    assert l in s.threads[i].held;
    assert Taken(s, l);
    var s' := Step(s, i);
    forall m ensures ByteAt(s', m) == if Taken(s', m) then 1 else 0 {
      if m == l {
        forall k | 0 <= k < |s'.threads| ensures l !in s'.threads[k].held {
          assert k < i ==> s.threads[k].held !! s.threads[i].held;
          assert i < k ==> s.threads[i].held !! s.threads[k].held;
        }
      } else {
        TakenAfter(s, i, Advance(t), m);
        assert Taken(s', m) <==> Taken(s.(threads := s.threads[i := Advance(t)]), m);
      }
    }
  }

  lemma MarkKeeps(s: State, i: nat)
    requires Inv(s) && i < |s.threads| && s.threads[i].todo != []
    requires s.threads[i].todo[0].Begin? || s.threads[i].todo[0].End?
    ensures Inv(Step(s, i))
  {
    var t := s.threads[i];
    AdvanceKeeps(t);
    var s' := Step(s, i);
    forall m ensures ByteAt(s', m) == if Taken(s', m) then 1 else 0 {
      TakenAfter(s, i, Advance(t), m);
      assert Taken(s', m) <==> Taken(s.(threads := s.threads[i := Advance(t)]), m);
    }
  }

  /** Every step, of whichever thread, keeps the bytes true. */
  lemma StepKeeps(s: State, i: nat)
    requires Inv(s)
    ensures Inv(Step(s, i))
  {
    if Succeeds(s, i) {
      var t := s.threads[i];
      AdvanceKeeps(t);
      match t.todo[0] {
        case Acquire(l) => AcquireKeeps(s, i, l);
        case Release(l) => ReleaseKeeps(s, i, l);
        case Begin(_) => MarkKeeps(s, i);
        case End(_) => MarkKeeps(s, i);
      }
    }
  }

  lemma {:induction false} RunKeeps(s: State, schedule: seq<nat>)
    requires Inv(s)
    ensures Inv(Run(s, schedule))
    decreases |schedule|
  {
    if schedule == [] {
    } else {
      StepKeeps(s, schedule[0]);
      RunKeeps(Step(s, schedule[0]), schedule[1..]);
    }
  }

  // ----- mutual exclusion

  lemma OneHolder(s: State, l: Lock, i: nat, j: nat)
    requires Inv(s) && i < |s.threads| && j < |s.threads| && l in s.threads[i].held && l in s.threads[j].held
    ensures i == j
  {
  }

  /** The holders of a lock. */
  ghost function Holders(s: State, l: Lock): set<nat> {
    set i | 0 <= i < |s.threads| && l in s.threads[i].held
  }

  lemma HoldersAreByte(s: State, l: Lock)
    requires Inv(s)
    ensures ByteAt(s, l) <= 1 && |Holders(s, l)| == ByteAt(s, l)
  {
    if Taken(s, l) {
      var i :| 0 <= i < |s.threads| && l in s.threads[i].held;
      forall k | k in Holders(s, l) ensures k == i {
        OneHolder(s, l, i, k);
      }
      assert Holders(s, l) == {i};
    } else {
      assert Holders(s, l) == {};
    }
  }

  /**
   In every reachable state, under every schedule: the byte is 1 exactly when one thread holds the lock, it is 0
   exactly when none does, and there is no other value and no second holder.
   */
  lemma MutualExclusion(s: State, schedule: seq<nat>, l: Lock)
    requires Inv(s)
    ensures var s' := Run(s, schedule);
      && ByteAt(s', l) <= 1
      && |Holders(s', l)| == ByteAt(s', l)
  {
    RunKeeps(s, schedule);
    HoldersAreByte(Run(s, schedule), l);
  }

  /** A holder's release succeeds at the first try. */
  lemma ReleaseAtOnce(s: State, i: nat)
    requires Inv(s) && i < |s.threads| && s.threads[i].todo != [] && s.threads[i].todo[0].Release?
    ensures Succeeds(s, i) && Step(s, i).threads[i].todo == s.threads[i].todo[1..]
    ensures ByteAt(Step(s, i), s.threads[i].todo[0].lock) == 0
  {
    ReleaseKeeps(s, i, s.threads[i].todo[0].lock);
  }

  /** Driver calls under one mutex never overlap. */
  lemma DriverExclusive(s: State, schedule: seq<nat>, l: Lock, i: nat, j: nat)
    requires Inv(s) && i < |s.threads| && j < |s.threads|
    requires var s' := Run(s, schedule); l in s'.threads[i].busy && l in s'.threads[j].busy
    ensures i == j
  {
    var s' := Run(s, schedule);
    RunKeeps(s, schedule);
    assert s'.threads[i].busy <= s'.threads[i].held && s'.threads[j].busy <= s'.threads[j].held;
    OneHolder(s', l, i, j);
  }

  // ----- progress

  /** A thread that holds something has something left to do. */
  lemma HolderUnfinished(t: Thread)
    requires Disciplined(t) && t.held != {}
    ensures t.todo != []
  {
  }

  /**
   From a thread that waits for a lock, along the holders, to a thread whose next step succeeds: every hop goes to
   a lock of higher rank.
   */
  lemma {:induction false} FindRunnable(s: State, i: nat) returns (k: nat)
    requires Inv(s) && i < |s.threads| && s.threads[i].todo != []
    ensures Succeeds(s, k)
    decreases if s.threads[i].todo[0].Acquire? then 7 - Rank(s.threads[i].todo[0].lock) else 0
  {
    var t := s.threads[i];
    AdvanceKeeps(t);
    if Succeeds(s, i) {
      k := i;
    } else if t.todo[0].Release? {
      ReleaseAtOnce(s, i);
      k := i;
    } else {
      var l := t.todo[0].lock;
      assert Taken(s, l);
      var j :| 0 <= j < |s.threads| && l in s.threads[j].held;
      HolderUnfinished(s.threads[j]);
      AdvanceKeeps(s.threads[j]);
      k := FindRunnable(s, j);
    }
  }

  ghost predicate Finished(s: State) {
    forall i :: 0 <= i < |s.threads| ==> s.threads[i].todo == []
  }

  /** No deadlock: while some thread is unfinished, some thread's next step succeeds. */
  lemma DeadlockFree(s: State, schedule: seq<nat>) returns (k: nat)
    requires Inv(s) && !Finished(Run(s, schedule))
    ensures Succeeds(Run(s, schedule), k)
  {
    var s' := Run(s, schedule);
    RunKeeps(s, schedule);
    var i :| 0 <= i < |s'.threads| && s'.threads[i].todo != [];
    k := FindRunnable(s', i);
  }

  /** The acts all threads still have before them. */
  function Left(ts: seq<Thread>): nat {
    if ts == [] then 0 else Left(ts[..|ts| - 1]) + |ts[|ts| - 1].todo|
  }

  lemma {:induction false} LeftUpdate(ts: seq<Thread>, i: nat, t: Thread)
    requires i < |ts|
    ensures Left(ts[i := t]) == Left(ts) - |ts[i].todo| + |t.todo|
  {
    var n := |ts| - 1;
    if i == n {
      assert ts[i := t][..n] == ts[..n];
    } else {
      assert ts[i := t][..n] == ts[..n][i := t];
      LeftUpdate(ts[..n], i, t);
    }
  }

  /** A step that succeeds takes one act off the total; any other step changes nothing. */
  lemma StepCounts(s: State, i: nat)
    ensures Succeeds(s, i) ==> Left(Step(s, i).threads) == Left(s.threads) - 1
    ensures !Succeeds(s, i) ==> Step(s, i) == s
  {
    if Succeeds(s, i) {
      LeftUpdate(s.threads, i, Advance(s.threads[i]));
    }
  }

  lemma {:induction false} NothingLeft(ts: seq<Thread>)
    ensures Left(ts) == 0 <==> forall i :: 0 <= i < |ts| ==> ts[i].todo == []
  {
    if ts == [] {
    } else {
      var n := |ts| - 1;
      NothingLeft(ts[..n]);
      assert forall i :: 0 <= i < n ==> ts[..n][i] == ts[i];
    }
  }

  /** From every reachable state the threads can all finish, in as many steps as there are acts left. */
  lemma {:induction false} CanFinish(s: State) returns (schedule: seq<nat>)
    requires Inv(s)
    ensures |schedule| == Left(s.threads) && Finished(Run(s, schedule))
    decreases Left(s.threads)
  {
    NothingLeft(s.threads);
    if Left(s.threads) == 0 {
      schedule := [];
    } else {
      var i :| 0 <= i < |s.threads| && s.threads[i].todo != [];
      var k := FindRunnable(s, i);
      StepCounts(s, k);
      StepKeeps(s, k);
      var rest := CanFinish(Step(s, k));
      schedule := [k] + rest;
    }
  }

  /** How many steps of a schedule succeed. */
  function Successes(s: State, schedule: seq<nat>): nat
    decreases |schedule|
  {
    if schedule == [] then 0
    else (if Step(s, schedule[0]) == s then 0 else 1) + Successes(Step(s, schedule[0]), schedule[1..])
  }

  /** However the threads are scheduled, exactly the acts that disappear have been done: no work is done twice. */
  lemma {:induction false} SuccessesBounded(s: State, schedule: seq<nat>)
    ensures Successes(s, schedule) + Left(Run(s, schedule).threads) == Left(s.threads)
    decreases |schedule|
  {
    if schedule == [] {
    } else {
      StepCounts(s, schedule[0]);
      SuccessesBounded(Step(s, schedule[0]), schedule[1..]);
    }
  }

  // ----- what the kernel's calls do with locks

  /** `body` between taking and giving back a lock. */
  function Under(l: Lock, body: seq<Act>): seq<Act> {
    [Acquire(l)] + body + [Release(l)]
  }

  /** `sp_write_ch` and `sp_write_str` */
  function SerialWrite(): seq<Act> {
    Under(SerialLock, [])
  }

  function Times(n: nat, p: seq<Act>): seq<Act> {
    if n == 0 then [] else Times(n - 1, p) + p
  }

  /** `ku_println` of a message in `k` pieces: the line end is written after the print lock is given back. */
  function Println(k: nat): seq<Act> {
    Under(PrintLock, Times(k, SerialWrite())) + SerialWrite()
  }

  /** `pmm_alloc` */
  function PmmAlloc(found: bool, k: nat): seq<Act> {
    Under(PmmLock, if found then [] else Println(k))
  }

  /** `pmm_free` */
  function PmmFree(): seq<Act> {
    Under(PmmLock, [])
  }

  /** What `pmm_alloc` came back with: a frame, or nothing and a message in `pieces`. */
  datatype FrameResult = Found | NoFrame(pieces: nat)

  /** The calls of `pmm_alloc` for heap pages and for the page tables they need. */
  function PmmAllocs(frames: seq<FrameResult>): seq<Act> {
    if frames == [] then []
    else
      var last := frames[|frames| - 1];
      PmmAllocs(frames[..|frames| - 1]) + PmmAlloc(last.Found?, if last.Found? then 0 else last.pieces)
  }

  /** A message, if there is one. */
  function ErrorLine(error: Option<nat>): seq<Act> {
    match error
    case None => []
    case Some(k) => Println(k)
  }

  /** `kheap_alloc`: frames for its pages and their tables, and a message when it fails. */
  function KheapAlloc(frames: seq<FrameResult>, error: Option<nat>): seq<Act> {
    Under(HeapLock, PmmAllocs(frames) + ErrorLine(error))
  }

  datatype AtaEnd = Nothing | TooMany(pieces: nat) | Done | Failed(pieces: nat)

  /** `ata_pio_dev_rd` */
  function AtaRead(end: AtaEnd): seq<Act> {
    match end
    case Nothing => []
    case TooMany(k) => Println(k)
    case Done => Under(AtaLock, [])
    case Failed(k) => Under(AtaLock, Println(k))
  }

  datatype RdEnd = OutOfRange(pieces: nat) | Driver(ata: AtaEnd)

  /** What `blkdev_rd` does under its mutex. */
  function RdBody(l: Lock, end: RdEnd): seq<Act> {
    match end
    case OutOfRange(k) => Println(k)
    case Driver(ata) => [Begin(l)] + AtaRead(ata) + [End(l)]
  }

  /** `blkdev_rd` */
  function BlkdevRd(d: Blkdev.Dev, end: RdEnd): seq<Act> {
    var l := DevLock(Blkdev.RdMutex(d));
    Under(l, RdBody(l, end))
  }

  datatype CacheEnd =
    | Hit
    | Miss(rd: RdEnd, error: Option<nat>)
    | Cross(frames: seq<FrameResult>, heapError: Option<nat>, rd: RdEnd, error: Option<nat>)

  /** What `blk_cache_rd` does under the cache's lock. */
  function CacheBody(d: Blkdev.Dev, end: CacheEnd): seq<Act> {
    match end
    case Hit => []
    case Miss(rd, error) => BlkdevRd(d, rd) + ErrorLine(error)
    case Cross(frames, heapError, rd, error) => KheapAlloc(frames, heapError) + BlkdevRd(d, rd) + ErrorLine(error)
  }

  /** `blk_cache_rd` of at least one byte */
  function CacheRd(cache: nat, d: Blkdev.Dev, end: CacheEnd): seq<Act> {
    Under(CacheLock(cache), CacheBody(d, end))
  }

  /** `blkdev_mk_part`: every way out prints one line, under the mutex unless the device is a partition. */
  function MkPart(d: Blkdev.Dev, k: nat): seq<Act> {
    if d.part then Println(k) else Under(DevLock(Blkdev.PartMutex(d)), Println(k))
  }

  /** The calls a thread may make, with all they can turn into. */
  datatype Call =
    | PrintCall(pieces: nat)
    | PmmAllocCall(found: bool, pieces: nat)
    | PmmFreeCall
    | HeapCall(frames: seq<FrameResult>, heapError: Option<nat>)
    | RdCall(dev: Blkdev.Dev, rdEnd: RdEnd)
    | CacheCall(cache: nat, cacheDev: Blkdev.Dev, cacheEnd: CacheEnd)
    | PartCall(disk: Blkdev.Dev, pieces: nat)

  function CallActs(c: Call): seq<Act> {
    match c
    case PrintCall(k) => Println(k)
    case PmmAllocCall(found, k) => PmmAlloc(found, k)
    case PmmFreeCall => PmmFree()
    case HeapCall(frames, error) => KheapAlloc(frames, error)
    case RdCall(d, end) => BlkdevRd(d, end)
    case CacheCall(cache, d, end) => CacheRd(cache, d, end)
    case PartCall(d, k) => MkPart(d, k)
  }

  function Program(calls: seq<Call>): seq<Act> {
    if calls == [] then [] else Program(calls[..|calls| - 1]) + CallActs(calls[|calls| - 1])
  }

  // ----- every call keeps to the order

  predicate Below(held: set<Lock>, busy: set<Lock>, r: nat) {
    busy <= held && forall h :: h in held ==> Rank(h) < r
  }

  /** Run with only locks below rank `r` held, `p` keeps to the rules and leaves what is held as it was. */
  ghost predicate Nests(p: seq<Act>, r: nat) {
    forall held: set<Lock>, busy: set<Lock> :: Below(held, busy, r) ==> Exec(held, busy, p) == Some((held, busy))
  }

  lemma {:induction false} ExecConcat(held: set<Lock>, busy: set<Lock>, a: seq<Act>, b: seq<Act>)
    ensures Exec(held, busy, a + b)
         == match Exec(held, busy, a) case None => None case Some(s) => Exec(s.0, s.1, b)
    decreases |a|
  {
    if a == [] {
      assert a + b == b;
    } else {
      assert (a + b)[0] == a[0] && (a + b)[1..] == a[1..] + b;
      if Allowed(held, busy, a[0]) {
        var t := Advance(Thread(a, held, busy));
        var t' := Advance(Thread(a + b, held, busy));
        assert t'.held == t.held && t'.busy == t.busy;
        ExecConcat(t.held, t.busy, a[1..], b);
      }
    }
  }

  lemma NestsNothing(r: nat)
    ensures Nests([], r)
  {
  }

  lemma NestsConcat(a: seq<Act>, b: seq<Act>, r: nat)
    requires Nests(a, r) && Nests(b, r)
    ensures Nests(a + b, r)
  {
    forall held: set<Lock>, busy: set<Lock> | Below(held, busy, r)
      ensures Exec(held, busy, a + b) == Some((held, busy))
    {
      ExecConcat(held, busy, a, b);
    }
  }

  lemma NestsLower(p: seq<Act>, r: nat, q: nat)
    requires Nests(p, r) && q <= r
    ensures Nests(p, q)
  {
  }

  lemma {:induction false} NestsTimes(n: nat, p: seq<Act>, r: nat)
    requires Nests(p, r)
    ensures Nests(Times(n, p), r)
  {
    if n == 0 {
    } else {
      NestsTimes(n - 1, p, r);
      NestsConcat(Times(n - 1, p), p, r);
    }
  }

  lemma ExecOne(held: set<Lock>, busy: set<Lock>, a: Act)
    requires Allowed(held, busy, a)
    ensures var t := Advance(Thread([a], held, busy)); Exec(held, busy, [a]) == Some((t.held, t.busy))
  {
    assert [a][1..] == [];
  }

  lemma UnderRuns(held: set<Lock>, busy: set<Lock>, l: Lock, body: seq<Act>)
    requires Below(held, busy, Rank(l)) && Exec(held + {l}, busy, body) == Some((held + {l}, busy))
    ensures Exec(held, busy, Under(l, body)) == Some((held, busy))
  {
    ExecOne(held, busy, Acquire(l));
    ExecOne(held + {l}, busy, Release(l));
    assert l !in held && (held + {l}) - {l} == held;
    ExecConcat(held, busy, [Acquire(l)], body);
    ExecConcat(held, busy, [Acquire(l)] + body, [Release(l)]);
  }

  /** Nesting under a lock of rank above all that are held. */
  lemma NestsUnder(l: Lock, body: seq<Act>)
    requires Nests(body, Rank(l) + 1)
    ensures Nests(Under(l, body), Rank(l))
  {
    forall held: set<Lock>, busy: set<Lock> | Below(held, busy, Rank(l))
      ensures Exec(held, busy, Under(l, body)) == Some((held, busy))
    {
      assert Below(held + {l}, busy, Rank(l) + 1);
      UnderRuns(held, busy, l, body);
    }
  }

  /** A driver call under its mutex. */
  lemma NestsDriver(l: Lock, call: seq<Act>)
    requires Nests(call, Rank(l) + 1)
    ensures Nests(Under(l, [Begin(l)] + call + [End(l)]), Rank(l))
  {
    forall held: set<Lock>, busy: set<Lock> | Below(held, busy, Rank(l))
      ensures Exec(held, busy, Under(l, [Begin(l)] + call + [End(l)])) == Some((held, busy))
    {
      var inside := held + {l};
      assert l !in held && (busy + {l}) - {l} == busy && Below(inside, busy + {l}, Rank(l) + 1);
      ExecOne(inside, busy, Begin(l));
      ExecOne(inside, busy + {l}, End(l));
      ExecConcat(inside, busy, [Begin(l)], call);
      ExecConcat(inside, busy, [Begin(l)] + call, [End(l)]);
      UnderRuns(held, busy, l, [Begin(l)] + call + [End(l)]);
    }
  }

  lemma PrintNests(k: nat)
    ensures Nests(Println(k), 5)
  {
    NestsNothing(7);
    NestsUnder(SerialLock, []);
    NestsTimes(k, SerialWrite(), 6);
    NestsUnder(PrintLock, Times(k, SerialWrite()));
    NestsLower(SerialWrite(), 6, 5);
    NestsConcat(Under(PrintLock, Times(k, SerialWrite())), SerialWrite(), 5);
  }

  lemma PmmNests(found: bool, k: nat)
    ensures Nests(PmmAlloc(found, k), 4) && Nests(PmmFree(), 4)
  {
    NestsNothing(5);
    PrintNests(k);
    NestsUnder(PmmLock, []);
    NestsUnder(PmmLock, if found then [] else Println(k));
  }

  lemma {:induction false} PmmAllocsNest(frames: seq<FrameResult>)
    ensures Nests(PmmAllocs(frames), 4)
  {
    NestsNothing(4);
    if frames != [] {
      var init, last := frames[..|frames| - 1], frames[|frames| - 1];
      var k := if last.Found? then 0 else last.pieces;
      PmmAllocsNest(init);
      PmmNests(last.Found?, k);
      NestsConcat(PmmAllocs(init), PmmAlloc(last.Found?, k), 4);
    }
  }

  lemma ErrorNests(error: Option<nat>, r: nat)
    requires r <= 5
    ensures Nests(ErrorLine(error), r)
  {
    NestsNothing(r);
    if error.Some? {
      PrintNests(error.value);
      NestsLower(Println(error.value), 5, r);
    }
  }

  lemma HeapNests(frames: seq<FrameResult>, error: Option<nat>)
    ensures Nests(KheapAlloc(frames, error), 3)
  {
    PmmAllocsNest(frames);
    ErrorNests(error, 4);
    NestsConcat(PmmAllocs(frames), ErrorLine(error), 4);
    NestsUnder(HeapLock, PmmAllocs(frames) + ErrorLine(error));
  }

  lemma AtaNests(end: AtaEnd)
    ensures Nests(AtaRead(end), 2)
  {
    NestsNothing(3);
    NestsNothing(2);
    NestsUnder(AtaLock, []);
    match end {
      case Nothing =>
      case TooMany(k) =>
        PrintNests(k);
        NestsLower(Println(k), 5, 2);
      case Done =>
      case Failed(k) =>
        PrintNests(k);
        NestsLower(Println(k), 5, 3);
        NestsUnder(AtaLock, Println(k));
    }
  }

  lemma RdNests(d: Blkdev.Dev, end: RdEnd)
    ensures Nests(BlkdevRd(d, end), 1)
  {
    var l := DevLock(Blkdev.RdMutex(d));
    match end {
      case OutOfRange(k) =>
        PrintNests(k);
        NestsLower(Println(k), 5, 2);
        NestsUnder(l, Println(k));
      case Driver(ata) =>
        AtaNests(ata);
        NestsDriver(l, AtaRead(ata));
    }
  }

  lemma CacheNests(cache: nat, d: Blkdev.Dev, end: CacheEnd)
    ensures Nests(CacheRd(cache, d, end), 0)
  {
    match end {
      case Hit =>
        NestsNothing(1);
        NestsUnder(CacheLock(cache), []);
      case Miss(rd, error) =>
        RdNests(d, rd);
        ErrorNests(error, 1);
        NestsConcat(BlkdevRd(d, rd), ErrorLine(error), 1);
        NestsUnder(CacheLock(cache), BlkdevRd(d, rd) + ErrorLine(error));
      case Cross(frames, heapError, rd, error) =>
        HeapNests(frames, heapError);
        NestsLower(KheapAlloc(frames, heapError), 3, 1);
        RdNests(d, rd);
        ErrorNests(error, 1);
        NestsConcat(KheapAlloc(frames, heapError), BlkdevRd(d, rd), 1);
        NestsConcat(KheapAlloc(frames, heapError) + BlkdevRd(d, rd), ErrorLine(error), 1);
        NestsUnder(CacheLock(cache), KheapAlloc(frames, heapError) + BlkdevRd(d, rd) + ErrorLine(error));
    }
  }

  lemma PartNests(d: Blkdev.Dev, k: nat)
    ensures Nests(MkPart(d, k), 1)
  {
    PrintNests(k);
    NestsLower(Println(k), 5, 1);
    NestsLower(Println(k), 5, 2);
    NestsUnder(DevLock(Blkdev.PartMutex(d)), Println(k));
  }

  /** Each call takes its locks upwards in rank and gives all of them back, whatever happens inside. */
  lemma CallNests(c: Call)
    ensures Nests(CallActs(c), 0)
  {
    match c
    case PrintCall(k) => PrintNests(k);
    case PmmAllocCall(found, k) => PmmNests(found, k);
    case PmmFreeCall => PmmNests(true, 0);
    case HeapCall(frames, error) => HeapNests(frames, error);
    case RdCall(d, end) => RdNests(d, end);
    case CacheCall(cache, d, end) => CacheNests(cache, d, end);
    case PartCall(d, k) => PartNests(d, k);
  }

  lemma {:induction false} ProgramNests(calls: seq<Call>)
    ensures Nests(Program(calls), 0)
  {
    NestsNothing(0);
    if calls != [] {
      ProgramNests(calls[..|calls| - 1]);
      CallNests(calls[|calls| - 1]);
      NestsConcat(Program(calls[..|calls| - 1]), CallActs(calls[|calls| - 1]), 0);
    }
  }

  // ----- the kernel

  /** Any number of threads, each about to make any series of calls. */
  function Started(threads: seq<seq<Call>>): State {
    State(map[], seq(|threads|, i requires 0 <= i < |threads| => Thread(Program(threads[i]), {}, {})))
  }

  /**
   The kernel's threads never deadlock: under every schedule, at every point where one of them is unfinished, some
   thread's next compare-and-swap succeeds, and from there all of them can finish.
   */
  lemma KernelNeverDeadlocks(threads: seq<seq<Call>>, schedule: seq<nat>) returns (k: nat, rest: seq<nat>)
    ensures Inv(Run(Started(threads), schedule))
    ensures !Finished(Run(Started(threads), schedule)) ==> Succeeds(Run(Started(threads), schedule), k)
    ensures Finished(Run(Run(Started(threads), schedule), rest))
  {
    var s := Started(threads);
    forall i | 0 <= i < |threads| ensures Disciplined(s.threads[i]) {
      ProgramNests(threads[i]);
      assert Below({}, {}, 0);
    }
    StartOk(s);
    RunKeeps(s, schedule);
    if !Finished(Run(s, schedule)) {
      k := DeadlockFree(s, schedule);
    } else {
      k := 0;
    }
    rest := CanFinish(Run(s, schedule));
  }

  /** Driver calls on a disk and on any of its partitions take turns, whichever two of them the threads use. */
  lemma DiskCallsTakeTurns(threads: seq<seq<Call>>, schedule: seq<nat>, disk: Blkdev.Dev, d: Blkdev.Dev, e: Blkdev.Dev,
                           i: nat, j: nat)
    requires !disk.part && Blkdev.ViewOf(disk, d) && Blkdev.ViewOf(disk, e) && i < |threads| && j < |threads|
    requires var s := Run(Started(threads), schedule);
      && DevLock(Blkdev.RdMutex(d)) in s.threads[i].busy
      && DevLock(Blkdev.RdMutex(e)) in s.threads[j].busy
    ensures i == j
  {
    var _, _ := KernelNeverDeadlocks(threads, []);
    Blkdev.OneMutex(disk, d);
    Blkdev.OneMutex(disk, e);
    DriverExclusive(Started(threads), schedule, DevLock(Blkdev.RdMutex(d)), i, j);
  }
}
