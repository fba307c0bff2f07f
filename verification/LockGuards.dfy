/** What the kernel's calls do between taking and giving back their locks: no two threads ever do it at once. */
module LockGuards {
  import opened Common
  import Blkdev
  import opened Locks

  // ----- guarded calls

  /** Starts by taking the lock, ends by giving it back, and neither takes nor gives it back in between. */
  ghost predicate Guarded(p: seq<Act>, l: Lock) {
    && 2 <= |p| && p[0] == Acquire(l) && p[|p| - 1] == Release(l)
    && forall k :: 0 < k < |p| - 1 ==> p[k] != Acquire(l) && p[k] != Release(l)
  }

  /** No act takes or gives back the lock. */
  predicate Spares(p: seq<Act>, l: Lock) {
    forall k :: 0 <= k < |p| ==> p[k] != Acquire(l) && p[k] != Release(l)
  }

  lemma GuardedUnder(l: Lock, body: seq<Act>)
    requires Spares(body, l)
    ensures Guarded(Under(l, body), l)
  {
  }

  lemma UnderSpares(l: Lock, body: seq<Act>, m: Lock)
    requires Spares(body, m) && l != m
    ensures Spares(Under(l, body), m)
  {
  }

  lemma {:induction false} TimesSpare(n: nat, p: seq<Act>, m: Lock)
    requires Spares(p, m)
    ensures Spares(Times(n, p), m)
  {
    if n == 0 {
    } else {
      TimesSpare(n - 1, p, m);
    }
  }

  /** Printing takes the print lock and the serial port's, and no other. */
  lemma PrintSpares(k: nat, m: Lock)
    requires m != PrintLock && m != SerialLock
    ensures Spares(Println(k), m)
  {
    UnderSpares(SerialLock, [], m);
    TimesSpare(k, SerialWrite(), m);
    UnderSpares(PrintLock, Times(k, SerialWrite()), m);
  }

  /** A line is printed under the print lock up to its end, which is written under the serial port's lock alone. */
  lemma PrintGuarded(k: nat)
    ensures exists text :: Println(k) == text + SerialWrite() && Guarded(text, PrintLock)
    ensures Guarded(SerialWrite(), SerialLock)
  {
    var text := Under(PrintLock, Times(k, SerialWrite()));
    UnderSpares(SerialLock, [], PrintLock);
    TimesSpare(k, SerialWrite(), PrintLock);
    GuardedUnder(PrintLock, Times(k, SerialWrite()));
    GuardedUnder(SerialLock, []);
    assert Println(k) == text + SerialWrite() && Guarded(text, PrintLock);
  }

  lemma PmmGuarded(found: bool, k: nat)
    ensures Guarded(PmmAlloc(found, k), PmmLock) && Guarded(PmmFree(), PmmLock)
  {
    PrintSpares(k, PmmLock);
    GuardedUnder(PmmLock, if found then [] else Println(k));
    GuardedUnder(PmmLock, []);
  }

  lemma PmmSpares(found: bool, k: nat, m: Lock)
    requires m != PmmLock && m != PrintLock && m != SerialLock
    ensures Spares(PmmAlloc(found, k), m)
  {
    PrintSpares(k, m);
    UnderSpares(PmmLock, if found then [] else Println(k), m);
  }

  lemma {:induction false} PmmAllocsSpare(frames: seq<FrameResult>, m: Lock)
    requires m != PmmLock && m != PrintLock && m != SerialLock
    ensures Spares(PmmAllocs(frames), m)
  {
    if frames == [] {
    } else {
      var last := frames[|frames| - 1];
      PmmAllocsSpare(frames[..|frames| - 1], m);
      PmmSpares(last.Found?, if last.Found? then 0 else last.pieces, m);
    }
  }

  lemma ErrorSpares(error: Option<nat>, m: Lock)
    requires m != PrintLock && m != SerialLock
    ensures Spares(ErrorLine(error), m)
  {
    if error.Some? {
      PrintSpares(error.value, m);
    }
  }

  /** `kheap_alloc` works under the heap's lock from beginning to end. */
  lemma HeapGuarded(frames: seq<FrameResult>, error: Option<nat>)
    ensures Guarded(KheapAlloc(frames, error), HeapLock)
  {
    PmmAllocsSpare(frames, HeapLock);
    ErrorSpares(error, HeapLock);
    GuardedUnder(HeapLock, PmmAllocs(frames) + ErrorLine(error));
  }

  lemma HeapSpares(frames: seq<FrameResult>, error: Option<nat>, m: Lock)
    requires m.CacheLock? || m.DevLock? || m.AtaLock?
    ensures Spares(KheapAlloc(frames, error), m)
  {
    PmmAllocsSpare(frames, m);
    ErrorSpares(error, m);
    UnderSpares(HeapLock, PmmAllocs(frames) + ErrorLine(error), m);
  }

  /** `ata_pio_dev_rd` of some sectors works under the drive's lock. */
  lemma AtaGuarded(k: nat)
    ensures Guarded(AtaRead(Done), AtaLock) && Guarded(AtaRead(Failed(k)), AtaLock)
  {
    PrintSpares(k, AtaLock);
    GuardedUnder(AtaLock, []);
    GuardedUnder(AtaLock, Println(k));
  }

  lemma AtaSpares(end: AtaEnd, m: Lock)
    requires m.CacheLock? || m.DevLock?
    ensures Spares(AtaRead(end), m)
  {
    match end
    case Nothing =>
    case TooMany(k) => PrintSpares(k, m);
    case Done => UnderSpares(AtaLock, [], m);
    case Failed(k) =>
      PrintSpares(k, m);
      UnderSpares(AtaLock, Println(k), m);
  }

  lemma RdBodySpares(l: Lock, end: RdEnd, m: Lock)
    requires m.CacheLock? || m.DevLock?
    ensures Spares(RdBody(l, end), m)
  {
    match end
    case OutOfRange(k) => PrintSpares(k, m);
    case Driver(ata) => AtaSpares(ata, m);
  }

  /** `blkdev_rd` checks the range and calls the driver under the device's mutex. */
  lemma RdGuarded(d: Blkdev.Dev, end: RdEnd)
    ensures Guarded(BlkdevRd(d, end), DevLock(Blkdev.RdMutex(d)))
  {
    var l := DevLock(Blkdev.RdMutex(d));
    RdBodySpares(l, end, l);
    GuardedUnder(l, RdBody(l, end));
  }

  lemma RdSpares(d: Blkdev.Dev, end: RdEnd, cache: nat)
    ensures Spares(BlkdevRd(d, end), CacheLock(cache))
  {
    var l := DevLock(Blkdev.RdMutex(d));
    RdBodySpares(l, end, CacheLock(cache));
    UnderSpares(l, RdBody(l, end), CacheLock(cache));
  }

  /** `blkdev_mk_part` of a device that is no partition works under that device's mutex. */
  lemma PartGuarded(d: Blkdev.Dev, k: nat)
    requires !d.part
    ensures Guarded(MkPart(d, k), DevLock(Blkdev.PartMutex(d)))
  {
    PrintSpares(k, DevLock(Blkdev.PartMutex(d)));
    GuardedUnder(DevLock(Blkdev.PartMutex(d)), Println(k));
  }

  lemma CacheBodySpares(d: Blkdev.Dev, end: CacheEnd, cache: nat)
    ensures Spares(CacheBody(d, end), CacheLock(cache))
  {
    var l := CacheLock(cache);
    match end
    case Hit =>
    case Miss(rd, error) =>
      RdSpares(d, rd, cache);
      ErrorSpares(error, l);
    case Cross(frames, heapError, rd, error) =>
      HeapSpares(frames, heapError, l);
      RdSpares(d, rd, cache);
      ErrorSpares(error, l);
  }

  /** `blk_cache_rd` works under the cache's lock, whichever way it goes. */
  lemma CacheGuarded(cache: nat, d: Blkdev.Dev, end: CacheEnd)
    ensures Guarded(CacheRd(cache, d, end), CacheLock(cache))
  {
    CacheBodySpares(d, end, cache);
    GuardedUnder(CacheLock(cache), CacheBody(d, end));
  }

  /** The driver is called between the mutex's acquisition and its release, and only when the range is right. */
  lemma DriverInside(d: Blkdev.Dev, ata: AtaEnd, k: nat)
    ensures var l := DevLock(Blkdev.RdMutex(d));
      && BlkdevRd(d, Driver(ata)) == [Acquire(l), Begin(l)] + AtaRead(ata) + [End(l), Release(l)]
      && BlkdevRd(d, OutOfRange(k)) == [Acquire(l)] + Println(k) + [Release(l)]
  {
  }

  /** The lock under which a call works from beginning to end; printing, for one, ends outside its lock. */
  lemma CallGuarded(c: Call)
    ensures match c
      case PrintCall(_) => exists text :: CallActs(c) == text + SerialWrite() && Guarded(text, PrintLock)
      case PmmAllocCall(_, _) => Guarded(CallActs(c), PmmLock)
      case PmmFreeCall => Guarded(CallActs(c), PmmLock)
      case HeapCall(_, _) => Guarded(CallActs(c), HeapLock)
      case RdCall(d, _) => Guarded(CallActs(c), DevLock(Blkdev.RdMutex(d)))
      case CacheCall(cache, _, _) => Guarded(CallActs(c), CacheLock(cache))
      case PartCall(d, _) => d.part || Guarded(CallActs(c), DevLock(Blkdev.PartMutex(d)))
  {
    match c
    case PrintCall(k) => PrintGuarded(k);
    case PmmAllocCall(found, k) => PmmGuarded(found, k);
    case PmmFreeCall => PmmGuarded(true, 0);
    case HeapCall(frames, error) => HeapGuarded(frames, error);
    case RdCall(d, end) => RdGuarded(d, end);
    case CacheCall(cache, d, end) => CacheGuarded(cache, d, end);
    case PartCall(d, k) =>
      if !d.part {
        PartGuarded(d, k);
      }
  }

  /** Lists of acts, one after the other. */
  function Join(parts: seq<seq<Act>>): seq<Act> {
    if parts == [] then [] else Join(parts[..|parts| - 1]) + parts[|parts| - 1]
  }

  lemma {:induction false} JoinConcat(a: seq<seq<Act>>, b: seq<seq<Act>>)
    ensures Join(a + b) == Join(a) + Join(b)
    decreases |b|
  {
    if b == [] {
      assert a + b == a;
    } else {
      var init, last, all := b[..|b| - 1], b[|b| - 1], a + b;
      assert all[..|all| - 1] == a + init && all[|all| - 1] == last;
      JoinConcat(a, init);
      assert (Join(a) + Join(init)) + last == Join(a) + (Join(init) + last);
    }
  }

  lemma JoinAround(a: seq<seq<Act>>, part: seq<Act>, b: seq<seq<Act>>)
    ensures Join(a + [part] + b) == Join(a) + part + Join(b)
  {
    JoinConcat(a + [part], b);
    JoinConcat(a, [part]);
    assert [part][..0] == [] && [] + part == part;
  }

  /** The acts of each call. */
  function Parts(calls: seq<Call>): (parts: seq<seq<Act>>)
    ensures |parts| == |calls|
  {
    seq(|calls|, i requires 0 <= i < |calls| => CallActs(calls[i]))
  }

  lemma {:induction false} ProgramJoins(calls: seq<Call>)
    ensures Program(calls) == Join(Parts(calls))
  {
    if calls == [] {
    } else {
      var init := calls[..|calls| - 1];
      ProgramJoins(init);
      assert Parts(calls)[..|calls| - 1] == Parts(init);
    }
  }

  lemma PartsAround(calls: seq<Call>, k: nat)
    requires k < |calls|
    ensures Parts(calls) == Parts(calls[..k]) + [CallActs(calls[k])] + Parts(calls[k + 1..])
  {
  }

  /** A thread's program is its calls, one after the other: each of them stands between those before and after it. */
  lemma CallInProgram(calls: seq<Call>, k: nat)
    requires k < |calls|
    ensures Program(calls) == Program(calls[..k]) + CallActs(calls[k]) + Program(calls[k + 1..])
  {
    ProgramJoins(calls);
    ProgramJoins(calls[..k]);
    ProgramJoins(calls[k + 1..]);
    PartsAround(calls, k);
    JoinAround(Parts(calls[..k]), CallActs(calls[k]), Parts(calls[k + 1..]));
  }

  // ----- where a thread is in its program

  /** The locks held after the acts of `p`. */
  function HeldAfter(p: seq<Act>): set<Lock> {
    if p == [] then {}
    else
      match p[|p| - 1]
      case Acquire(l) => HeldAfter(p[..|p| - 1]) + {l}
      case Release(l) => HeldAfter(p[..|p| - 1]) - {l}
      case _ => HeldAfter(p[..|p| - 1])
  }

  /** The thread has done the first acts of `p`, and the others are still before it. */
  ghost predicate Follows(t: Thread, p: seq<Act>) {
    |t.todo| <= |p| && t.todo == p[|p| - |t.todo|..] && t.held == HeldAfter(p[..|p| - |t.todo|])
  }

  ghost predicate AllFollow(s: State, programs: seq<seq<Act>>) {
    |programs| == |s.threads| && forall i :: 0 <= i < |programs| ==> Follows(s.threads[i], programs[i])
  }

  lemma AdvanceFollows(t: Thread, p: seq<Act>)
    requires Follows(t, p) && t.todo != []
    ensures Follows(Advance(t), p)
  {
    var done := |p| - |t.todo|;
    assert p[..done + 1][..done] == p[..done] && p[..done + 1][done] == t.todo[0];
  }

  lemma StepFollows(s: State, programs: seq<seq<Act>>, i: nat)
    requires AllFollow(s, programs)
    ensures AllFollow(Step(s, i), programs)
  {
    if Succeeds(s, i) {
      AdvanceFollows(s.threads[i], programs[i]);
    }
  }

  lemma {:induction false} RunFollows(s: State, programs: seq<seq<Act>>, schedule: seq<nat>)
    requires AllFollow(s, programs)
    ensures AllFollow(Run(s, schedule), programs)
    decreases |schedule|
  {
    if schedule == [] {
    } else {
      StepFollows(s, programs, schedule[0]);
      RunFollows(Step(s, schedule[0]), programs, schedule[1..]);
    }
  }

  /** The lock taken at act `a` is held until it is given back. */
  lemma {:induction false} HeldSince(p: seq<Act>, l: Lock, a: nat)
    requires a < |p| && p[a] == Acquire(l) && forall k :: a < k < |p| ==> p[k] != Release(l)
    ensures l in HeldAfter(p)
    decreases |p|
  {
    if a < |p| - 1 {
      HeldSince(p[..|p| - 1], l, a);
    }
  }

  // ----- threads take turns

  /** The program is `pre + call + post`, and the thread has begun with `call` and is not at its end. */
  ghost predicate Within(t: Thread, p: seq<Act>, pre: seq<Act>, call: seq<Act>, post: seq<Act>) {
    p == pre + call + post && |post| < |t.todo| < |call| + |post|
  }

  lemma WithinHolds(t: Thread, p: seq<Act>, pre: seq<Act>, call: seq<Act>, post: seq<Act>, l: Lock)
    requires Follows(t, p) && Within(t, p, pre, call, post) && Guarded(call, l)
    ensures l in t.held
  {
    var done := p[..|p| - |t.todo|];
    var a := |pre|;
    assert done[a] == call[0];
    forall k | a < k < |done| ensures done[k] != Release(l) {
      assert done[k] == call[k - a];
    }
    HeldSince(done, l, a);
  }

  lemma StartFollows(threads: seq<seq<Call>>)
    ensures AllFollow(Started(threads), seq(|threads|, i requires 0 <= i < |threads| => Program(threads[i])))
    ensures forall i :: 0 <= i < |threads| ==> Started(threads).threads[i] == Thread(Program(threads[i]), {}, {})
    ensures forall l :: ByteAt(Started(threads), l) == 0
  {
  }

  /**
   Any number of threads, any calls, any schedule: of all the threads only one can be inside a call, or a call within a
   call, that is guarded by a lock.
   */
  lemma GuardedApart(threads: seq<seq<Call>>, schedule: seq<nat>, l: Lock, i: nat, j: nat, pre: seq<Act>, a: seq<Act>,
                     post: seq<Act>, pre': seq<Act>, b: seq<Act>, post': seq<Act>)
    requires i < |threads| && j < |threads| && Guarded(a, l) && Guarded(b, l)
    requires Within(Run(Started(threads), schedule).threads[i], Program(threads[i]), pre, a, post)
    requires Within(Run(Started(threads), schedule).threads[j], Program(threads[j]), pre', b, post')
    ensures i == j
  {
    var s := Run(Started(threads), schedule);
    var programs := seq(|threads|, i requires 0 <= i < |threads| => Program(threads[i]));
    StartFollows(threads);
    RunFollows(Started(threads), programs, schedule);
    assert programs[i] == Program(threads[i]) && programs[j] == Program(threads[j]);
    WithinHolds(s.threads[i], programs[i], pre, a, post, l);
    WithinHolds(s.threads[j], programs[j], pre', b, post', l);
    var _, _ := KernelNeverDeadlocks(threads, schedule);
    OneHolder(s, l, i, j);
  }

  /** No two threads search and link the list of heap blocks at once. */
  lemma HeapCallsApart(threads: seq<seq<Call>>, schedule: seq<nat>, i: nat, j: nat, pre: seq<Act>, post: seq<Act>,
                       pre': seq<Act>, post': seq<Act>, frames: seq<FrameResult>, error: Option<nat>,
                       frames': seq<FrameResult>, error': Option<nat>)
    requires i < |threads| && j < |threads|
    requires Within(Run(Started(threads), schedule).threads[i], Program(threads[i]), pre, KheapAlloc(frames, error),
      post)
    requires Within(Run(Started(threads), schedule).threads[j], Program(threads[j]), pre', KheapAlloc(frames', error'),
                    post')
    ensures i == j
  {
    HeapGuarded(frames, error);
    HeapGuarded(frames', error');
    GuardedApart(threads, schedule, HeapLock, i, j, pre, KheapAlloc(frames, error), post, pre',
                 KheapAlloc(frames', error'), post');
  }

  // ----- how often

  /** How often a lock is taken. */
  function Takes(p: seq<Act>, l: Lock): nat {
    if p == [] then 0 else Takes(p[..|p| - 1], l) + if p[|p| - 1] == Acquire(l) then 1 else 0
  }

  lemma {:induction false} TakesConcat(a: seq<Act>, b: seq<Act>, l: Lock)
    ensures Takes(a + b, l) == Takes(a, l) + Takes(b, l)
    decreases |b|
  {
    if b == [] {
      assert a + b == a;
    } else {
      assert (a + b)[..|a + b| - 1] == a + b[..|b| - 1];
      TakesConcat(a, b[..|b| - 1], l);
    }
  }

  lemma TakesOne(a: Act, l: Lock)
    ensures Takes([a], l) == if a == Acquire(l) then 1 else 0
  {
    assert [a][..0] == [];
  }

  lemma TakesUnder(m: Lock, body: seq<Act>, l: Lock)
    ensures Takes(Under(m, body), l) == Takes(body, l) + if m == l then 1 else 0
  {
    TakesConcat([Acquire(m)], body, l);
    TakesConcat([Acquire(m)] + body, [Release(m)], l);
    TakesOne(Acquire(m), l);
    TakesOne(Release(m), l);
  }

  lemma {:induction false} TakesTimes(n: nat, p: seq<Act>, l: Lock)
    ensures Takes(Times(n, p), l) == n * Takes(p, l)
  {
    if n == 0 {
    } else {
      TakesTimes(n - 1, p, l);
      TakesConcat(Times(n - 1, p), p, l);
      Distribute(n - 1, 1, Takes(p, l));
    }
  }

  lemma {:induction false} SparedNeverTaken(p: seq<Act>, l: Lock)
    requires Spares(p, l)
    ensures Takes(p, l) == 0
  {
    if p == [] {
    } else {
      SparedNeverTaken(p[..|p| - 1], l);
    }
  }

  /** A line of `k` pieces goes to the serial port in `k + 1` writes. */
  lemma PrintTakes(k: nat)
    ensures Takes(Println(k), PrintLock) == 1 && Takes(Println(k), SerialLock) == k + 1
  {
    var text := Times(k, SerialWrite());
    forall l ensures Takes(Println(k), l)
      == k * Takes(SerialWrite(), l) + (if l == PrintLock then 1 else 0) + Takes(SerialWrite(), l)
    {
      TakesTimes(k, SerialWrite(), l);
      TakesUnder(PrintLock, text, l);
      TakesConcat(Under(PrintLock, text), SerialWrite(), l);
    }
    TakesUnder(SerialLock, [], SerialLock);
    TakesUnder(SerialLock, [], PrintLock);
  }

  lemma PmmTakes(found: bool, k: nat)
    ensures Takes(PmmAlloc(found, k), PmmLock) == 1 && Takes(PmmFree(), PmmLock) == 1
    ensures Takes(PmmAlloc(found, k), PrintLock) == if found then 0 else 1
  {
    var body := if found then [] else Println(k);
    PrintSpares(k, PmmLock);
    SparedNeverTaken(Println(k), PmmLock);
    TakesUnder(PmmLock, body, PmmLock);
    TakesUnder(PmmLock, body, PrintLock);
    TakesUnder(PmmLock, [], PmmLock);
    PrintTakes(k);
  }

  /** How many of the frames asked for were not there. */
  function Failures(frames: seq<FrameResult>): nat {
    if frames == [] then 0 else Failures(frames[..|frames| - 1]) + if frames[|frames| - 1].NoFrame? then 1 else 0
  }

  lemma {:induction false} PmmAllocsTake(frames: seq<FrameResult>)
    ensures Takes(PmmAllocs(frames), PmmLock) == |frames| && Takes(PmmAllocs(frames), PrintLock) == Failures(frames)
  {
    if frames == [] {
    } else {
      var init, last := frames[..|frames| - 1], frames[|frames| - 1];
      var k := if last.Found? then 0 else last.pieces;
      PmmAllocsTake(init);
      PmmTakes(last.Found?, k);
      TakesConcat(PmmAllocs(init), PmmAlloc(last.Found?, k), PmmLock);
      TakesConcat(PmmAllocs(init), PmmAlloc(last.Found?, k), PrintLock);
    }
  }

  /** One for a message, none without. */
  function Lines(error: Option<nat>): nat {
    if error.Some? then 1 else 0
  }

  lemma ErrorTakes(error: Option<nat>)
    ensures Takes(ErrorLine(error), PrintLock) == Lines(error)
  {
    if error.Some? {
      PrintTakes(error.value);
    }
  }

  /** `kheap_alloc` takes the heap's lock once and the frame lock once for each frame it asks for. */
  lemma HeapTakes(frames: seq<FrameResult>, error: Option<nat>)
    ensures Takes(KheapAlloc(frames, error), HeapLock) == 1
    ensures Takes(KheapAlloc(frames, error), PmmLock) == |frames|
  {
    var body := PmmAllocs(frames) + ErrorLine(error);
    PmmAllocsTake(frames);
    PmmAllocsSpare(frames, HeapLock);
    ErrorSpares(error, HeapLock);
    ErrorSpares(error, PmmLock);
    SparedNeverTaken(body, HeapLock);
    SparedNeverTaken(ErrorLine(error), PmmLock);
    TakesConcat(PmmAllocs(frames), ErrorLine(error), PmmLock);
    TakesUnder(HeapLock, body, HeapLock);
    TakesUnder(HeapLock, body, PmmLock);
  }

  /** It prints a line for each frame that is not there, and one when it fails. */
  lemma HeapLines(frames: seq<FrameResult>, error: Option<nat>)
    ensures Takes(KheapAlloc(frames, error), PrintLock) == Failures(frames) + Lines(error)
  {
    PmmAllocsTake(frames);
    ErrorTakes(error);
    TakesConcat(PmmAllocs(frames), ErrorLine(error), PrintLock);
    TakesUnder(HeapLock, PmmAllocs(frames) + ErrorLine(error), PrintLock);
  }

  lemma AtaTakes(ata: AtaEnd)
    ensures Takes(AtaRead(ata), AtaLock) == if ata.Done? || ata.Failed? then 1 else 0
  {
    match ata
    case Nothing =>
    case TooMany(k) =>
      PrintSpares(k, AtaLock);
      SparedNeverTaken(Println(k), AtaLock);
    case Done => TakesUnder(AtaLock, [], AtaLock);
    case Failed(k) =>
      PrintSpares(k, AtaLock);
      SparedNeverTaken(Println(k), AtaLock);
      TakesUnder(AtaLock, Println(k), AtaLock);
  }

  /** `blkdev_mk_part` prints one line, under the mutex unless the device is a partition. */
  lemma PartTakes(d: Blkdev.Dev, k: nat)
    ensures Takes(MkPart(d, k), PrintLock) == 1
    ensures Takes(MkPart(d, k), DevLock(Blkdev.PartMutex(d))) == if d.part then 0 else 1
  {
    var l := DevLock(Blkdev.PartMutex(d));
    PrintTakes(k);
    PrintSpares(k, l);
    SparedNeverTaken(Println(k), l);
    TakesUnder(l, Println(k), PrintLock);
    TakesUnder(l, Println(k), l);
  }

  /** Whether a disk read ends with a message, and whether a device read does. */
  predicate AtaPrints(ata: AtaEnd) {
    ata.TooMany? || ata.Failed?
  }

  predicate RdPrints(end: RdEnd) {
    end.OutOfRange? || AtaPrints(end.ata)
  }

  /** `blkdev_rd` takes the drive's lock once when the driver gets as far as the drive, and never otherwise. */
  lemma RdTakes(d: Blkdev.Dev, end: RdEnd)
    ensures Takes(BlkdevRd(d, end), DevLock(Blkdev.RdMutex(d))) == 1
    ensures Takes(BlkdevRd(d, end), AtaLock) == if end.Driver? && (end.ata.Done? || end.ata.Failed?) then 1 else 0
  {
    var l := DevLock(Blkdev.RdMutex(d));
    var body := RdBody(l, end);
    RdBodySpares(l, end, l);
    SparedNeverTaken(body, l);
    TakesUnder(l, body, l);
    TakesUnder(l, body, AtaLock);
    match end {
      case OutOfRange(k) =>
        PrintSpares(k, AtaLock);
        SparedNeverTaken(Println(k), AtaLock);
      case Driver(ata) =>
        AtaTakes(ata);
        TakesConcat([Begin(l)], AtaRead(ata), AtaLock);
        TakesConcat([Begin(l)] + AtaRead(ata), [End(l)], AtaLock);
        TakesOne(Begin(l), AtaLock);
        TakesOne(End(l), AtaLock);
    }
  }

  lemma RdSparesHeap(d: Blkdev.Dev, rd: RdEnd)
    ensures Spares(BlkdevRd(d, rd), HeapLock)
  {
    var l := DevLock(Blkdev.RdMutex(d));
    match rd {
      case OutOfRange(k) => PrintSpares(k, HeapLock);
      case Driver(ata) =>
        match ata {
          case Nothing =>
          case TooMany(k) => PrintSpares(k, HeapLock);
          case Done => UnderSpares(AtaLock, [], HeapLock);
          case Failed(k) =>
            PrintSpares(k, HeapLock);
            UnderSpares(AtaLock, Println(k), HeapLock);
        }
    }
    UnderSpares(l, RdBody(l, rd), HeapLock);
  }

  /** How often a read of the device takes one of the outer locks. */
  lemma RdTakesOuter(d: Blkdev.Dev, rd: RdEnd, error: Option<nat>, m: Lock)
    requires m == DevLock(Blkdev.RdMutex(d)) || m.CacheLock? || m == HeapLock
    ensures Takes(BlkdevRd(d, rd), m) == (if m.DevLock? then 1 else 0) && Takes(ErrorLine(error), m) == 0
  {
    var l := DevLock(Blkdev.RdMutex(d));
    ErrorSpares(error, m);
    SparedNeverTaken(ErrorLine(error), m);
    RdTakes(d, rd);
    if m.CacheLock? {
      RdSpares(d, rd, m.cache);
      SparedNeverTaken(BlkdevRd(d, rd), m);
    } else if m == HeapLock {
      RdSparesHeap(d, rd);
      SparedNeverTaken(BlkdevRd(d, rd), m);
    }
  }

  lemma MissTakes(cache: nat, d: Blkdev.Dev, rd: RdEnd, error: Option<nat>, m: Lock)
    requires m == DevLock(Blkdev.RdMutex(d)) || m == CacheLock(cache) || m == HeapLock
    ensures Takes(CacheRd(cache, d, Miss(rd, error)), m) == if m == HeapLock then 0 else 1
  {
    RdTakesOuter(d, rd, error, m);
    TakesConcat(BlkdevRd(d, rd), ErrorLine(error), m);
    TakesUnder(CacheLock(cache), BlkdevRd(d, rd) + ErrorLine(error), m);
  }

  lemma TakesThree(l: Lock, a: seq<Act>, b: seq<Act>, c: seq<Act>, m: Lock)
    ensures Takes(Under(l, a + b + c), m) == Takes(a, m) + Takes(b, m) + Takes(c, m) + if m == l then 1 else 0
  {
    TakesConcat(a, b, m);
    TakesConcat(a + b, c, m);
    TakesUnder(l, a + b + c, m);
  }

  lemma HeapTakesOuter(frames: seq<FrameResult>, heapError: Option<nat>, m: Lock)
    requires m.DevLock? || m.CacheLock? || m == HeapLock
    ensures Takes(KheapAlloc(frames, heapError), m) == if m == HeapLock then 1 else 0
  {
    if m == HeapLock {
      HeapTakes(frames, heapError);
    } else {
      HeapSpares(frames, heapError, m);
      SparedNeverTaken(KheapAlloc(frames, heapError), m);
    }
  }

  lemma CrossTakes(cache: nat, d: Blkdev.Dev, frames: seq<FrameResult>, heapError: Option<nat>, rd: RdEnd,
                   error: Option<nat>, m: Lock)
    requires m == DevLock(Blkdev.RdMutex(d)) || m == CacheLock(cache) || m == HeapLock
    ensures Takes(CacheRd(cache, d, Cross(frames, heapError, rd, error)), m) == 1
  {
    var heap, read, line := KheapAlloc(frames, heapError), BlkdevRd(d, rd), ErrorLine(error);
    assert CacheRd(cache, d, Cross(frames, heapError, rd, error)) == Under(CacheLock(cache), heap + read + line);
    RdTakesOuter(d, rd, error, m);
    HeapTakesOuter(frames, heapError, m);
    TakesThree(CacheLock(cache), heap, read, line, m);
  }

  /** `blk_cache_rd` reads the device once for a miss or a read across blocks, and allocates once for the latter. */
  lemma CacheTakes(cache: nat, d: Blkdev.Dev, end: CacheEnd)
    ensures Takes(CacheRd(cache, d, end), CacheLock(cache)) == 1
    ensures Takes(CacheRd(cache, d, end), DevLock(Blkdev.RdMutex(d))) == if end.Hit? then 0 else 1
    ensures Takes(CacheRd(cache, d, end), HeapLock) == if end.Cross? then 1 else 0
  {
    var l, dev := CacheLock(cache), DevLock(Blkdev.RdMutex(d));
    CacheGuarded(cache, d, end);
    match end {
      case Hit =>
        TakesUnder(l, [], l);
        TakesUnder(l, [], dev);
        TakesUnder(l, [], HeapLock);
      case Miss(rd, error) =>
        MissTakes(cache, d, rd, error, dev);
        MissTakes(cache, d, rd, error, l);
        MissTakes(cache, d, rd, error, HeapLock);
      case Cross(frames, heapError, rd, error) =>
        CrossTakes(cache, d, frames, heapError, rd, error, dev);
        CrossTakes(cache, d, frames, heapError, rd, error, l);
        CrossTakes(cache, d, frames, heapError, rd, error, HeapLock);
    }
  }

  lemma AtaLines(ata: AtaEnd)
    ensures Takes(AtaRead(ata), PrintLock) == if AtaPrints(ata) then 1 else 0
  {
    match ata
    case Nothing =>
    case TooMany(k) => PrintTakes(k);
    case Done => TakesUnder(AtaLock, [], PrintLock);
    case Failed(k) =>
      PrintTakes(k);
      TakesUnder(AtaLock, Println(k), PrintLock);
  }

  lemma RdLines(d: Blkdev.Dev, end: RdEnd)
    ensures Takes(BlkdevRd(d, end), PrintLock) == if RdPrints(end) then 1 else 0
  {
    var l := DevLock(Blkdev.RdMutex(d));
    TakesUnder(l, RdBody(l, end), PrintLock);
    match end {
      case OutOfRange(k) => PrintTakes(k);
      case Driver(ata) =>
        AtaLines(ata);
        TakesConcat([Begin(l)], AtaRead(ata), PrintLock);
        TakesConcat([Begin(l)] + AtaRead(ata), [End(l)], PrintLock);
        TakesOne(Begin(l), PrintLock);
        TakesOne(End(l), PrintLock);
    }
  }

  lemma CacheLines(cache: nat, d: Blkdev.Dev, end: CacheEnd)
    ensures Takes(CacheRd(cache, d, end), PrintLock)
         == match end
            case Hit => 0
            case Miss(rd, error) => (if RdPrints(rd) then 1 else 0) + Lines(error)
            case Cross(frames, heapError, rd, error) =>
              Failures(frames) + Lines(heapError) + (if RdPrints(rd) then 1 else 0) + Lines(error)
  {
    var l := CacheLock(cache);
    match end {
      case Hit => TakesUnder(l, [], PrintLock);
      case Miss(rd, error) =>
        RdLines(d, rd);
        ErrorTakes(error);
        TakesConcat(BlkdevRd(d, rd), ErrorLine(error), PrintLock);
        TakesUnder(l, BlkdevRd(d, rd) + ErrorLine(error), PrintLock);
      case Cross(frames, heapError, rd, error) =>
        HeapLines(frames, heapError);
        RdLines(d, rd);
        ErrorTakes(error);
        TakesThree(l, KheapAlloc(frames, heapError), BlkdevRd(d, rd), ErrorLine(error), PrintLock);
    }
  }

  /** How many lines each call prints. */
  lemma CallLines(c: Call)
    ensures Takes(CallActs(c), PrintLock)
         == match c
            case PrintCall(_) => 1
            case PmmAllocCall(found, _) => if found then 0 else 1
            case PmmFreeCall => 0
            case HeapCall(frames, error) => Failures(frames) + Lines(error)
            case RdCall(_, end) => if RdPrints(end) then 1 else 0
            case CacheCall(cache, d, end) => Takes(CacheRd(cache, d, end), PrintLock)
            case PartCall(_, _) => 1
  {
    match c
    case PrintCall(k) => PrintTakes(k);
    case PmmAllocCall(found, k) => PmmTakes(found, k);
    case PmmFreeCall => TakesUnder(PmmLock, [], PrintLock);
    case HeapCall(frames, error) => HeapLines(frames, error);
    case RdCall(d, end) => RdLines(d, end);
    case CacheCall(_, _, _) =>
    case PartCall(d, k) => PartTakes(d, k);
  }
}
