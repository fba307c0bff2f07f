/**
 The physical frame allocator of pmm.c as a value: which frames have a clear bit, what lies on the refill
 stack, and which frames callers own. The `first_free` hints and the bitmap bytes do not appear here; class
 `Pmm.Allocator` keeps them and is proved to compute exactly these functions.
 */
module PmmSpec {
  import opened Common

  const STK_CAP: nat := 256

  /** The managed part of one usable region: `npage` frames starting at `base`. */
  datatype Span = Span(base: nat, npage: nat)

  type Geometry = seq<Span>

  /** `clear`: frames whose bit is clear; `stk`: the refill stack, top last; `live`: frames handed out. */
  datatype State = State(clear: set<nat>, stk: seq<nat>, live: set<nat>)

  function Frame(sp: Span, j: nat): nat {
    sp.base + PAGE_SIZE * j
  }

  /** The first `n` frames of a span, in ascending order. */
  function SpanFrames(sp: Span, n: nat): (s: seq<nat>)
    ensures |s| == n
    ensures forall j :: 0 <= j < n ==> s[j] == Frame(sp, j)
  {
    seq(n, j requires 0 <= j < n => Frame(sp, j))
  }

  /** Every managed frame, in the order the refill loop meets them. */
  function AllFrames(g: Geometry): seq<nat> {
    if g == [] then [] else AllFrames(g[..|g| - 1]) + SpanFrames(g[|g| - 1], g[|g| - 1].npage)
  }

  predicate Apart(a: Span, b: Span) {
    Frame(a, a.npage) <= b.base || Frame(b, b.npage) <= a.base
  }

  ghost predicate ValidGeometry(g: Geometry) {
    && (forall i :: 0 <= i < |g| ==> 0 < g[i].base && g[i].base % PAGE_SIZE == 0)
    && (forall i, k :: 0 <= i < k < |g| ==> Apart(g[i], g[k]))
  }

  /** The members of `s` that lie in `c`, in order. */
  function Filter(s: seq<nat>, c: set<nat>): seq<nat> {
    if s == [] then []
    else Filter(s[..|s| - 1], c) + if s[|s| - 1] in c then [s[|s| - 1]] else []
  }

  function FreeList(g: Geometry, clear: set<nat>): seq<nat> {
    Filter(AllFrames(g), clear)
  }

  function Room(s: State): nat {
    if |s.stk| < STK_CAP then STK_CAP - |s.stk| else 0
  }

  /** Moves clear frames from the front of `fl` to the stack, as many as there is room for. */
  function Move(s: State, fl: seq<nat>): State {
    var taken := fl[..Min(Room(s), |fl|)];
    s.(clear := s.clear - Elems(taken), stk := s.stk + taken)
  }

  function Refill(g: Geometry, s: State): State {
    Move(s, FreeList(g, s.clear))
  }

  function Alloc(g: Geometry, s: State): (State, nat) {
    var s1 := if s.stk == [] then Refill(g, s) else s;
    if s1.stk == [] then (s1, PHYS_ADDR_NULL)
    else
      var p := s1.stk[|s1.stk| - 1];
      (s1.(stk := s1.stk[..|s1.stk| - 1], live := s1.live + {p}), p)
  }

  function Free(g: Geometry, s: State, addr: nat): State {
    var f := PageBase(addr);
    if f in AllFrames(g) then s.(clear := s.clear + {f}, live := s.live - {f}) else s
  }

  /** Nobody owns a frame twice: bitmap, stack and callers hold disjoint sets of managed frames. */
  ghost predicate Owned(g: Geometry, s: State) {
    && s.clear <= Elems(AllFrames(g)) && Elems(s.stk) <= Elems(AllFrames(g)) && s.live <= Elems(AllFrames(g))
    && s.clear !! Elems(s.stk) && s.clear !! s.live && Elems(s.stk) !! s.live
    && NoDup(s.stk)
    && |s.stk| <= STK_CAP
  }

  /** The frames an allocation can still return. */
  function Available(s: State): set<nat> {
    s.clear + Elems(s.stk)
  }

  function Avail(s: State): nat {
    |Available(s)|
  }

  // ----- the frame list

  lemma {:induction false} FilterConcat(a: seq<nat>, b: seq<nat>, c: set<nat>)
    ensures Filter(a + b, c) == Filter(a, c) + Filter(b, c)
  {
    if b == [] {
      assert a + b == a;
    } else {
      var init := b[..|b| - 1];
      assert (a + b)[..|a + b| - 1] == a + init;
      FilterConcat(a, init, c);
      var x := if b[|b| - 1] in c then [b[|b| - 1]] else [];
      assert (Filter(a, c) + Filter(init, c)) + x == Filter(a, c) + (Filter(init, c) + x);
    }
  }

  lemma {:induction false} FilterElems(s: seq<nat>, c: set<nat>)
    ensures Elems(Filter(s, c)) == Elems(s) * c
    ensures |Filter(s, c)| <= |s|
  {
    if s == [] {
    } else {
      var init, x := s[..|s| - 1], s[|s| - 1];
      FilterElems(init, c);
      ElemsConcat(init, [x]);
      assert s == init + [x];
      ElemsConcat(Filter(init, c), if x in c then [x] else []);
    }
  }

  lemma {:induction false} FilterNoDup(s: seq<nat>, c: set<nat>)
    requires NoDup(s)
    ensures NoDup(Filter(s, c))
  {
    if s == [] {
    } else {
      var init, x := s[..|s| - 1], s[|s| - 1];
      NoDupSplit(s, |s| - 1);
      FilterNoDup(init, c);
      FilterElems(init, c);
      assert s[|s| - 1..] == [x] && x in Elems([x]);
      NoDupConcat(Filter(init, c), if x in c then [x] else []);
    }
  }

  /** Only membership of the frames in the list matters. */
  lemma {:induction false} FilterAgree(s: seq<nat>, c: set<nat>, d: set<nat>)
    requires forall x :: x in s ==> (x in c <==> x in d)
    ensures Filter(s, c) == Filter(s, d)
  {
    if s == [] {
    } else {
      var init := s[..|s| - 1];
      assert forall x :: x in init ==> x in s;
      FilterAgree(init, c, d);
    }
  }

  lemma {:induction false} AllFramesIndex(g: Geometry, f: nat)
    ensures f in AllFrames(g) <==> exists i, j :: 0 <= i < |g| && 0 <= j < g[i].npage && f == Frame(g[i], j)
  {
    if g == [] {
    } else {
      var init, last := g[..|g| - 1], g[|g| - 1];
      AllFramesIndex(init, f);
      var tail := SpanFrames(last, last.npage);
      if f in AllFrames(init) {
        var i, j :| 0 <= i < |init| && 0 <= j < init[i].npage && f == Frame(init[i], j);
        assert g[i] == init[i];
      }
      if f in tail {
        var j :| 0 <= j < |tail| && tail[j] == f;
        assert f == Frame(g[|g| - 1], j);
      }
      if i, j :| 0 <= i < |g| && 0 <= j < g[i].npage && f == Frame(g[i], j) {
        if i < |init| {
          assert f == Frame(init[i], j);
        } else {
          assert tail[j] == f;
        }
      }
    }
  }

  lemma {:induction false} AllFramesNoDup(g: Geometry)
    requires ValidGeometry(g)
    ensures NoDup(AllFrames(g))
  {
    if g == [] {
    } else {
      var init, last := g[..|g| - 1], g[|g| - 1];
      AllFramesNoDup(init);
      var a, b := AllFrames(init), SpanFrames(last, last.npage);
      forall f | f in a ensures f !in b {
        AllFramesIndex(init, f);
        var i, j :| 0 <= i < |init| && 0 <= j < init[i].npage && f == Frame(init[i], j);
        assert Apart(g[i], g[|g| - 1]);
      }
      NoDupConcat(a, b);
    }
  }

  /** Different places hold different frames. */
  lemma FrameInjective(g: Geometry, i: nat, j: nat, i': nat, j': nat)
    requires ValidGeometry(g) && i < |g| && j < g[i].npage && i' < |g| && j' < g[i'].npage
    requires i != i' || j != j'
    ensures Frame(g[i], j) != Frame(g[i'], j')
  {
    if i < i' {
      assert Apart(g[i], g[i']);
    } else if i' < i {
      assert Apart(g[i'], g[i]);
    }
  }

  lemma OthersDiffer(g: Geometry, i: nat, j: nat)
    requires ValidGeometry(g) && i < |g| && j < g[i].npage
    ensures forall i', j' :: 0 <= i' < |g| && 0 <= j' < g[i'].npage && (i' != i || j' != j) ==>
      Frame(g[i'], j') != Frame(g[i], j)
  {
    forall i', j' | 0 <= i' < |g| && 0 <= j' < g[i'].npage && (i' != i || j' != j)
      ensures Frame(g[i'], j') != Frame(g[i], j)
    {
      FrameInjective(g, i, j, i', j');
    }
  }

  /** Managed frames are page-aligned and never the null address. */
  lemma FrameFacts(g: Geometry, f: nat)
    requires ValidGeometry(g) && f in AllFrames(g)
    ensures 0 < f && f % PAGE_SIZE == 0 && PageBase(f) == f
  {
    AllFramesIndex(g, f);
  }

  // ----- refill

  /** The free list is exactly the clear frames, each once. */
  lemma FreeListFacts(g: Geometry, s: State)
    requires ValidGeometry(g) && s.clear <= Elems(AllFrames(g))
    ensures NoDup(FreeList(g, s.clear)) && Elems(FreeList(g, s.clear)) == s.clear
    ensures |FreeList(g, s.clear)| == |s.clear|
  {
    AllFramesNoDup(g);
    FilterNoDup(AllFrames(g), s.clear);
    FilterElems(AllFrames(g), s.clear);
    ElemsSize(FreeList(g, s.clear));
  }

  /** Moving a prefix of the free list from the bitmap to the stack keeps every frame owned once. */
  lemma MoveKeeps(clear: set<nat>, stk: seq<nat>, fl: seq<nat>, k: nat)
    requires NoDup(fl) && Elems(fl) == clear && NoDup(stk) && clear !! Elems(stk) && k <= |fl|
    ensures NoDup(stk + fl[..k])
    ensures (clear - Elems(fl[..k])) !! Elems(stk + fl[..k])
    ensures (clear - Elems(fl[..k])) + Elems(stk + fl[..k]) == clear + Elems(stk)
    ensures k == |fl| ==> clear - Elems(fl[..k]) == {}
  {
    NoDupSplit(fl, k);
    ElemsConcat(stk, fl[..k]);
    NoDupConcat(stk, fl[..k]);
    if k == |fl| {
      assert fl[k..] == [];
    }
  }

  lemma RefillSets(a: set<nat>, b: set<nat>, live: set<nat>, all: set<nat>, a': set<nat>, b': set<nat>)
    requires a + b == a' + b' && a !! live && b !! live && a <= all && b <= all
    ensures a' !! live && b' !! live && a' <= all && b' <= all
  {
    assert a' <= a + b && b' <= a + b;
  }

  /** A refill moves frames and loses none; it stops only at a full stack or with no clear bit left. */
  lemma RefillKeeps(g: Geometry, s: State)
    requires ValidGeometry(g) && Owned(g, s)
    ensures Owned(g, Refill(g, s))
    ensures Available(Refill(g, s)) == Available(s)
    ensures |Refill(g, s).stk| == STK_CAP || Refill(g, s).clear == {}
  {
    var fl := FreeList(g, s.clear);
    FreeListFacts(g, s);
    MoveKeeps(s.clear, s.stk, fl, Min(Room(s), |fl|));
    RefillSets(s.clear, Elems(s.stk), s.live, Elems(AllFrames(g)), Refill(g, s).clear, Elems(Refill(g, s).stk));
  }

  /** Frames past a full stack are not touched. */
  lemma MovePrefix(s: State, a: seq<nat>, b: seq<nat>)
    requires |s.stk| + |a| == STK_CAP
    ensures Move(s, a + b) == Move(s, a) == s.(clear := s.clear - Elems(a), stk := s.stk + a)
  {
    assert (a + b)[..|a|] == a && a[..|a|] == a;
  }

  lemma MoveAll(s: State, a: seq<nat>)
    requires |s.stk| + |a| <= STK_CAP
    ensures Move(s, a) == s.(clear := s.clear - Elems(a), stk := s.stk + a)
  {
    assert a[..|a|] == a;
  }

  lemma MoveIs(s: State, fl: seq<nat>, taken: seq<nat>)
    requires |s.stk| <= STK_CAP && taken == fl[..Min(STK_CAP - |s.stk|, |fl|)]
    ensures Move(s, fl) == s.(clear := s.clear - Elems(taken), stk := s.stk + taken)
  {
  }

  lemma ConcatTwice(a: seq<nat>, b: seq<nat>, c: seq<nat>)
    ensures (a + b) + c == a + (b + c)
  {
  }

  lemma TakeBoth(a: seq<nat>, b: seq<nat>, room: nat)
    requires |a| <= room
    ensures (a + b)[..Min(room, |a + b|)] == a + b[..Min(room - |a|, |b|)]
  {
  }

  lemma SubtractTwice(a: set<nat>, b: set<nat>, c: set<nat>)
    ensures (a - b) - c == a - (b + c)
  {
  }

  lemma MoveParts(s: State, a: seq<nat>, b: seq<nat>)
    ensures (s.clear - Elems(a)) - Elems(b) == s.clear - Elems(a + b) && (s.stk + a) + b == s.stk + (a + b)
  {
    ElemsConcat(a, b);
    SubtractTwice(s.clear, Elems(a), Elems(b));
    ConcatTwice(s.stk, a, b);
  }

  lemma MoveRest(s: State, a: seq<nat>, b: seq<nat>)
    requires |s.stk| + |a| <= STK_CAP
    ensures Move(s.(clear := s.clear - Elems(a), stk := s.stk + a), b) == Move(s, a + b)
  {
    var s1, b1 := s.(clear := s.clear - Elems(a), stk := s.stk + a), b[..Min(STK_CAP - |s.stk| - |a|, |b|)];
    TakeBoth(a, b, STK_CAP - |s.stk|);
    MoveIs(s, a + b, a + b1);
    MoveIs(s1, b, b1);
    MoveParts(s, a, b1);
  }

  /** Scanning two lists one after the other is scanning their concatenation. */
  lemma MoveTwice(s: State, a: seq<nat>, b: seq<nat>)
    requires |s.stk| <= STK_CAP
    ensures Move(Move(s, a), b) == Move(s, a + b)
  {
    if |a| <= Room(s) {
      MoveAll(s, a);
      MoveRest(s, a, b);
    } else {
      var a1 := a[..Room(s)];
      assert a == a1 + a[Room(s)..] && a + b == a1 + (a[Room(s)..] + b);
      MovePrefix(s, a1, a[Room(s)..]);
      MovePrefix(s, a1, a[Room(s)..] + b);
      MovePrefix(Move(s, a), [], b);
      assert Elems<nat>([]) == {};
      assert Move(s, a).clear - {} == Move(s, a).clear && Move(s, a).stk + [] == Move(s, a).stk;
    }
  }

  /** The scan of one span, one frame further. */
  lemma FilterSnoc(sp: Span, j: nat, c: set<nat>)
    ensures Filter(SpanFrames(sp, j + 1), c)
         == Filter(SpanFrames(sp, j), c) + if Frame(sp, j) in c then [Frame(sp, j)] else []
  {
    assert SpanFrames(sp, j + 1)[..j] == SpanFrames(sp, j);
  }

  /** The state after the refill loop has looked at the first `m` frames of a span. */
  ghost function Scan(s: State, sp: Span, m: nat): State {
    if m == 0 then s
    else
      var t, x := Scan(s, sp, m - 1), Frame(sp, m - 1);
      if x in t.clear then t.(clear := t.clear - {x}, stk := t.stk + [x]) else t
  }

  lemma {:induction false} ScanNone(s: State, sp: Span, m: nat)
    requires forall k :: 0 <= k < m ==> Frame(sp, k) !in s.clear
    ensures Scan(s, sp, m) == s
  {
    if m == 0 {
    } else {
      ScanNone(s, sp, m - 1);
    }
  }

  /** The state after the frames of `f` have moved from the bitmap to the stack. */
  ghost function Taken(s: State, f: seq<nat>): State {
    s.(clear := s.clear - Elems(f), stk := s.stk + f)
  }

  lemma TakenNone(s: State)
    ensures Taken(s, []) == s
  {
    assert s.stk + [] == s.stk && s.clear - {} == s.clear;
  }

  lemma TakeNext(s: State, f: seq<nat>, x: nat)
    ensures s.clear - Elems(f) - {x} == s.clear - Elems(f + [x]) && s.stk + f + [x] == s.stk + (f + [x])
  {
    ElemsConcat(f, [x]);
    assert Elems([x]) == {x};
    SubtractTwice(s.clear, Elems(f), {x});
  }

  lemma TakenNext(s: State, f: seq<nat>, x: nat)
    requires x !in Elems(f)
    ensures var t := Taken(s, f);
      (if x in t.clear then t.(clear := t.clear - {x}, stk := t.stk + [x]) else t)
        == Taken(s, f + if x in s.clear then [x] else [])
  {
    if x in s.clear {
      TakeNext(s, f, x);
    } else {
      assert f + [] == f;
    }
  }

  /** A frame not yet scanned has not been taken. */
  lemma NotYetTaken(sp: Span, j: nat, c: set<nat>)
    ensures Frame(sp, j) !in Elems(Filter(SpanFrames(sp, j), c))
  {
    FilterElems(SpanFrames(sp, j), c);
  }

  lemma {:induction false} ScanIsFilter(s: State, sp: Span, m: nat)
    ensures Scan(s, sp, m) == Taken(s, Filter(SpanFrames(sp, m), s.clear))
  {
    if m == 0 {
      TakenNone(s);
    } else {
      ScanIsFilter(s, sp, m - 1);
      var f, x := Filter(SpanFrames(sp, m - 1), s.clear), Frame(sp, m - 1);
      FilterSnoc(sp, m - 1, s.clear);
      NotYetTaken(sp, m - 1, s.clear);
      TakenNext(s, f, x);
    }
  }

  lemma FilterSplit(sp: Span, m: nat, n: nat, c: set<nat>) returns (rest: seq<nat>)
    requires m <= n
    ensures Filter(SpanFrames(sp, n), c) == Filter(SpanFrames(sp, m), c) + rest
  {
    var tail := SpanFrames(sp, n)[m..];
    assert SpanFrames(sp, n) == SpanFrames(sp, m) + tail;
    FilterConcat(SpanFrames(sp, m), tail, c);
    rest := Filter(tail, c);
  }

  /** A scan that ends at the last frame or at a full stack has moved all that `Move` moves. */
  lemma ScanEnds(s: State, sp: Span, m: nat, n: nat)
    requires m <= n && |Scan(s, sp, m).stk| <= STK_CAP
    requires m == n || |Scan(s, sp, m).stk| == STK_CAP
    ensures Scan(s, sp, m) == Move(s, Filter(SpanFrames(sp, n), s.clear))
  {
    var f := Filter(SpanFrames(sp, m), s.clear);
    ScanIsFilter(s, sp, m);
    if m == n {
      MoveAll(s, f);
    } else {
      var rest := FilterSplit(sp, m, n, s.clear);
      MovePrefix(s, f, rest);
    }
  }

  lemma {:induction false} AllFramesPrefix(g: Geometry, i: nat)
    requires i <= |g|
    ensures AllFrames(g[..i]) <= AllFrames(g)
    decreases |g|
  {
    if i == |g| {
      assert g[..i] == g;
    } else {
      assert g[..|g| - 1][..i] == g[..i];
      AllFramesPrefix(g[..|g| - 1], i);
    }
  }

  lemma SpanUntouched(g: Geometry, s: State, i: nat, f: nat)
    requires ValidGeometry(g) && i < |g| && f in SpanFrames(g[i], g[i].npage)
    ensures f !in FreeList(g[..i], s.clear)
  {
    FilterElems(AllFrames(g[..i]), s.clear);
    AllFramesIndex(g[..i], f);
    var j :| 0 <= j < g[i].npage && f == Frame(g[i], j);
    forall i', j' | 0 <= i' < i && 0 <= j' < g[i'].npage ensures f != Frame(g[i'], j') {
      FrameInjective(g, i, j, i', j');
    }
  }

  /** Refilling from the first `i` spans and then from the next one is refilling from the first `i + 1`. */
  lemma MoveNextSpan(g: Geometry, s: State, i: nat)
    requires ValidGeometry(g) && |s.stk| <= STK_CAP && i < |g|
    ensures var t, span := Move(s, FreeList(g[..i], s.clear)), SpanFrames(g[i], g[i].npage);
      Move(t, Filter(span, t.clear)) == Move(s, FreeList(g[..i + 1], s.clear))
  {
    var a, span := FreeList(g[..i], s.clear), SpanFrames(g[i], g[i].npage);
    var t := Move(s, a);
    assert g[..i + 1][..i] == g[..i];
    FilterConcat(AllFrames(g[..i]), span, s.clear);
    MoveTwice(s, a, Filter(span, s.clear));
    forall f | f in span ensures f in t.clear <==> f in s.clear {
      SpanUntouched(g, s, i, f);
    }
    FilterAgree(span, t.clear, s.clear);
  }

  /** Once the stack is full the remaining spans do not matter. */
  lemma MoveFull(g: Geometry, s: State, i: nat)
    requires i <= |g| && |s.stk| <= STK_CAP && |Move(s, FreeList(g[..i], s.clear)).stk| == STK_CAP
    ensures Move(s, FreeList(g[..i], s.clear)) == Refill(g, s)
  {
    AllFramesPrefix(g, i);
    var a, rest := AllFrames(g[..i]), AllFrames(g)[|AllFrames(g[..i])|..];
    assert AllFrames(g) == a + rest;
    FilterConcat(a, rest, s.clear);
    var fa := Filter(a, s.clear);
    assert (fa + Filter(rest, s.clear))[..Room(s)] == fa[..Room(s)];
  }

  // ----- allocation and release

  lemma PopSets(clear: set<nat>, stk: set<nat>, live: set<nat>, all: set<nat>, stk': set<nat>, p: nat)
    requires clear !! stk && clear !! live && stk !! live && stk <= all && live <= all
    requires stk' !! {p} && stk' + {p} == stk
    ensures clear !! stk' && clear !! (live + {p}) && stk' !! (live + {p}) && stk' <= all && live + {p} <= all
    ensures p !in live && p in clear + stk && clear + stk' == clear + stk - {p}
  {
    assert p in stk;
  }

  /** Handing out the top of the stack. */
  lemma PopKeeps(g: Geometry, s: State)
    requires Owned(g, s) && s.stk != []
    ensures var init, p := s.stk[..|s.stk| - 1], s.stk[|s.stk| - 1];
      var s' := s.(stk := init, live := s.live + {p});
      Owned(g, s') && p in Available(s) && p !in s.live && p in AllFrames(g) && Available(s') == Available(s) - {p}
  {
    var n := |s.stk| - 1;
    NoDupSplit(s.stk, n);
    assert s.stk[n..] == [s.stk[n]];
    assert s.stk[n] in Elems(s.stk);
    PopSets(s.clear, Elems(s.stk), s.live, Elems(AllFrames(g)), Elems(s.stk[..n]), s.stk[n]);
  }

  lemma AvailDrops(s: State, s': State, p: nat)
    requires Available(s') == Available(s) - {p} && p in Available(s)
    ensures Avail(s') == Avail(s) - 1
  {
    assert Available(s) == Available(s') + {p};
  }

  lemma AvailZero(s: State)
    ensures Avail(s) == 0 <==> s.clear == {} && s.stk == []
  {
    if s.stk != [] {
      assert s.stk[0] in Available(s);
    }
    assert s.clear <= Available(s);
  }

  /** `s'` is what is left of `s` after frame `p` has been handed out. */
  ghost predicate HandsOut(g: Geometry, s: State, s': State, p: nat) {
    && Owned(g, s') && p != PHYS_ADDR_NULL && p in Available(s) && p !in s.live && p in AllFrames(g)
    && Available(s') == Available(s) - {p} && Avail(s') == Avail(s) - 1 && s'.live == s.live + {p}
  }

  /** Handing out the top of a stack that has the frames available in `s`. */
  lemma PopMeaning(g: Geometry, s: State, s1: State)
    requires ValidGeometry(g) && Owned(g, s1) && s1.stk != [] && Available(s1) == Available(s) && s1.live == s.live
    ensures var p := s1.stk[|s1.stk| - 1];
      HandsOut(g, s, s1.(stk := s1.stk[..|s1.stk| - 1], live := s1.live + {p}), p)
  {
    var p := s1.stk[|s1.stk| - 1];
    PopKeeps(g, s1);
    FrameFacts(g, p);
    AvailDrops(s, s1.(stk := s1.stk[..|s1.stk| - 1], live := s1.live + {p}), p);
  }

  lemma RefillNothing(g: Geometry, s: State)
    requires ValidGeometry(g) && Owned(g, s) && s.clear == {}
    ensures Refill(g, s) == s
  {
    assert FreeList(g, s.clear) == [] by {
      FreeListFacts(g, s);
    }
    assert s.stk + [] == s.stk && s.clear - {} == s.clear;
  }

  /** The state after popping a stack, and the frame popped. */
  function Popped(s: State): (State, nat)
    requires s.stk != []
  {
    var p := s.stk[|s.stk| - 1];
    (s.(stk := s.stk[..|s.stk| - 1], live := s.live + {p}), p)
  }

  /** Which of the three ways an allocation goes. */
  lemma AllocIs(g: Geometry, s: State)
    ensures var full := if s.stk == [] then Refill(g, s) else s;
      Alloc(g, s) == if full.stk == [] then (full, PHYS_ADDR_NULL) else Popped(full)
  {
  }

  lemma PopMeans(g: Geometry, s: State, full: State)
    requires ValidGeometry(g) && Owned(g, full) && full.stk != []
    requires Available(full) == Available(s) && full.live == s.live
    ensures HandsOut(g, s, Popped(full).0, Popped(full).1)
  {
    PopMeaning(g, s, full);
  }

  /** A refill of a pool with a clear frame leaves something on the stack. */
  lemma RefillSome(g: Geometry, s: State)
    requires ValidGeometry(g) && Owned(g, s) && s.clear != {}
    ensures var full := Refill(g, s);
      Owned(g, full) && full.stk != [] && Available(full) == Available(s) && full.live == s.live
  {
    RefillKeeps(g, s);
    AvailZero(s);
    AvailZero(Refill(g, s));
  }

  /** Two cases: the pool is empty and stays as it is, or a frame is handed out. */
  lemma AllocCases(g: Geometry, s: State)
    requires ValidGeometry(g) && Owned(g, s)
    ensures if Avail(s) == 0 then Alloc(g, s) == (s, PHYS_ADDR_NULL)
            else HandsOut(g, s, Alloc(g, s).0, Alloc(g, s).1)
  {
    AvailZero(s);
    AllocIs(g, s);
    if s.stk != [] {
      PopMeans(g, s, s);
    } else if s.clear == {} {
      RefillNothing(g, s);
    } else {
      RefillSome(g, s);
      PopMeans(g, s, Refill(g, s));
    }
  }

  /** NULL exactly when no bit is clear and the stack is empty; otherwise a fresh frame changes hands. */
  lemma AllocMeaning(g: Geometry, s: State)
    requires ValidGeometry(g) && Owned(g, s)
    ensures var (s', p) := Alloc(g, s);
      && Owned(g, s')
      && (p == PHYS_ADDR_NULL <==> s.clear == {} && s.stk == [])
      && (p == PHYS_ADDR_NULL ==> s' == s)
      && (p != PHYS_ADDR_NULL ==>
            && p in Available(s) && p !in s.live && p in AllFrames(g)
            && Available(s') == Available(s) - {p} && Avail(s') == Avail(s) - 1
            && s'.live == s.live + {p})
  {
    AllocCases(g, s);
    AvailZero(s);
  }

  lemma FreeSets(clear: set<nat>, stk: set<nat>, live: set<nat>, all: set<nat>, f: nat)
    requires clear !! stk && clear !! live && stk !! live && clear <= all && live <= all && f in all
    ensures (clear + {f}) !! stk <==> f !in stk
    ensures (clear + {f}) !! (live - {f}) && stk !! (live - {f}) && clear + {f} <= all && live - {f} <= all
    ensures f in live ==> (clear + {f}) + stk == (clear + stk) + {f} && |(clear + {f}) + stk| == |clear + stk| + 1
  {
    if f in live {
      assert (clear + {f}) + stk == (clear + stk) + {f};
    }
  }

  /**
   A release keeps the ownership discipline exactly when the frame is not waiting on the refill stack:
   releasing a stacked frame lets the bitmap and the stack both own it.
   */
  lemma FreeKeepsIff(g: Geometry, s: State, addr: nat)
    requires ValidGeometry(g) && Owned(g, s)
    ensures Owned(g, Free(g, s, addr)) <==> PageBase(addr) !in s.stk
    ensures PageBase(addr) in s.live ==>
      Available(Free(g, s, addr)) == Available(s) + {PageBase(addr)} && Avail(Free(g, s, addr)) == Avail(s) + 1
    ensures Free(g, s, addr).live == s.live - {PageBase(addr)}
  {
    var f := PageBase(addr);
    if f in AllFrames(g) {
      FreeSets(s.clear, Elems(s.stk), s.live, Elems(AllFrames(g)), f);
    } else {
      assert f !in Elems(AllFrames(g));
      assert s.live - {f} == s.live;
    }
  }

  /** A pool of one frame, which waits on the stack. */
  lemma OneFrame()
    ensures var g, s := [Span(4096, 1)], State({}, [4096], {});
      ValidGeometry(g) && AllFrames(g) == [4096] && Owned(g, s) && Avail(s) == 1
  {
    var g, s := [Span(4096, 1)], State({}, [4096], {});
    assert g[..0] == [] && AllFrames([]) == [];
    assert SpanFrames(g[0], 1) == [4096];
    assert Elems([4096]) == {4096};
    assert Available(s) == {4096};
  }

  /** Releasing that frame while it is on the stack leaves it owned twice. */
  lemma StackedRelease()
    ensures var g, s := [Span(4096, 1)], State({}, [4096], {}); Owned(g, s) && !Owned(g, Free(g, s, 4096))
  {
    OneFrame();
    FreeKeepsIff([Span(4096, 1)], State({}, [4096], {}), 4096);
  }

  // ----- runs

  datatype Event = AllocEv | FreeEv(addr: nat)

  function Step(g: Geometry, s: State, e: Event): State {
    match e
    case AllocEv => Alloc(g, s).0
    case FreeEv(addr) => Free(g, s, addr)
  }

  function Run(g: Geometry, s: State, es: seq<Event>): State
    decreases |es|
  {
    if es == [] then s else Run(g, Step(g, s, es[0]), es[1..])
  }

  /** Callers release only frames they own. */
  ghost predicate Legal(g: Geometry, s: State, es: seq<Event>)
    decreases |es|
  {
    es != [] ==>
      && (es[0].FreeEv? ==> PageBase(es[0].addr) in s.live)
      && Legal(g, Step(g, s, es[0]), es[1..])
  }

  /** All the frames the allocator and its callers own between them. */
  function Pool(s: State): set<nat> {
    Available(s) + s.live
  }

  /** What changes hands in a step: nothing is lost and nothing owned twice. */
  ghost predicate Conserves(g: Geometry, s: State, s': State) {
    Owned(g, s') && Pool(s') == Pool(s) && Avail(s') + |s'.live| == Avail(s) + |s.live|
  }

  lemma TransferSets(a: set<nat>, b: set<nat>, p: nat)
    requires p in a && p !in b
    ensures (a - {p}) + (b + {p}) == a + b == (b + {p}) + (a - {p})
    ensures |a - {p}| + |b + {p}| == |a| + |b|
  {
    assert a == (a - {p}) + {p};
  }

  lemma AllocConserves(g: Geometry, s: State)
    requires ValidGeometry(g) && Owned(g, s)
    ensures Conserves(g, s, Alloc(g, s).0)
  {
    AllocMeaning(g, s);
    var (s', p) := Alloc(g, s);
    if p != PHYS_ADDR_NULL {
      TransferSets(Available(s), s.live, p);
    }
  }

  lemma FreeConserves(g: Geometry, s: State, addr: nat)
    requires ValidGeometry(g) && Owned(g, s) && PageBase(addr) in s.live
    ensures Conserves(g, s, Free(g, s, addr))
  {
    FreeKeepsIff(g, s, addr);
    TransferSets(s.live, Available(s), PageBase(addr));
    assert PageBase(addr) in s.stk ==> PageBase(addr) in Elems(s.stk);
  }

  lemma StepKeeps(g: Geometry, s: State, e: Event)
    requires ValidGeometry(g) && Owned(g, s)
    requires e.FreeEv? ==> PageBase(e.addr) in s.live
    ensures Conserves(g, s, Step(g, s, e))
  {
    match e
    case AllocEv => AllocConserves(g, s);
    case FreeEv(addr) => FreeConserves(g, s, addr);
  }

  lemma Parts(s: State)
    requires NoDup(s.stk) && s.clear !! Elems(s.stk)
    ensures Avail(s) == |s.clear| + |s.stk|
  {
    ElemsSize(s.stk);
  }

  /** Over every legal run: the sets stay disjoint, no frame appears or vanishes, and the count is conserved. */
  lemma {:induction false} RunKeeps(g: Geometry, s: State, es: seq<Event>)
    requires ValidGeometry(g) && Owned(g, s) && Legal(g, s, es)
    ensures Owned(g, Run(g, s, es)) && Pool(Run(g, s, es)) == Pool(s)
    ensures var s' := Run(g, s, es);
      |s'.clear| + |s'.stk| + |s'.live| == |s.clear| + |s.stk| + |s.live|
    decreases |es|
  {
    Parts(s);
    if es == [] {
    } else {
      var s1 := Step(g, s, es[0]);
      StepKeeps(g, s, es[0]);
      Parts(s1);
      RunKeeps(g, s1, es[1..]);
    }
  }

  lemma {:induction false} RunConcat(g: Geometry, s: State, a: seq<Event>, b: seq<Event>)
    ensures Run(g, s, a + b) == Run(g, Run(g, s, a), b)
    ensures Legal(g, s, a + b) <==> Legal(g, s, a) && Legal(g, Run(g, s, a), b)
    decreases |a|
  {
    if a == [] {
      assert a + b == b;
    } else {
      assert (a + b)[0] == a[0] && (a + b)[1..] == a[1..] + b;
      RunConcat(g, Step(g, s, a[0]), a[1..], b);
    }
  }

  /** A frame a caller owns stays owned until someone releases it. */
  lemma {:induction false} StaysLive(g: Geometry, s: State, es: seq<Event>, p: nat)
    requires ValidGeometry(g) && Owned(g, s) && Legal(g, s, es) && p in s.live
    requires forall e :: e in es && e.FreeEv? ==> PageBase(e.addr) != p
    ensures p in Run(g, s, es).live
    decreases |es|
  {
    if es == [] {
    } else {
      StepKeeps(g, s, es[0]);
      AllocMeaning(g, s);
      assert es[0] in es && forall e :: e in es[1..] ==> e in es;
      StaysLive(g, Step(g, s, es[0]), es[1..], p);
    }
  }

  /** The address the allocation at position `i` of a run returns. */
  function ResultAt(g: Geometry, s: State, es: seq<Event>, i: nat): nat
    requires i < |es|
  {
    Alloc(g, Run(g, s, es[..i])).1
  }

  lemma FrameNotNull(g: Geometry, s: State, p: nat)
    requires ValidGeometry(g) && Owned(g, s) && p in s.live
    ensures p != PHYS_ADDR_NULL
  {
    assert p in Elems(AllFrames(g));
    FrameFacts(g, p);
  }

  /** If an owned frame is allocated again after a run, the run released it. */
  lemma ReleaseBetween(g: Geometry, s: State, es: seq<Event>, p: nat) returns (m: nat)
    requires ValidGeometry(g) && Owned(g, s) && Legal(g, s, es)
    requires p in s.live && Alloc(g, Run(g, s, es)).1 == p
    ensures m < |es| && es[m].FreeEv? && PageBase(es[m].addr) == p
  {
    var released := exists m :: 0 <= m < |es| && es[m].FreeEv? && PageBase(es[m].addr) == p;
    if !released {
      RunKeeps(g, s, es);
      StaysLive(g, s, es, p);
      AllocMeaning(g, Run(g, s, es));
      FrameNotNull(g, Run(g, s, es), p);
    }
    m :| 0 <= m < |es| && es[m].FreeEv? && PageBase(es[m].addr) == p;
  }

  /** A run cut at an event in the middle. */
  lemma RunSplit(g: Geometry, s: State, es: seq<Event>, i: nat, j: nat)
    requires i < j <= |es|
    ensures Run(g, s, es[..j]) == Run(g, Step(g, Run(g, s, es[..i]), es[i]), es[i + 1..j])
    ensures Legal(g, s, es) ==>
      Legal(g, s, es[..i]) && Legal(g, Step(g, Run(g, s, es[..i]), es[i]), es[i + 1..j])
  {
    var a, b := es[..i], es[i..j];
    assert es[..j] == a + b && es == es[..j] + es[j..];
    RunConcat(g, s, es[..j], es[j..]);
    RunConcat(g, s, a, b);
    assert b[0] == es[i] && b[1..] == es[i + 1..j];
  }

  /** No frame is returned twice without a release of it in between. */
  lemma NoDoubleAlloc(g: Geometry, s: State, es: seq<Event>, i: nat, j: nat)
    requires ValidGeometry(g) && Owned(g, s) && Legal(g, s, es)
    requires i < j < |es| && es[i].AllocEv? && es[j].AllocEv?
    requires ResultAt(g, s, es, i) == ResultAt(g, s, es, j) != PHYS_ADDR_NULL
    ensures exists k :: i < k < j && es[k].FreeEv? && PageBase(es[k].addr) == ResultAt(g, s, es, i)
  {
    var p := ResultAt(g, s, es, i);
    var si, mid := Run(g, s, es[..i]), es[i + 1..j];
    RunSplit(g, s, es, i, j);
    RunKeeps(g, s, es[..i]);
    AllocMeaning(g, si);
    var s1 := Step(g, si, AllocEv);
    var m := ReleaseBetween(g, s1, mid, p);
    assert es[i + 1 + m] == mid[m];
  }

  /** The addresses `n` consecutive allocations return. */
  function Drain(g: Geometry, s: State, n: nat): (d: seq<nat>)
    ensures |d| == n
    decreases n
  {
    if n == 0 then [] else [Alloc(g, s).1] + Drain(g, Alloc(g, s).0, n - 1)
  }

  /** `d` lists every member of `all` once and then the null address. */
  ghost predicate TakesAll(d: seq<nat>, all: set<nat>) {
    && |d| == |all| + 1
    && NoDup(d[..|all|]) && Elems(d[..|all|]) == all
    && d[|all|] == PHYS_ADDR_NULL
  }

  lemma DrainStep(g: Geometry, s: State) returns (p: nat)
    requires ValidGeometry(g) && Owned(g, s)
    ensures Avail(s) == 0 ==> Drain(g, s, Avail(s) + 1) == [PHYS_ADDR_NULL] && Available(s) == {}
    ensures Avail(s) > 0 ==> var s' := Alloc(g, s).0;
      && Owned(g, s') && p in Available(s) && Available(s') == Available(s) - {p} && Avail(s') + 1 == Avail(s)
      && Drain(g, s, Avail(s) + 1) == [p] + Drain(g, s', Avail(s))
  {
    AllocMeaning(g, s);
    AvailZero(s);
    p := Alloc(g, s).1;
    if Avail(s) == 0 {
      assert Drain(g, Alloc(g, s).0, 0) == [];
    }
  }

  lemma TakesNone()
    ensures TakesAll([PHYS_ADDR_NULL], {})
  {
    assert [PHYS_ADDR_NULL][..0] == [];
  }

  lemma ConsTake(p: nat, d: seq<nat>, n: nat)
    requires n < |d|
    ensures ([p] + d)[..n + 1] == [p] + d[..n] && ([p] + d)[n + 1] == d[n]
  {
  }

  lemma ConsDistinct(p: nat, s: seq<nat>, all: set<nat>)
    requires NoDup(s) && Elems(s) == all - {p} && p in all
    ensures NoDup([p] + s) && Elems([p] + s) == all
  {
    ElemsConcat([p], s);
    assert Elems([p]) == {p};
    NoDupConcat([p], s);
  }

  lemma ConsTakesAll(p: nat, d: seq<nat>, all: set<nat>)
    requires p in all && TakesAll(d, all - {p})
    ensures TakesAll([p] + d, all)
  {
    var n := |all| - 1;
    assert all == (all - {p}) + {p} && |all - {p}| == n;
    ConsDistinct(p, d[..n], all);
    ConsTake(p, d, n);
  }

  /**
   Completeness of the hinted search: as many allocations as there are available frames return every one of
   them, each once, and the next allocation returns NULL.
   */
  lemma {:induction false} DrainTakesAll(g: Geometry, s: State)
    requires ValidGeometry(g) && Owned(g, s)
    ensures TakesAll(Drain(g, s, Avail(s) + 1), Available(s))
    decreases Avail(s)
  {
    var p := DrainStep(g, s);
    if Avail(s) == 0 {
      TakesNone();
    } else {
      DrainTakesAll(g, Alloc(g, s).0);
      ConsTakesAll(p, Drain(g, Alloc(g, s).0, Avail(s)), Available(s));
    }
  }
}
