/** pmm.c: in which order frames are handed out, and what a release does with an address. */
module PmmOrder {
  import opened Common
  import opened PmmSpec

  // ----- the order of the layout

  /** Frame `j` of region `i`. */
  ghost predicate At(g: Geometry, x: nat, i: nat, j: nat) {
    i < |g| && j < g[i].npage && x == g[i].base + 4096 * j
  }

  /** `x` comes before `y`: in an earlier region, or at a lower address of the same one. */
  ghost predicate Before(g: Geometry, x: nat, y: nat) {
    exists i: nat, j: nat, k: nat, l: nat :: At(g, x, i, j) && At(g, y, k, l) && (i < k || (i == k && j < l))
  }

  ghost predicate InOrder(g: Geometry, s: seq<nat>) {
    forall a, b :: 0 <= a < b < |s| ==> Before(g, s[a], s[b])
  }

  lemma AtEarlier(g: Geometry, n: nat, x: nat, i: nat, j: nat)
    requires n <= |g| && At(g[..n], x, i, j)
    ensures At(g, x, i, j)
  {
  }

  lemma BeforeEarlier(g: Geometry, n: nat, x: nat, y: nat)
    requires n <= |g| && Before(g[..n], x, y)
    ensures Before(g, x, y)
  {
    var i: nat, j: nat, k: nat, l: nat :|
      At(g[..n], x, i, j) && At(g[..n], y, k, l) && (i < k || (i == k && j < l));
    AtEarlier(g, n, x, i, j);
    AtEarlier(g, n, y, k, l);
  }

  lemma FramesHavePlaces(g: Geometry, x: nat)
    requires x in AllFrames(g)
    ensures exists i: nat, j: nat :: At(g, x, i, j)
  {
    AllFramesIndex(g, x);
    var i, j :| 0 <= i < |g| && 0 <= j < g[i].npage && x == Frame(g[i], j);
    assert At(g, x, i, j);
  }

  /** A frame of an earlier region comes before frame `b` of the last one. */
  lemma BeforeLast(g: Geometry, x: nat, b: nat)
    requires g != [] && x in AllFrames(g[..|g| - 1]) && b < g[|g| - 1].npage
    ensures Before(g, x, Frame(g[|g| - 1], b))
  {
    var n := |g| - 1;
    FramesHavePlaces(g[..n], x);
    var i: nat, j: nat :| At(g[..n], x, i, j);
    AtEarlier(g, n, x, i, j);
    assert At(g, Frame(g[n], b), n, b);
  }

  lemma WithinLast(g: Geometry, a: nat, b: nat)
    requires g != [] && a < b < g[|g| - 1].npage
    ensures Before(g, Frame(g[|g| - 1], a), Frame(g[|g| - 1], b))
  {
    var n := |g| - 1;
    assert At(g, Frame(g[n], a), n, a) && At(g, Frame(g[n], b), n, b);
  }

  lemma {:induction false} AllFramesInOrder(g: Geometry)
    ensures InOrder(g, AllFrames(g))
  {
    if g == [] {
    } else {
      var n := |g| - 1;
      var first, last := AllFrames(g[..n]), SpanFrames(g[n], g[n].npage);
      AllFramesInOrder(g[..n]);
      forall a, b | 0 <= a < b < |AllFrames(g)| ensures Before(g, AllFrames(g)[a], AllFrames(g)[b]) {
        if b < |first| {
          BeforeEarlier(g, n, first[a], first[b]);
        } else if a < |first| {
          BeforeLast(g, first[a], b - |first|);
        } else {
          WithinLast(g, a - |first|, b - |first|);
        }
      }
    }
  }

  /** Element `a` of `t` stands in `s` where `from` says, in the same order. */
  ghost predicate PlacedBy(s: seq<nat>, t: seq<nat>, from: seq<nat>) {
    && |from| == |t|
    && (forall a :: 0 <= a < |from| ==> from[a] < |s| && s[from[a]] == t[a])
    && (forall a, b :: 0 <= a < b < |from| ==> from[a] < from[b])
  }

  lemma PlacesLast(s: seq<nat>, t: seq<nat>, from: seq<nat>, x: nat)
    requires PlacedBy(s, t, from)
    ensures PlacedBy(s + [x], t, from) && PlacedBy(s + [x], t + [x], from + [|s|])
  {
  }

  /** Filtering keeps the order. */
  lemma {:induction false} FilterPlaces(s: seq<nat>, c: set<nat>) returns (from: seq<nat>)
    ensures PlacedBy(s, Filter(s, c), from)
  {
    if s == [] {
      from := [];
    } else {
      var last := |s| - 1;
      var init, x := s[..last], s[last];
      from := FilterPlaces(init, c);
      PlacesLast(init, Filter(init, c), from, x);
      assert s == init + [x];
      if x in c {
        from := from + [last];
      }
    }
  }

  lemma FreeListInOrder(g: Geometry, clear: set<nat>)
    ensures InOrder(g, FreeList(g, clear))
  {
    var all := AllFrames(g);
    AllFramesInOrder(g);
    var from := FilterPlaces(all, clear);
    forall a, b | 0 <= a < b < |FreeList(g, clear)| ensures Before(g, FreeList(g, clear)[a], FreeList(g, clear)[b]) {
      assert all[from[a]] == FreeList(g, clear)[a] && all[from[b]] == FreeList(g, clear)[b];
    }
  }

  // ----- a refill

  lemma LeftBehind(fl: seq<nat>, k: nat, x: nat) returns (b: nat)
    requires k <= |fl| && x in Elems(fl) && x !in Elems(fl[..k])
    ensures k <= b < |fl| && fl[b] == x
  {
    b :| 0 <= b < |fl| && fl[b] == x;
    assert forall j :: 0 <= j < k ==> fl[..k][j] == fl[j];
  }

  lemma PrefixFirst(g: Geometry, fl: seq<nat>, k: nat, x: nat, y: nat)
    requires InOrder(g, fl) && k <= |fl| && x in fl[..k] && y in Elems(fl) && y !in Elems(fl[..k])
    ensures Before(g, x, y)
  {
    var a :| 0 <= a < k && fl[..k][a] == x;
    var b := LeftBehind(fl, k, y);
    assert fl[a] == x;
  }

  lemma PrefixInOrder(g: Geometry, fl: seq<nat>, k: nat)
    requires InOrder(g, fl) && k <= |fl|
    ensures InOrder(g, fl[..k])
  {
  }

  /** What a refill takes. */
  lemma RefillTakes(g: Geometry, s: State) returns (fl: seq<nat>, k: nat)
    requires ValidGeometry(g) && Owned(g, s)
    ensures fl == FreeList(g, s.clear) && k <= |fl| && Elems(fl) == s.clear && Elems(fl[..k]) <= s.clear
    ensures Refill(g, s) == State(s.clear - Elems(fl[..k]), s.stk + fl[..k], s.live)
    ensures |s.stk| + k <= 256 && (|s.stk| + k == 256 || Refill(g, s).clear == {})
  {
    fl, k := FreeList(g, s.clear), Min(Room(s), |FreeList(g, s.clear)|);
    FreeListFacts(g, s);
    RefillKeeps(g, s);
    NoDupSplit(fl, k);
  }

  /**
   A refill puts clear frames on top of the stack, in the order of the layout, until 256 are stacked or none is clear;
     and
   every frame it leaves clear comes after all of them.
   */
  lemma RefillOrder(g: Geometry, s: State) returns (taken: seq<nat>)
    requires ValidGeometry(g) && Owned(g, s)
    ensures Refill(g, s) == State(s.clear - Elems(taken), s.stk + taken, s.live) && Elems(taken) <= s.clear
    ensures |Refill(g, s).stk| <= 256 && (|Refill(g, s).stk| == 256 || Refill(g, s).clear == {})
    ensures InOrder(g, taken)
    ensures forall x, y :: x in taken && y in Refill(g, s).clear ==> Before(g, x, y)
  {
    var fl, k := RefillTakes(g, s);
    taken := fl[..k];
    FreeListInOrder(g, s.clear);
    PrefixInOrder(g, fl, k);
    forall x, y | x in taken && y in Refill(g, s).clear ensures Before(g, x, y) {
      PrefixFirst(g, fl, k, x, y);
    }
  }

  /** Frames come off the stack last in, first out; with an empty stack, off the refilled one. */
  lemma AllocPops(g: Geometry, s: State)
    ensures var (s', p), full := Alloc(g, s), if s.stk == [] then Refill(g, s) else s;
      && s'.clear == full.clear
      && (full.stk != [] ==> full.stk == s'.stk + [p])
      && (full.stk == [] ==> s'.stk == [] && p == 0)
  {
  }

  // ----- a release

  lemma PlaceOfAddress(g: Geometry, addr: nat, i: nat, j: nat)
    requires ValidGeometry(g) && i < |g| && j < g[i].npage
    requires g[i].base + 4096 * j <= addr < g[i].base + 4096 * j + 4096
    ensures PageBase(addr) == g[i].base + 4096 * j
  {
  }

  /** Releasing any address inside a managed frame clears that frame's bit and touches nothing else. */
  lemma FreeInside(g: Geometry, s: State, addr: nat, i: nat, j: nat)
    requires ValidGeometry(g) && i < |g| && j < g[i].npage
    requires g[i].base + 4096 * j <= addr < g[i].base + 4096 * j + 4096
    ensures var f := g[i].base + 4096 * j; Free(g, s, addr) == State(s.clear + {f}, s.stk, s.live - {f})
  {
    var f := g[i].base + 4096 * j;
    PlaceOfAddress(g, addr, i, j);
    AllFramesIndex(g, f);
    assert f == Frame(g[i], j);
  }

  ghost predicate Managed(g: Geometry, addr: nat, i: nat) {
    i < |g| && g[i].base <= addr < g[i].base + 4096 * g[i].npage
  }

  /** Releasing an address outside every region does nothing. */
  lemma FreeOutside(g: Geometry, s: State, addr: nat)
    requires ValidGeometry(g) && forall i: nat :: !Managed(g, addr, i)
    ensures Free(g, s, addr) == s
  {
    var f := PageBase(addr);
    if f in AllFrames(g) {
      FramesHavePlaces(g, f);
      var i: nat, j: nat :| At(g, f, i, j);
      assert Managed(g, addr, i);
      assert false;
    }
  }
}
