/**
 fat.c: walking a directory, whose entries are read through the block cache. Entries are numbered from the start of
 the volume: entry `a` is the 32 bytes at position `32 * a`.
 */
module FatDir {
  import opened Common
  import opened Blkdev
  import opened BlkCache

  const ENTRY: nat := 32

  datatype Kind = EndMark | Deleted | LongName | Standard

  /** What `fat_next_dirent` and `fat_get_dirent_info` make of an entry. */
  function KindOf(e: seq<Byte>): Kind
    requires |e| == ENTRY
  {
    if e[0] == 0 then EndMark
    else if e[0] == 0xe5 then Deleted
    else if e[11] == 0x0f then LongName
    else Standard
  }

  /** The entries that fit the volume. */
  function EntryCnt(vol: seq<Byte>): nat {
    |vol| / ENTRY
  }

  function KindAt(vol: seq<Byte>, a: nat): Kind
    requires a < EntryCnt(vol)
  {
    KindOf(vol[ENTRY * a..ENTRY * a + ENTRY])
  }

  /** From entry `a` on there are entries up to `end`, which is an end marker. */
  ghost predicate Directory(vol: seq<Byte>, a: nat, end: nat) {
    a <= end < EntryCnt(vol) && KindAt(vol, end) == EndMark && forall i :: a <= i < end ==> KindAt(vol, i) != EndMark
  }

  /** The next standard entry at or after `a`, or the end marker. */
  function NextStandard(vol: seq<Byte>, a: nat, end: nat): (s: nat)
    requires Directory(vol, a, end)
    ensures a <= s <= end && (s < end ==> KindAt(vol, s) == Standard)
    ensures forall i :: a <= i < s ==> KindAt(vol, i) != Standard
    decreases end - a
  {
    if a == end || KindAt(vol, a) == Standard then a else NextStandard(vol, a + 1, end)
  }

  /** The bytes of entries `a` to `s`. */
  function Group(vol: seq<Byte>, a: nat, s: nat): seq<Byte>
    requires a <= s < EntryCnt(vol)
  {
    vol[ENTRY * a..ENTRY * s + ENTRY]
  }

  /** Every byte from the first entry through the standard one, and no other. */
  lemma GroupBytes(vol: seq<Byte>, a: nat, s: nat, k: nat)
    requires a <= s < EntryCnt(vol)
    ensures |Group(vol, a, s)| == 32 * (s - a + 1) && Group(vol, a, s) <= vol[32 * a..]
    ensures k < |Group(vol, a, s)| ==> Group(vol, a, s)[k] == vol[32 * a + k]
  {
    assert vol[32 * a..][..32 * (s - a + 1)] == Group(vol, a, s);
  }

  /** `fat_next_dirent`: the position behind the next standard entry, or 0 at the end of the directory. */
  function NextDirent(vol: seq<Byte>, a: nat, end: nat): nat
    requires Directory(vol, a, end)
  {
    var s := NextStandard(vol, a, end);
    if s == end then 0 else ENTRY * s + ENTRY
  }

  /**
   `fat_find_dirent` from entry `a`: the entry it returns. The comparison of names is a predicate on the bytes that
   hold the name, those `fat_get_dirent_info` has looked at.
   */
  function Find(vol: seq<Byte>, a: nat, end: nat, matches: seq<Byte> -> bool): (found: Option<nat>)
    requires Directory(vol, a, end)
    ensures found.Some? ==> a <= found.value < end
    decreases end - a
  {
    var s := NextStandard(vol, a, end);
    if s == end then None
    else if matches(Group(vol, a, s)) then Some(a)
    else Find(vol, s + 1, end, matches)
  }

  /** The standard entries it looks at on the way. */
  function Visits(vol: seq<Byte>, a: nat, end: nat, matches: seq<Byte> -> bool): seq<nat>
    requires Directory(vol, a, end)
    decreases end - a
  {
    var s := NextStandard(vol, a, end);
    if s == end then []
    else if matches(Group(vol, a, s)) then [s]
    else [s] + Visits(vol, s + 1, end, matches)
  }

  // ----- what it should visit

  /** The standard entries from `a` up to `end`, in order. */
  function Standards(vol: seq<Byte>, a: nat, end: nat): (s: seq<nat>)
    requires a <= end <= EntryCnt(vol)
    ensures forall i :: 0 <= i < |s| ==> a <= s[i] < end
    decreases end - a
  {
    if a == end then []
    else Standards(vol, a, end - 1) + if KindAt(vol, end - 1) == Standard then [end - 1] else []
  }

  lemma ConcatAssoc(a: seq<nat>, b: seq<nat>, c: seq<nat>)
    ensures (a + b) + c == a + (b + c)
  {
  }

  lemma ConcatEmpty(a: seq<nat>)
    ensures [] + a == a == a + []
  {
  }

  /** Counting from the front gives the same list. */
  lemma {:induction false} StandardsFront(vol: seq<Byte>, a: nat, end: nat)
    requires a < end <= EntryCnt(vol)
    ensures Standards(vol, a, end) == (if KindAt(vol, a) == Standard then [a] else []) + Standards(vol, a + 1, end)
    decreases end - a
  {
    var first := if KindAt(vol, a) == Standard then [a] else [];
    if a + 1 == end {
      assert Standards(vol, a, end - 1) == [] && Standards(vol, a + 1, end) == [];
      assert Standards(vol, a, end) == [] + first;
      ConcatEmpty(first);
    } else {
      StandardsFront(vol, a, end - 1);
      var last := if KindAt(vol, end - 1) == Standard then [end - 1] else [];
      assert Standards(vol, a, end) == Standards(vol, a, end - 1) + last;
      assert Standards(vol, a + 1, end) == Standards(vol, a + 1, end - 1) + last;
      ConcatAssoc(first, Standards(vol, a + 1, end - 1), last);
    }
  }

  lemma {:induction false} StandardsSkip(vol: seq<Byte>, a: nat, s: nat, end: nat)
    requires a <= s <= end <= EntryCnt(vol) && forall i :: a <= i < s ==> KindAt(vol, i) != Standard
    ensures Standards(vol, a, end) == Standards(vol, s, end)
    decreases s - a
  {
    if a < s {
      var b := a + 1;
      StandardsFront(vol, a, end);
      ConcatEmpty(Standards(vol, b, end));
      StandardsSkip(vol, b, s, end);
    }
  }

  /** The standard entries of a directory: the next one, and those behind it. */
  lemma StandardsNext(vol: seq<Byte>, a: nat, end: nat)
    requires Directory(vol, a, end)
    ensures var s := NextStandard(vol, a, end);
      Standards(vol, a, end) == if s == end then [] else [s] + Standards(vol, s + 1, end)
  {
    var s := NextStandard(vol, a, end);
    StandardsSkip(vol, a, s, end);
    if s < end {
      StandardsFront(vol, s, end);
    }
  }

  /** Where the group of the `i`-th standard entry starts: behind the one before it. */
  function GroupStart(all: seq<nat>, a: nat, i: nat): nat
    requires i < |all|
  {
    if i == 0 then a else all[i - 1] + 1
  }

  /** The group of the `i`-th standard entry matches. */
  predicate GroupMatches(vol: seq<Byte>, all: seq<nat>, a: nat, matches: seq<Byte> -> bool, i: nat)
    requires i < |all|
  {
    GroupStart(all, a, i) <= all[i] < EntryCnt(vol) && matches(Group(vol, GroupStart(all, a, i), all[i]))
  }

  lemma ShiftGroups(vol: seq<Byte>, all: seq<nat>, a: nat, s: nat, rest: seq<nat>, matches: seq<Byte> -> bool, h: nat)
    requires all == [s] + rest && h < |rest|
    ensures GroupStart(all, a, h + 1) == GroupStart(rest, s + 1, h)
    ensures GroupMatches(vol, all, a, matches, h + 1) <==> GroupMatches(vol, rest, s + 1, matches, h)
  {
  }

  /** The first of the groups that matches, if any, is what the walk stops at. */
  ghost predicate StopsAt(vol: seq<Byte>, all: seq<nat>, a: nat, matches: seq<Byte> -> bool, i: nat,
                          found: Option<nat>, visited: seq<nat>)
  {
    && i <= |all|
    && (forall h :: 0 <= h < i ==> !GroupMatches(vol, all, a, matches, h))
    && (i < |all| ==>
          GroupMatches(vol, all, a, matches, i) && found == Some(GroupStart(all, a, i)) && visited == all[..i + 1])
    && (i == |all| ==> found == None && visited == all)
  }

  lemma StopsLater(vol: seq<Byte>, a: nat, s: nat, rest: seq<nat>, matches: seq<Byte> -> bool, i: nat,
                   found: Option<nat>, visited: seq<nat>)
    requires StopsAt(vol, rest, s + 1, matches, i, found, visited)
    requires !GroupMatches(vol, [s] + rest, a, matches, 0)
    ensures StopsAt(vol, [s] + rest, a, matches, i + 1, found, [s] + visited)
  {
    var all := [s] + rest;
    forall h | 0 <= h < i + 1 ensures !GroupMatches(vol, all, a, matches, h) {
      if h > 0 {
        ShiftGroups(vol, all, a, s, rest, matches, h - 1);
      }
    }
    if i < |rest| {
      ShiftGroups(vol, all, a, s, rest, matches, i);
      assert all[..i + 2] == [s] + rest[..i + 1];
    }
  }

  /**
   `fat_find_dirent` looks at the standard entries before the end marker once each and in order, up to the first
   whose group matches, and returns where that group starts; it returns nothing exactly when none matches.
   */
  lemma {:induction false} FindMeaning(vol: seq<Byte>, a: nat, end: nat, matches: seq<Byte> -> bool) returns (i: nat)
    requires Directory(vol, a, end)
    ensures StopsAt(vol, Standards(vol, a, end), a, matches, i, Find(vol, a, end, matches),
      Visits(vol, a, end, matches))
    decreases end - a
  {
    var all, s := Standards(vol, a, end), NextStandard(vol, a, end);
    StandardsNext(vol, a, end);
    if s == end {
      i := 0;
    } else {
      var b := s + 1;
      assert all[0] == s && GroupStart(all, a, 0) == a;
      assert GroupMatches(vol, all, a, matches, 0) <==> matches(Group(vol, a, s));
      if matches(Group(vol, a, s)) {
        assert all[..1] == [s];
        i := 0;
      } else {
        var rest := FindMeaning(vol, b, end, matches);
        StopsLater(vol, a, s, Standards(vol, b, end), matches, rest, Find(vol, b, end, matches),
                   Visits(vol, b, end, matches));
        i := rest + 1;
      }
    }
  }

  // ----- through the block cache

  /** The bytes of the device. */
  function Volume(d: Dev, disk: seq<Byte>): seq<Byte>
    requires OnDisk(d, disk)
  {
    SliceOnDisk(d, disk, 0, d.nblk * d.blkSize);
    Slice(disk, d, 0, d.nblk * d.blkSize)
  }

  /** A cache in order, over a device of sectors, whose end no register wraps on. */
  ghost predicate Mounted(cache: BlockCache, disk: seq<Byte>)
    reads cache, cache.buf
  {
    && OnDisk(cache.dev, disk) && cache.dev.blkSize == 512 && cache.buf.Length == 512
    && cache.dev.nblk * 512 + 1024 <= TWO64
    && CacheOk(cache.Abs(), cache.dev, disk)
  }

  lemma InsideBlock(pos: nat)
    requires pos % 32 == 0
    ensures pos % 512 + 32 <= 512
  {
    assert pos % 512 % 32 == 0;
  }

  /** An entry lies in one block of the device. */
  lemma EntryInBlock(d: Dev, disk: seq<Byte>, pos: nat)
    requires OnDisk(d, disk) && d.blkSize == 512 && d.nblk * 512 + 1024 <= TWO64
    requires pos % ENTRY == 0 && pos / ENTRY < EntryCnt(Volume(d, disk))
    ensures NoWrap(d, pos, ENTRY) && OneBlock(d, pos, ENTRY) && InRange(d, pos, ENTRY)
    ensures FirstBlk(d) * d.blkSize + pos + ENTRY <= |disk|
    ensures Slice(disk, d, pos, ENTRY) == Volume(d, disk)[ENTRY * (pos / ENTRY)..ENTRY * (pos / ENTRY) + ENTRY]
  {
    InsideBlock(pos);
    Positions(d, pos, ENTRY);
    SliceOnDisk(d, disk, pos, ENTRY);
    assert ENTRY * (pos / ENTRY) == pos;
  }

  /** `blk_cache_rd` of one entry. */
  method ReadEntry(cache: BlockCache, disk: seq<Byte>, pos: nat, rdBuf: array<Byte>) returns (code: nat)
    requires Mounted(cache, disk) && rdBuf.Length == ENTRY && rdBuf != cache.buf
    requires pos % ENTRY == 0 && pos / ENTRY < EntryCnt(Volume(cache.dev, disk))
    modifies cache, cache.buf, rdBuf
    ensures Mounted(cache, disk) && code == 0
    ensures pos + 32 <= |Volume(cache.dev, disk)| && rdBuf[..] == Volume(cache.dev, disk)[pos..pos + 32]
    ensures KindOf(rdBuf[..]) == KindAt(Volume(cache.dev, disk), pos / ENTRY)
  {
    ghost var c := cache.Abs();
    var beyond := seq(512, _ => 0 as Byte);
    EntryInBlock(cache.dev, disk, pos);
    OneBlockRead(c, cache.dev, disk, pos, ENTRY, beyond);
    code := cache.Read(disk, rdBuf, pos, ENTRY, beyond);
    assert rdBuf[..] == rdBuf[..ENTRY] && ENTRY * (pos / ENTRY) == pos;
  }

  /** The loop that skips to the next standard entry; `found` is false at the end marker. */
  method SkipToStandard(cache: BlockCache, disk: seq<Byte>, de: nat, ghost end: nat) returns (last: nat, found: bool)
    requires Mounted(cache, disk) && de % ENTRY == 0 && Directory(Volume(cache.dev, disk), de / ENTRY, end)
    modifies cache, cache.buf
    ensures Mounted(cache, disk) && last % ENTRY == 0
    ensures last / ENTRY == NextStandard(Volume(cache.dev, disk), de / ENTRY, end) && found == (last / ENTRY < end)
  {
    ghost var vol := Volume(cache.dev, disk);
    var rdBuf := new Byte[ENTRY];
    last, found := de, false;
    var more := true;
    while more
      invariant Mounted(cache, disk) && last % ENTRY == 0 && Directory(vol, last / ENTRY, end)
      invariant NextStandard(vol, de / ENTRY, end) == NextStandard(vol, last / ENTRY, end)
      invariant more ==> !found
      invariant !more ==> last / ENTRY == NextStandard(vol, last / ENTRY, end) && found == (last / ENTRY < end)
      decreases end - last / ENTRY, more
    {
      var _ := ReadEntry(cache, disk, last, rdBuf);
      assert KindAt(vol, last / ENTRY) == EndMark <==> last / ENTRY == end;
      if rdBuf[0] == 0 {
        more := false;
      } else if rdBuf[0] == 0xe5 || rdBuf[11] == 0x0f {
        last := last + ENTRY;
      } else {
        more, found := false, true;
      }
    }
  }

  /** `fat_next_dirent`; its second loop looks again at the entry the first one stopped at. */
  method NextDe(cache: BlockCache, disk: seq<Byte>, curDe: nat, ghost end: nat) returns (next: nat)
    requires Mounted(cache, disk) && curDe % ENTRY == 0 && Directory(Volume(cache.dev, disk), curDe / ENTRY, end)
    modifies cache, cache.buf
    ensures Mounted(cache, disk) && next == NextDirent(Volume(cache.dev, disk), curDe / ENTRY, end)
    ensures var s := NextStandard(Volume(cache.dev, disk), curDe / ENTRY, end);
      next == if s == end then 0 else 32 * (s + 1)
  {
    var last, found := SkipToStandard(cache, disk, curDe, end);
    if !found {
      return 0;
    }
    var rdBuf := new Byte[ENTRY];
    var nextDe: int, more := last + ENTRY, true;
    while more
      invariant Mounted(cache, disk) && nextDe == last + ENTRY
      decreases more
    {
      var _ := ReadEntry(cache, disk, last, rdBuf);
      nextDe := if rdBuf[0] == 0 then 0 else if rdBuf[0] == 0xe5 then nextDe + ENTRY else nextDe;
      more := rdBuf[0] == 0xe5;
    }
    next := nextDe;
  }

  predicate Aligned(pos: nat) {
    pos == ENTRY * (pos / ENTRY)
  }

  /** `fat_get_dirent_info` and the comparison of the name it finds; `ok` is false when it fails. */
  method Look(cache: BlockCache, disk: seq<Byte>, de: nat, matches: seq<Byte> -> bool, ghost end: nat)
    returns (ok: bool, hit: bool)
    requires Mounted(cache, disk) && de % ENTRY == 0 && Directory(Volume(cache.dev, disk), de / ENTRY, end)
    modifies cache, cache.buf
    ensures Mounted(cache, disk)
    ensures var s := NextStandard(Volume(cache.dev, disk), de / ENTRY, end);
      ok == (s < end) && (ok ==> hit == matches(Group(Volume(cache.dev, disk), de / ENTRY, s)))
  {
    var last;
    last, ok := SkipToStandard(cache, disk, de, end);
    if !ok {
      return false, false;
    }
    assert Aligned(de) && Aligned(last);
    hit := matches(Volume(cache.dev, disk)[de..last + ENTRY]);
  }

  lemma EntryPosition(a: nat)
    ensures ENTRY * a % ENTRY == 0 && ENTRY * a / ENTRY == a
  {
  }

  /** The search has reached entry `a`, having looked at `visited`, and will come to `found` and `all`. */
  ghost predicate Searching(vol: seq<Byte>, a: nat, end: nat, matches: seq<Byte> -> bool, visited: seq<nat>,
                            found: Option<nat>, all: seq<nat>)
  {
    Directory(vol, a, end) && found == Find(vol, a, end, matches) && all == visited + Visits(vol, a, end, matches)
  }

  lemma SearchStarts(vol: seq<Byte>, a: nat, end: nat, matches: seq<Byte> -> bool)
    requires Directory(vol, a, end)
    ensures Searching(vol, a, end, matches, [], Find(vol, a, end, matches), Visits(vol, a, end, matches))
  {
    ConcatEmpty(Visits(vol, a, end, matches));
  }

  lemma SearchEnds(vol: seq<Byte>, a: nat, end: nat, matches: seq<Byte> -> bool, visited: seq<nat>, found: Option<nat>,
                   all: seq<nat>)
    requires Searching(vol, a, end, matches, visited, found, all) && NextStandard(vol, a, end) == end
    ensures found == None && all == visited
  {
  }

  lemma SearchHits(vol: seq<Byte>, a: nat, end: nat, matches: seq<Byte> -> bool, visited: seq<nat>, found: Option<nat>,
                   all: seq<nat>, s: nat)
    requires Searching(vol, a, end, matches, visited, found, all)
    requires s == NextStandard(vol, a, end) < end && matches(Group(vol, a, s))
    ensures found == Some(a) && all == visited + [s]
  {
  }

  lemma SearchGoesOn(vol: seq<Byte>, a: nat, end: nat, matches: seq<Byte> -> bool, visited: seq<nat>,
                     found: Option<nat>, all: seq<nat>, s: nat) returns (more: seq<nat>)
    requires Searching(vol, a, end, matches, visited, found, all)
    requires s == NextStandard(vol, a, end) < end && !matches(Group(vol, a, s))
    ensures more == visited + [s] && Searching(vol, s + 1, end, matches, more, found, all)
  {
    more := visited + [s];
    ConcatAssoc(visited, [s], Visits(vol, s + 1, end, matches));
  }

  /** One round of `fat_find_dirent`: the entry under `de`, and the position of the next when it is not a hit. */
  method Probe(cache: BlockCache, disk: seq<Byte>, de: nat, matches: seq<Byte> -> bool, ghost a: nat, ghost end: nat)
    returns (ok: bool, hit: bool, next: nat)
    requires Mounted(cache, disk) && de == ENTRY * a && Directory(Volume(cache.dev, disk), a, end)
    modifies cache, cache.buf
    ensures Mounted(cache, disk)
    ensures var vol := Volume(cache.dev, disk);
      var s := NextStandard(vol, a, end);
      ok == (s < end) && (ok ==> hit == matches(Group(vol, a, s)) && (!hit ==> next == ENTRY * (s + 1)))
  {
    EntryPosition(a);
    ok, hit := Look(cache, disk, de, matches, end);
    next := 0;
    if ok && !hit {
      next := NextDe(cache, disk, de, end);
    }
  }

  /** The position of an entry; 0 stands for none, so an entry at position 0 reads as not found. */
  function PositionOf(a: Option<nat>): nat {
    match a
    case None => 0
    case Some(e) => ENTRY * e
  }

  /** One round of `fat_find_dirent`, and what the search has come to after it. */
  method Round(cache: BlockCache, disk: seq<Byte>, de: nat, matches: seq<Byte> -> bool, ghost a: nat, ghost end: nat,
               ghost visited: seq<nat>, ghost target: Option<nat>, ghost all: seq<nat>)
    returns (done: bool, found: nat, next: nat, ghost a': nat, ghost visited': seq<nat>)
    requires Mounted(cache, disk) && de == ENTRY * a
    requires Searching(Volume(cache.dev, disk), a, end, matches, visited, target, all)
    modifies cache, cache.buf
    ensures Mounted(cache, disk)
    ensures done ==> found == PositionOf(target) && visited' == all
    ensures !done ==>
      && a < a' <= end && next == ENTRY * a'
      && Searching(Volume(cache.dev, disk), a', end, matches, visited', target, all)
  {
    ghost var vol := Volume(cache.dev, disk);
    ghost var s := NextStandard(vol, a, end);
    a', visited' := s + 1, visited;
    var ok, hit;
    ok, hit, next := Probe(cache, disk, de, matches, a, end);
    if !ok {
      SearchEnds(vol, a, end, matches, visited, target, all);
      done, found := true, 0;
    } else if hit {
      SearchHits(vol, a, end, matches, visited, target, all, s);
      done, found, visited' := true, de, visited + [s];
    } else {
      done, found := false, 0;
      visited' := SearchGoesOn(vol, a, end, matches, visited, target, all, s);
    }
  }

  /** `fat_find_dirent` from entry `first`; `visited` records the standard entries it looks at. */
  method FindDirent(cache: BlockCache, disk: seq<Byte>, curDe: nat, matches: seq<Byte> -> bool, ghost first: nat,
                    ghost end: nat) returns (found: nat, ghost visited: seq<nat>)
    requires Mounted(cache, disk) && curDe == ENTRY * first && Directory(Volume(cache.dev, disk), first, end)
    modifies cache, cache.buf
    ensures Mounted(cache, disk)
    ensures visited == Visits(Volume(cache.dev, disk), first, end, matches)
    ensures found == PositionOf(Find(Volume(cache.dev, disk), first, end, matches))
    ensures 0 < first ==> (found == 0 <==> Find(Volume(cache.dev, disk), first, end, matches) == None)
    ensures var entry := Find(Volume(cache.dev, disk), first, end, matches); entry.Some? ==> found == 32 * entry.value
  {
    ghost var vol, a := Volume(cache.dev, disk), first;
    ghost var target, all := Find(vol, a, end, matches), Visits(vol, a, end, matches);
    SearchStarts(vol, a, end, matches);
    var de, done := curDe, false;
    found, visited := 0, [];
    while !done
      invariant Mounted(cache, disk)
      invariant !done ==> de == ENTRY * a && Searching(vol, a, end, matches, visited, target, all)
      invariant done ==> found == PositionOf(target) && visited == all
      decreases !done, end - a
    {
      done, found, de, a, visited := Round(cache, disk, de, matches, a, end, visited, target, all);
    }
  }
}
