/** fat.c: which file IDs are open, over calls that open and close. */
module FatDescs {
  import opened Common
  import opened FatFiles

  /** A closed file is closed: nothing is left of it, nothing can be read from it, and no other file is touched. */
  lemma CloseMeaning(ds: seq<Desc>, fid: nat, n: nat)
    requires IsFid(ds, fid)
    ensures var ds' := Close(ds, fid);
      && |ds'| == |ds| && !ds'[fid - 1].open && !ds'[fid - 1].read && !ds'[fid - 1].write
      && ds'[fid - 1].size == 0 && ds'[fid - 1].filePos == 0 && ds'[fid - 1].cluster == 0
      && !MayRead(ds'[fid - 1], n)
      && (forall i :: 0 <= i < |ds| && i != fid - 1 ==> ds'[i] == ds[i])
  {
  }

  /** The slot of a closed file can be had again: the next open succeeds, with its ID or a lower one. */
  lemma ReopenMeaning(ds: seq<Desc>, fid: nat, info: Info, read: bool, write: bool)
    requires IsFid(ds, fid) && !info.dir && !(write && info.readOnly)
    ensures var (ds', again) := Open(Close(ds, fid), Some(info), read, write);
      && 1 <= again <= fid && !Close(ds, fid)[again - 1].open
      && ds'[again - 1] == Desc(info.cluster, info.size, 0, true, read, write)
  {
    OpenMeaning(Close(ds, fid), Some(info), read, write);
    CloseMeaning(ds, fid, 0);
  }

  /** There are 128 descriptors: an open that nothing else forbids fails exactly when all of them are open. */
  lemma FullAt128(ds: seq<Desc>, info: Info, read: bool, write: bool)
    requires DescsOk(ds) && !info.dir && !(write && info.readOnly)
    ensures var fid := Open(ds, Some(info), read, write).1;
      fid <= 128 && (fid == 0 <==> forall i :: 0 <= i < 128 ==> ds[i].open)
  {
    OpenMeaning(ds, Some(info), read, write);
  }

  /** What is closed and opened again, with no lower slot free, gets its old ID back. */
  lemma SameSlot(ds: seq<Desc>, fid: nat, info: Info, read: bool, write: bool)
    requires IsFid(ds, fid) && !info.dir && !(write && info.readOnly)
    requires forall i :: 0 <= i < fid - 1 ==> ds[i].open
    ensures Open(Close(ds, fid), Some(info), read, write).1 == fid
  {
    ReopenMeaning(ds, fid, info, read, write);
  }

  // ----- runs

  ghost predicate LegalEvents(es: seq<Event>) {
    forall e :: e in es ==> LegalEvent(e)
  }

  lemma {:induction false} RunSnoc(ds: seq<Desc>, es: seq<Event>, e: Event)
    requires DescsOk(ds) && LegalEvents(es) && LegalEvent(e)
    ensures LegalEvents(es + [e]) && Run(ds, es + [e]) == Step(Run(ds, es), e)
    decreases |es|
  {
    var all := es + [e];
    if es == [] {
      assert all[1..] == [];
    } else {
      assert es[0] in es && all[0] == es[0] && all[1..] == es[1..] + [e];
      RunSnoc(Step(ds, es[0]), es[1..], e);
    }
  }

  /** The file ID an event of a run hands out, 0 for none. */
  ghost function Given(ds: seq<Desc>, es: seq<Event>, k: nat): nat
    requires DescsOk(ds) && LegalEvents(es) && k < |es|
  {
    match es[k]
    case OpenEv(info, read, write) => Open(Run(ds, es[..k]), info, read, write).1
    case _ => 0
  }

  /** The run closes the file at none of its events from `k` on. */
  predicate KeptFrom(es: seq<Event>, k: nat, fid: nat) {
    forall j :: k <= j < |es| ==> es[j] != CloseEv(fid)
  }

  ghost predicate GivenAndKept(ds: seq<Desc>, es: seq<Event>, k: nat, fid: nat)
    requires DescsOk(ds) && LegalEvents(es)
  {
    k < |es| && Given(ds, es, k) == fid && KeptFrom(es, k + 1, fid)
  }

  /** The file was open before the run or was opened by it, and has not been closed since. */
  ghost predicate OpenedAndKept(ds: seq<Desc>, es: seq<Event>, fid: nat)
    requires DescsOk(ds) && LegalEvents(es) && IsFid(ds, fid)
  {
    (ds[fid - 1].open && KeptFrom(es, 0, fid)) || exists k: nat :: GivenAndKept(ds, es, k, fid)
  }

  lemma StepOpens(ds: seq<Desc>, e: Event, fid: nat)
    requires DescsOk(ds) && LegalEvent(e) && IsFid(ds, fid)
    ensures Step(ds, e)[fid - 1].open <==>
      match e
      case OpenEv(info, read, write) => ds[fid - 1].open || Open(ds, info, read, write).1 == fid
      case CloseEv(f) => ds[fid - 1].open && f != fid
      case _ => ds[fid - 1].open
  {
    if e.OpenEv? {
      OpenMeaning(ds, e.info, e.read, e.write);
    }
  }

  lemma GivenBefore(ds: seq<Desc>, es: seq<Event>, e: Event, k: nat)
    requires DescsOk(ds) && LegalEvents(es) && LegalEvents(es + [e]) && k < |es|
    ensures Given(ds, es + [e], k) == Given(ds, es, k)
  {
    assert (es + [e])[..k] == es[..k];
  }

  lemma KeptSnoc(es: seq<Event>, e: Event, k: nat, fid: nat)
    requires k <= |es|
    ensures KeptFrom(es + [e], k, fid) <==> KeptFrom(es, k, fid) && e != CloseEv(fid)
  {
    var all := es + [e];
    if KeptFrom(all, k, fid) {
      assert all[|es|] == e;
      forall j | k <= j < |es| ensures es[j] != CloseEv(fid) {
        assert all[j] == es[j];
      }
    }
  }

  lemma OpenedSnoc(ds: seq<Desc>, es: seq<Event>, e: Event, fid: nat)
    requires DescsOk(ds) && LegalEvents(es) && LegalEvents(es + [e]) && IsFid(ds, fid)
    ensures OpenedAndKept(ds, es + [e], fid) <==>
      (OpenedAndKept(ds, es, fid) && e != CloseEv(fid)) || Given(ds, es + [e], |es|) == fid
  {
    var all := es + [e];
    KeptSnoc(es, e, 0, fid);
    if k: nat :| GivenAndKept(ds, all, k, fid) && k < |es| {
      GivenBefore(ds, es, e, k);
      KeptSnoc(es, e, k + 1, fid);
      assert GivenAndKept(ds, es, k, fid);
    }
    if k: nat :| GivenAndKept(ds, es, k, fid) {
      GivenBefore(ds, es, e, k);
      KeptSnoc(es, e, k + 1, fid);
      assert e != CloseEv(fid) ==> GivenAndKept(ds, all, k, fid);
    }
    if Given(ds, all, |es|) == fid {
      assert GivenAndKept(ds, all, |es|, fid);
    }
  }

  /** Over every run of open, seek,
    read and close: a file ID is open exactly when it was opened and not closed since. */
  lemma {:induction false} OpenFiles(ds: seq<Desc>, es: seq<Event>, fid: nat)
    requires DescsOk(ds) && LegalEvents(es) && IsFid(ds, fid)
    ensures Run(ds, es)[fid - 1].open <==> OpenedAndKept(ds, es, fid)
    decreases |es|
  {
    if es == [] {
    } else {
      var init, e := es[..|es| - 1], es[|es| - 1];
      assert es == init + [e] && e in es && forall x :: x in init ==> x in es;
      OpenFiles(ds, init, fid);
      RunSnoc(ds, init, e);
      OpenedSnoc(ds, init, e, fid);
      StepOpens(Run(ds, init), e, fid);
      assert es[..|init|] == init;
    }
  }
}
