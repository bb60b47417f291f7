/** pager.c and txn.c: the write-back page cache, the free list and the transactions.
    Every object keeps a ghost trail of the journal steps it took, so that what
    Journal.RunsAreAtomic says of runs holds of every run of this code. */
module Pager {
  import opened Pages
  import opened Journal

  const NUM_FRAMES := 512

  // ---------- which frame load_page may take ----------

  /** evict_and_reuse: the first unused frame, else the first least recently used unpinned one. */
  ghost predicate IsVictim(fs: seq<Frame>, v: int) {
    && 0 <= v < |fs|
    && if exists i :: 0 <= i < |fs| && !fs[i].valid
       then !fs[v].valid && forall i :: 0 <= i < v ==> fs[i].valid
       else && fs[v].pins == 0
            && (forall i :: 0 <= i < |fs| && fs[i].pins == 0 ==> fs[v].used <= fs[i].used)
            && (forall i :: 0 <= i < v && fs[i].pins == 0 ==> fs[v].used < fs[i].used)
  }

  ghost predicate AllPinned(fs: seq<Frame>) {
    forall i :: 0 <= i < |fs| ==> fs[i].valid && fs[i].pins > 0
  }

  ghost predicate NonePinned(fs: seq<Frame>) {
    forall i :: 0 <= i < |fs| ==> fs[i].pins == 0
  }

  // ---------- the free list ----------

  /** Conservation: of the pages 2..numPages, each is on the free list, whose links are the
      first words of its pages, or belongs to a tree (live), never both; page 1 is the header. */
  ghost predicate Conserved(img: Image, numPages: nat, freeHead: PageId, freeList: seq<PageId>, live: set<PageId>) {
    && numPages >= 2
    && Total(img) && img[1] == Header(numPages, freeHead)
    && freeHead == (if freeList == [] then 0 else freeList[0])
    && (forall i, j :: 0 <= i < j < |freeList| ==> freeList[i] != freeList[j])
    && (forall i :: 0 <= i < |freeList| ==> img[freeList[i]] == Raw(LinkAt(freeList, i)))
    && live !! Elements(freeList)
    && (forall p :: p in live ==> 2 <= p <= numPages)
    && (forall p: PageId :: p in live + Elements(freeList) <==> 2 <= p <= numPages)
  }

  datatype Begun = Begun(pages: Image, numPages: nat, freeHead: PageId, freeList: seq<PageId>, live: set<PageId>)

  ghost predicate ConservedBegun(b: Begun) {
    Conserved(b.pages, b.numPages, b.freeHead, b.freeList, b.live)
  }

  /** The pages are conserved, with some free list and some pages in use. */
  ghost predicate Intact(img: Image) {
    exists b: Begun :: b.pages == img && ConservedBegun(b)
  }

  ghost predicate AllIntact(images: iset<Image>) {
    forall img :: img in images ==> Intact(img)
  }

  function LinkAt(freeList: seq<PageId>, i: nat): PageId {
    if i + 1 < |freeList| then freeList[i + 1] else 0
  }

  class Txn {
    var file: JournalFile
    var journaled: seq<PageId>
    var active: bool
    var isExplicit: bool

    constructor (file: JournalFile)
      ensures this.file == file && journaled == [] && !active && !isExplicit
    {
      this.file := file;
      journaled := [];
      active, isExplicit := false, false;
    }

    /** txn_write_hook: the pre-image goes to the journal once per page and transaction. */
    method WriteHook(pageNum: PageId, original: Page)
      requires active ==> file.File?
      modifies this`file, this`journaled
      ensures !active || pageNum in old(journaled) ==> file == old(file) && journaled == old(journaled)
      ensures active && pageNum !in old(journaled) ==>
                && file == File(old(file.entries) + [JournalEntry(pageNum, original)], false)
                && journaled == old(journaled) + [pageNum]
    {
      if !active || pageNum in journaled {
        return;
      }
      file := file.(torn := true);
      file := File(file.entries + [JournalEntry(pageNum, original)], false);
      journaled := journaled + [pageNum];
    }
  }

  class Pager {
    var disk: map<PageId, Page>
    var numPages: nat
    var freeListHead: PageId
    var tick: nat
    const frames: array<Frame>
    const txn: Txn

    // what the layers above read, and what a crash now would leave
    ghost var pages: Image
    ghost var durable: Image
    // what crashes may have shown so far
    ghost var images: iset<Image>
    // the journal steps taken since this object was made, and how many entries a replay has restored
    ghost var run: Run
    ghost var restored: nat
    ghost var freeList: seq<PageId>
    ghost var live: set<PageId>
    // what the last begin found
    ghost var begun: Begun

    // ---------- invariants ----------

    ghost function Repr(): set<object> {
      {this, frames, txn}
    }

    ghost function Now(): State
      reads this`disk, this`restored, frames, txn`file, txn`active, txn`journaled
    {
      State(disk, txn.file, frames[..], txn.active, txn.journaled, restored)
    }

    /** The present state was reached by a disciplined run of the journal machine.  (The
        quantifier keeps this out of proofs that do not ask for it by calling Facts.) */
    ghost predicate Ok()
      reads this`disk, this`restored, this`run, this`pages, this`durable, this`images, frames, txn`file, txn`active, txn`journaled
    {
      && frames.Length == NUM_FRAMES && Total(pages) && Total(durable)
      && forall r, s :: r == run && s == Now() ==> Reached(r, s, pages, durable) && Kept(r, images)
    }

    lemma Facts()
      requires Ok()
      ensures Reached(run, Now(), pages, durable) && Kept(run, images) && Sound(Now())
    {
      assert Reached(run, Now(), pages, durable);
      RunsAreAtomic(run, |run.steps|);
    }

    lemma HeaderFacts()
      requires Ok()
      ensures Headed(Now()) && durable in images
    {
      Facts();
      RunsAreAtomic(run, |run.steps|);
      assert KeptAt(run, |run.steps|, images);
    }

    ghost predicate Ready()
      reads this`disk, this`restored, this`run, this`pages, this`durable, this`images, frames, txn`file, txn`active, txn`journaled
    {
      Ok() && restored == 0 && (txn.file.File? <==> txn.active)
    }

    /** What holds between the operations of the layers above.  (The quantifier keeps Whole
        out of the proofs of those layers.) */
    ghost predicate Valid()
      reads this, frames, txn
    {
      Total(pages) && Total(durable) && forall img :: img == pages ==> Whole(img)
    }

    /** Nothing pinned, pages conserved, and while a transaction runs the pages at its begin
        still durable. */
    ghost predicate Whole(img: Image)
      reads this, frames, txn
    {
      && Ready()
      && NonePinned(frames[..])
      && (forall i :: i == img ==> Conserved(i, numPages, freeListHead, freeList, live))
      && AllIntact(images)
      && if txn.active then durable == begun.pages && ConservedBegun(begun) else durable == pages
    }

    ghost method Install(r: Run)
      requires frames.Length == NUM_FRAMES && Reached(r, Now(), Journal.Logical(Now()), Journal.Durable(Now())) && Kept(r, images)
      modifies this`run, this`pages, this`durable
      ensures Ok() && run == r && pages == Journal.Logical(Now()) && durable == Journal.Durable(Now())
    {
      run, pages, durable := r, Journal.Logical(Now()), Journal.Durable(Now());
      assert Reached(run, Now(), pages, durable);
    }

    /** Adds a step from state s to the run. */
    ghost method Log(s: State, t: Step)
      requires frames.Length == NUM_FRAMES && Reached(run, s, pages, durable) && Kept(run, images)
      requires Enabled(s, t) && Disciplined(s, t) && KeepsHeader(s, t) && Now() == Apply(s, t) && !t.Commit?
      modifies this`run, this`pages, this`durable
      ensures Ok() && run == Extend(old(run), t) && durable == old(durable)
      ensures s.restored == 0 && Normal(t) ==>
                pages == if t.Write? then old(pages)[s.frames[t.i].page := t.data] else old(pages)
      ensures t.Finish? ==> pages == durable
    {
      Advance(run, s, pages, durable, t);
      KeptWith(run, images, t);
      Install(Extend(run, t));
    }

    /** The one step that changes what a crash shows. */
    ghost method LogCommit(s: State)
      requires frames.Length == NUM_FRAMES && Reached(run, s, pages, durable) && Kept(run, images)
      requires Enabled(s, Step.Commit) && Now() == Apply(s, Step.Commit)
      modifies this`run, this`pages, this`durable, this`images
      ensures Ok() && pages == durable == old(pages) && images == old(images) + iset{pages}
    {
      Advance(run, s, pages, durable, Step.Commit);
      KeptWith(run, images, Step.Commit);
      images := images + iset{pages};
      Install(Extend(run, Step.Commit));
    }

    // ---------- opening ----------

    /** pager_open on a missing file: page 1 is the header, page 2 the empty catalog root. */
    constructor Create()
      ensures Valid() && fresh(Repr()) && !txn.active && live == {2} && freeList == []
      ensures pages[2] == Raw(0) && images == iset{pages}
    {
      disk := map[1 := Header(2, 0), 2 := Raw(0)];
      numPages, freeListHead, tick := 2, 0, 0;
      frames := new Frame[NUM_FRAMES](i => Frame(false, 0, Raw(0), false, 0, 0));
      txn := new Txn(NoFile);
      restored, freeList, live := 0, [], {2};
      new;
      StartRun();
      NewFileConserves(disk);
      IntactWith(iset{}, Begun(pages, 2, 0, [], {2}));
      assert images == iset{} + iset{pages};
      Own({2}, []);
    }

    /** pager_open on a file that a crash may have left with a journal. */
    constructor Open(disk: map<PageId, Page>, file: JournalFile)
      requires LeftGood(disk, file)
      ensures Ok() && fresh(Repr()) && restored == 0 && !txn.active && NonePinned(frames[..])
      ensures this.disk == disk && txn.file == file && Header(numPages, freeListHead) == At(disk, 1)
      ensures durable == Journal.Durable(Left(disk, file)) && images == iset{durable}
    {
      this.disk := disk;
      numPages, freeListHead, tick := At(disk, 1).numPages, At(disk, 1).freeHead, 0;
      frames := new Frame[NUM_FRAMES](i => Frame(false, 0, Raw(0), false, 0, 0));
      txn := new Txn(file);
      restored := 0;
      new;
      StartRun();
    }

    /** The run starts here. */
    ghost method StartRun()
      requires frames.Length == NUM_FRAMES && NoneValid(frames[..]) && restored == 0 && !txn.active && Headed(Now())
      requires txn.file.File? ==> DistinctPages(txn.file.entries)
      modifies this`run, this`pages, this`durable, this`images
      ensures Ok() && durable == Journal.Durable(Now()) && images == iset{durable}
      ensures txn.file.NoFile? ==> pages == durable == ImageOf(disk)
    {
      images := iset{Journal.Durable(Now())};
      FreshlyOpened(Now());
      assert KeptAt(Run([Now()], []), 0, images);
      Install(Run([Now()], []));
    }

    // ---------- the cache ----------

    /** find_frame */
    method Find(pageNum: PageId) returns (i: int)
      requires OneFramePerPage(frames[..])
      ensures i == FindFrame(frames[..], pageNum)
    {
      i := 0;
      while i < frames.Length
        invariant 0 <= i <= frames.Length
        invariant forall j :: 0 <= j < i ==> !Holds(frames[j], pageNum)
      {
        if frames[i].valid && frames[i].page == pageNum {
          FindFrameIs(frames[..], pageNum, i);
          return;
        }
        i := i + 1;
      }
      i := -1;
    }

    method FlushFrame(i: nat)
      requires Ready() && i < frames.Length
      modifies this`disk, this`run, this`pages, this`durable, frames
      ensures Ready() && pages == old(pages) && durable == old(durable)
      ensures frames[..] == old(frames[..])[i := old(frames[i]).(dirty := old(frames[i].dirty) && !old(frames[i].valid))]
    {
      if frames[i].valid && frames[i].dirty {
        Facts();
        ghost var s := Now();
        disk := disk[frames[i].page := frames[i].data];
        frames[i] := frames[i].(dirty := false);
        Log(s, Flush(i));
      }
    }

    /** The two scans of evict_and_reuse. */
    method FindVictim() returns (v: int)
      ensures -1 <= v < frames.Length
      ensures v == -1 <==> AllPinned(frames[..])
      ensures v != -1 ==> IsVictim(frames[..], v)
    {
      v := 0;
      while v < frames.Length
        invariant 0 <= v <= frames.Length
        invariant forall j :: 0 <= j < v ==> frames[j].valid
      {
        if !frames[v].valid {
          return;
        }
        v := v + 1;
      }
      v := -1;
      var i := 0;
      while i < frames.Length
        invariant 0 <= i <= frames.Length
        invariant v == -1 ==> forall j :: 0 <= j < i ==> frames[j].pins > 0
        invariant v != -1 ==>
            && 0 <= v < i && frames[v].pins == 0
            && (forall j :: 0 <= j < i && frames[j].pins == 0 ==> frames[v].used <= frames[j].used)
            && (forall j :: 0 <= j < v && frames[j].pins == 0 ==> frames[v].used < frames[j].used)
      {
        if frames[i].pins == 0 && (v == -1 || frames[i].used < frames[v].used) {
          v := i;
        }
        i := i + 1;
      }
    }

    method EvictFrame(v: nat)
      requires Ready() && v < frames.Length && (frames[v].valid ==> frames[v].pins == 0)
      modifies this`disk, this`run, this`pages, this`durable, frames
      ensures Ready() && pages == old(pages) && durable == old(durable)
      ensures !frames[v].valid
      ensures forall j :: 0 <= j < frames.Length && j != v ==> frames[j] == old(frames[j])
    {
      FlushFrame(v);
      if frames[v].valid {
        Facts();
        ghost var s := Now();
        frames[v] := frames[v].(valid := false);
        Log(s, Evict(v));
      }
    }

    /** evict_and_reuse, then disk_read_page: never takes a pinned frame; fails only when
        all are pinned. */
    method LoadAbsent(pageNum: PageId) returns (i: int)
      requires Ready() && FindFrame(frames[..], pageNum) == -1
      modifies this`disk, this`tick, this`run, this`pages, this`durable, frames
      ensures Ready() && pages == old(pages) && durable == old(durable)
      ensures tick >= old(tick)
      ensures -1 <= i < frames.Length
      ensures i == -1 <==> AllPinned(old(frames[..]))
      ensures i == -1 ==> Now() == old(Now())
      ensures i >= 0 ==> IsVictim(old(frames[..]), i) && Holds(frames[i], pageNum) && frames[i].pins == 0
      ensures i >= 0 ==> forall j :: 0 <= j < frames.Length && j != i ==> frames[j] == old(frames[j])
    {
      i := FindVictim();
      if i == -1 {
        return;
      }
      EvictFrame(i);
      assert FindFrame(frames[..], pageNum) == -1;
      ReadInto(i, pageNum);
      tick := tick + 1;
      SetPins(i, 0, tick);
    }

    method LoadPage(pageNum: PageId) returns (i: int)
      requires Ready()
      modifies this`disk, this`tick, this`run, this`pages, this`durable, frames
      ensures Ready() && pages == old(pages) && durable == old(durable)
      ensures tick >= old(tick)
      ensures -1 <= i < frames.Length
      ensures i == -1 <==> FindFrame(old(frames[..]), pageNum) == -1 && AllPinned(old(frames[..]))
      ensures i == -1 ==> Now() == old(Now())
      ensures i >= 0 ==> Holds(frames[i], pageNum) && frames[i].data == pages[pageNum]
      ensures i >= 0 && FindFrame(old(frames[..]), pageNum) == -1 ==>
                IsVictim(old(frames[..]), i) && frames[i].pins == 0
      ensures i >= 0 ==> forall j :: 0 <= j < frames.Length && j != i ==> frames[j] == old(frames[j])
      ensures i >= 0 && FindFrame(old(frames[..]), pageNum) != -1 ==> Now() == old(Now()) && i == FindFrame(old(frames[..]), pageNum)
    {
      Facts();
      i := Find(pageNum);
      if i >= 0 {
        ContentIs(disk, frames[..], pageNum);
        return;
      }
      i := LoadAbsent(pageNum);
      Facts();
      ContentIs(disk, frames[..], pageNum);
    }

    method ReadInto(i: nat, pageNum: PageId)
      requires Ready() && i < frames.Length && !frames[i].valid && FindFrame(frames[..], pageNum) == -1
      modifies this`run, this`pages, this`durable, frames
      ensures Ready() && pages == old(pages) && durable == old(durable)
      ensures frames[..] == old(frames[..])[i := Frame(true, pageNum, At(disk, pageNum), false, 0, old(frames[i].used))]
    {
      Facts();
      ghost var s := Now();
      frames[i] := Frame(true, pageNum, At(disk, pageNum), false, 0, frames[i].used);
      Log(s, Load(i, pageNum));
    }

    method SetPins(i: nat, pins: nat, used: nat)
      requires Ready() && i < frames.Length && frames[i].valid
      modifies this`run, this`pages, this`durable, frames
      ensures Ready() && pages == old(pages) && durable == old(durable)
      ensures frames[..] == old(frames[..])[i := old(frames[i]).(pins := pins, used := used)]
    {
      Facts();
      ghost var s := Now();
      frames[i] := frames[i].(pins := pins, used := used);
      Log(s, Touch(i, pins, used));
    }

    method SetData(i: nat, data: Page)
      requires Ready() && i < frames.Length && frames[i].valid && txn.active
      requires frames[i].dirty || frames[i].page in txn.journaled
      requires frames[i].page == 1 ==> data.Header?
      modifies this`run, this`pages, this`durable, frames
      ensures Ready() && pages == old(pages)[old(frames[i].page) := data] && durable == old(durable)
      ensures frames[..] == old(frames[..])[i := old(frames[i]).(data := data, dirty := true)]
    {
      Facts();
      ghost var s := Now();
      frames[i] := frames[i].(data := data, dirty := true);
      Log(s, Step.Write(i, data));
    }

    /** pager_get_page: pins the frame of the page; -1 when every frame is pinned. */
    method GetPage(pageNum: PageId) returns (i: int)
      requires Ready()
      modifies this`disk, this`tick, this`run, this`pages, this`durable, frames
      ensures Ready() && pages == old(pages) && durable == old(durable)
      ensures -1 <= i < frames.Length
      ensures i == -1 <==> FindFrame(old(frames[..]), pageNum) == -1 && AllPinned(old(frames[..]))
      ensures i >= 0 ==> Holds(frames[i], pageNum) && frames[i].data == pages[pageNum]
      ensures i >= 0 ==> frames[i].pins == 1 + (if FindFrame(old(frames[..]), pageNum) == i then old(frames[i].pins) else 0)
      ensures i >= 0 ==> frames[i].used == tick > old(tick)
      ensures i >= 0 ==> forall j :: 0 <= j < frames.Length && j != i ==> frames[j] == old(frames[j])
    {
      hide Reached, Kept, Conserved;
      i := LoadPage(pageNum);
      if i == -1 {
        return;
      }
      tick := tick + 1;
      SetPins(i, frames[i].pins + 1, tick);
      Facts();
      ContentIs(disk, frames[..], pageNum);
    }

    /** pager_get_page_for_write: the hook sees a clean frame before it becomes dirty. */
    method GetPageForWrite(pageNum: PageId) returns (i: int)
      requires Ready() && txn.active
      modifies this`disk, this`tick, this`run, this`pages, this`durable, frames, txn`file, txn`journaled
      ensures Ready() && txn.active && pages == old(pages) && durable == old(durable)
      ensures -1 <= i < frames.Length
      ensures i == -1 <==> FindFrame(old(frames[..]), pageNum) == -1 && AllPinned(old(frames[..]))
      ensures i >= 0 ==> Holds(frames[i], pageNum) && frames[i].data == pages[pageNum]
      ensures i >= 0 ==> frames[i].dirty
      ensures i >= 0 ==> frames[i].pins == 1 + (if FindFrame(old(frames[..]), pageNum) == i then old(frames[i].pins) else 0)
      ensures i >= 0 ==> frames[i].used == tick > old(tick)
      ensures i >= 0 ==> forall j :: 0 <= j < frames.Length && j != i ==> frames[j] == old(frames[j])
    {
      i := LoadPage(pageNum);
      if i == -1 {
        return;
      }
      MarkDirty(i);
      tick := tick + 1;
      SetPins(i, frames[i].pins + 1, tick);
    }

    method MarkDirty(i: nat)
      requires Ready() && txn.active && i < frames.Length && frames[i].valid
      modifies this`run, this`pages, this`durable, frames, txn`file, txn`journaled
      ensures Ready() && pages == old(pages) && durable == old(durable)
      ensures frames[i].page in txn.journaled
      ensures frames[..] == old(frames[..])[i := old(frames[i]).(dirty := true)]
    {
      Facts();
      if frames[i].dirty {
        assert frames[..] == frames[..][i := frames[i]];
        return;
      }
      Facts();
      ContentIs(disk, frames[..], frames[i].page);
      CallHook(i);
      HeaderFacts();
      assert Holds(frames[i], frames[i].page);
      SetData(i, frames[i].data);
      assert pages == old(pages);
    }

    method CallHook(i: nat)
      requires Ready() && txn.active && i < frames.Length && frames[i].valid && !frames[i].dirty
      modifies this`run, this`pages, this`durable, txn`file, txn`journaled
      ensures Ready() && pages == old(pages) && durable == old(durable)
      ensures frames[i].page in txn.journaled
      ensures forall p :: p in old(txn.journaled) ==> p in txn.journaled
    {
      Facts();
      ghost var s := Now();
      txn.WriteHook(frames[i].page, frames[i].data);
      if frames[i].page !in s.journaled {
        LogAppend(s, i);
      }
    }

    /** The entry may be torn on the way. */
    ghost method LogAppend(s: State, i: nat)
      requires frames.Length == NUM_FRAMES && Reached(run, s, pages, durable) && Kept(run, images)
      requires Enabled(s, Append(i)) && Now() == Apply(Apply(s, Tear), Append(i))
      modifies this`run, this`pages, this`durable
      ensures Ok() && pages == old(pages) && durable == old(durable)
    {
      Advance(run, s, pages, durable, Tear);
      KeptWith(run, images, Tear);
      run := Extend(run, Tear);
      Log(Apply(s, Tear), Append(i));
    }

    method Unpin(pageNum: PageId)
      requires Ready()
      modifies this`run, this`pages, this`durable, frames
      ensures Ready() && pages == old(pages) && durable == old(durable)
      ensures var i := FindFrame(old(frames[..]), pageNum);
              frames[..] == if i >= 0 && old(frames[..])[i].pins > 0
                            then old(frames[..])[i := old(frames[..])[i].(pins := old(frames[..])[i].pins - 1)]
                            else old(frames[..])
    {
      Facts();
      var i := Find(pageNum);
      if i >= 0 && frames[i].pins > 0 {
        SetPins(i, frames[i].pins - 1, frames[i].used);
      }
    }

    // ---------- pages for the layers above ----------

    /** pager_get_page, a copy of the page, pager_unpin. */
    method Get(pageNum: PageId) returns (page: Page)
      requires Ready() && NonePinned(frames[..])
      modifies this`disk, this`tick, this`run, this`pages, this`durable, frames
      ensures Ready() && NonePinned(frames[..])
      ensures pages == old(pages) && durable == old(durable)
      ensures page == pages[pageNum]
    {
      assert !AllPinned(frames[..]) by {
        assert frames[..][0].pins == 0;
      }
      var i := GetPage(pageNum);
      page := frames[i].data;
      Facts();
      FindFrameIs(frames[..], pageNum, i);
      Unpin(pageNum);
    }

    /** The same between operations of the layers above. */
    method Read(pageNum: PageId) returns (page: Page)
      requires Valid()
      modifies this`disk, this`tick, this`run, this`pages, this`durable, frames
      ensures Valid() && pages == old(pages) && durable == old(durable)
      ensures page == pages[pageNum]
    {
      assert Whole(pages);
      page := Get(pageNum);
    }

    /** pager_get_page_for_write, a change to the buffer, pager_unpin. */
    method Put(pageNum: PageId, page: Page)
      requires Ready() && NonePinned(frames[..]) && txn.active && (pageNum == 1 ==> page.Header?)
      modifies this`disk, this`tick, this`run, this`pages, this`durable, frames, txn`file, txn`journaled
      ensures Ready() && NonePinned(frames[..]) && txn.active
      ensures pages == old(pages)[pageNum := page] && durable == old(durable)
    {
      assert !AllPinned(frames[..]) by {
        assert frames[..][0].pins == 0;
      }
      var i := GetPageForWrite(pageNum);
      SetData(i, page);
      Facts();
      FindFrameIs(frames[..], pageNum, i);
      Unpin(pageNum);
    }

    /** The same for a page that belongs to a tree. */
    method Write(pageNum: PageId, page: Page)
      requires Valid() && txn.active && pageNum in live
      modifies this`disk, this`tick, this`run, this`pages, this`durable, frames, txn`file, txn`journaled
      ensures Valid() && pages == old(pages)[pageNum := page] && durable == old(durable)
    {
      assert Whole(pages);
      WriteConserves(pages, numPages, freeListHead, freeList, live, pageNum, page);
      Put(pageNum, page);
      IsValid();
    }

    /** write_header_cached */
    method WriteHeader()
      requires Ready() && NonePinned(frames[..]) && txn.active
      modifies this`disk, this`tick, this`run, this`pages, this`durable, frames, txn`file, txn`journaled
      ensures Ready() && NonePinned(frames[..]) && txn.active
      ensures pages == old(pages)[1 := Header(numPages, freeListHead)] && durable == old(durable)
    {
      Put(1, Header(numPages, freeListHead));
    }

    lemma IsValid()
      requires Ready() && NonePinned(frames[..]) && AllIntact(images)
      requires Conserved(pages, numPages, freeListHead, freeList, live)
      requires if txn.active then durable == begun.pages && ConservedBegun(begun) else durable == pages
      ensures Valid()
    {}

    ghost method Own(live: set<PageId>, freeList: seq<PageId>)
      requires Ready() && NonePinned(frames[..])
      requires Conserved(pages, numPages, freeListHead, freeList, live)
      requires AllIntact(images)
      requires if txn.active then durable == begun.pages && ConservedBegun(begun) else durable == pages
      modifies this`live, this`freeList
      ensures Valid() && this.live == live && this.freeList == freeList
      ensures pages == old(pages) && durable == old(durable)
    {
      this.live, this.freeList := live, freeList;
      IsValid();
    }

    /** The page that pager_allocate_page gives next. */
    ghost function NextPage(): PageId
      reads this`numPages, this`freeListHead
    {
      if freeListHead != 0 then freeListHead else numPages + 1
    }

    /** The header fields after that. */
    ghost function NextCount(): nat
      reads this`numPages, this`freeListHead
    {
      if freeListHead != 0 then numPages else numPages + 1
    }

    ghost function NextHead(img: Image): PageId
      requires Total(img) && (freeListHead != 0 ==> img[freeListHead].Raw?)
      reads this
    {
      if freeListHead != 0 then img[freeListHead].word else 0
    }

    /** The first half of pager_allocate_page: the page number and the header. */
    method TakePageNumber() returns (pageNum: PageId)
      requires Ready() && NonePinned(frames[..]) && txn.active
      requires freeListHead != 0 ==> pages[freeListHead].Raw?
      modifies this`disk, this`tick, this`run, this`pages, this`durable, frames, txn`file, txn`journaled
      modifies this`numPages, this`freeListHead
      ensures Ready() && NonePinned(frames[..]) && txn.active && durable == old(durable)
      ensures pageNum == old(NextPage()) && numPages == old(NextCount()) && freeListHead == old(NextHead(pages))
      ensures pages == old(pages)[1 := Header(numPages, freeListHead)]
    {
      if freeListHead != 0 {
        pageNum := freeListHead;
        var page := Get(pageNum);
        freeListHead := page.word;
      } else {
        numPages := numPages + 1;
        pageNum := numPages;
      }
      WriteHeader();
    }

    /** pager_allocate_page: a zeroed page that no tree owned, and all owned pages untouched. */
    method Allocate() returns (pageNum: PageId)
      requires Valid() && txn.active
      modifies this`disk, this`tick, this`run, this`pages, this`durable, frames, txn`file, txn`journaled
      modifies this`numPages, this`freeListHead, this`freeList, this`live
      ensures Valid() && txn.active && durable == old(durable)
      ensures pageNum == old(NextPage()) && pageNum >= 2 && pageNum !in old(live) && live == old(live) + {pageNum}
      ensures pages[pageNum] == Raw(0)
      ensures forall q :: q in old(live) ==> pages[q] == old(pages)[q]
    {
      hide Reached, Kept, Conserved;
      assert Whole(pages);
      HeadIsLink(pages, numPages, freeListHead, freeList, live);
      AllocateConserves(pages, numPages, freeListHead, freeList, live);
      pageNum := TakeZeroedPage();
      Own(live + {pageNum}, Rest(freeList));
    }

    method TakeZeroedPage() returns (pageNum: PageId)
      requires Ready() && NonePinned(frames[..]) && txn.active && NextPage() != 1
      requires freeListHead != 0 ==> pages[freeListHead].Raw?
      modifies this`disk, this`tick, this`run, this`pages, this`durable, frames, txn`file, txn`journaled
      modifies this`numPages, this`freeListHead
      ensures Ready() && NonePinned(frames[..]) && txn.active && durable == old(durable)
      ensures pageNum == old(NextPage()) && numPages == old(NextCount()) && freeListHead == old(NextHead(pages))
      ensures pages == old(pages)[1 := Header(numPages, freeListHead)][pageNum := Raw(0)]
    {
      pageNum := TakePageNumber();
      Put(pageNum, Raw(0));
    }

    /** pager_free_page */
    method Free(pageNum: PageId)
      requires Valid() && txn.active && pageNum in live
      modifies this`disk, this`tick, this`run, this`pages, this`durable, frames, txn`file, txn`journaled
      modifies this`freeListHead, this`freeList, this`live
      ensures Valid() && txn.active && durable == old(durable)
      ensures live == old(live) - {pageNum} && freeList == [pageNum] + old(freeList)
      ensures forall q :: q in live ==> pages[q] == old(pages)[q]
    {
      assert Whole(pages);
      FreeConserves(pages, numPages, freeListHead, freeList, live, pageNum);
      PutFreed(pageNum);
      Own(live - {pageNum}, [pageNum] + freeList);
    }

    method PutFreed(pageNum: PageId)
      requires Ready() && NonePinned(frames[..]) && txn.active && pageNum != 1
      modifies this`disk, this`tick, this`run, this`pages, this`durable, frames, txn`file, txn`journaled, this`freeListHead
      ensures Ready() && NonePinned(frames[..]) && txn.active && durable == old(durable)
      ensures freeListHead == pageNum
      ensures pages == old(pages)[pageNum := Raw(old(freeListHead))][1 := Header(numPages, pageNum)]
    {
      Put(pageNum, Raw(freeListHead));
      freeListHead := pageNum;
      WriteHeader();
    }

    /** The present pages and who owns them. */
    ghost function Present(): (b: Begun)
      requires Valid()
      reads this, frames, txn
      ensures ConservedBegun(b) && b.pages == pages && b.live == live
    {
      assert Whole(pages);
      Begun(pages, numPages, freeListHead, freeList, live)
    }

    lemma ImagesIntact()
      requires Valid()
      ensures Ok() && AllIntact(images)
    {
      assert Whole(pages);
    }

    /** What a crash now would show is conserved, at any moment between operations. */
    lemma AtLastCommit() returns (b: Begun)
      requires Valid()
      ensures ConservedBegun(b) && b.pages == durable && b == if txn.active then begun else Present()
    {
      assert Whole(pages);
      b := if txn.active then begun else Present();
    }

    lemma DurableAtBegin()
      requires Valid()
      ensures txn.active ==> durable == begun.pages
    {
      assert Whole(pages);
    }

    lemma LivePagesFollowHeader()
      requires Valid()
      ensures forall p :: p in live ==> p >= 2
    {
      assert Whole(pages);
      assert Conserved(pages, numPages, freeListHead, freeList, live);
    }

    // ---------- transactions ----------

    /** begin_internal */
    method Begin(isExplicit: bool) returns (ok: bool)
      requires Valid()
      modifies this`run, this`pages, this`durable, this`begun, txn
      ensures Valid() && pages == old(pages)
      ensures ok == !old(txn.active) && txn.active
      ensures !ok ==> Now() == old(Now()) && txn.isExplicit == old(txn.isExplicit) && begun == old(begun) && durable == old(durable)
      ensures ok ==> durable == pages && txn.isExplicit == isExplicit
      ensures ok ==> begun == Begun(pages, numPages, freeListHead, freeList, live)
    {
      assert Whole(pages);
      ok := !txn.active;
      if !ok {
        return;
      }
      StartJournal();
      txn.isExplicit := isExplicit;
      begun := Begun(pages, numPages, freeListHead, freeList, live);
      IsValid();
    }

    /** An empty journal, from here on the way back to the present pages. */
    method StartJournal()
      requires Ready() && !txn.active
      modifies this`run, this`pages, this`durable, txn`file, txn`journaled, txn`active
      ensures Ready() && txn.active && durable == pages == old(pages)
    {
      Facts();
      ghost var s := Now();
      QuietShowsDurable(s);
      txn.file := File([], false);
      txn.journaled := [];
      txn.active := true;
      Log(s, Step.Begin);
    }

    /** pager_flush_all */
    method FlushAll()
      requires Ready() && NonePinned(frames[..])
      modifies this`disk, this`run, this`pages, this`durable, frames
      ensures Ready() && NonePinned(frames[..]) && NoDirty(frames[..])
      ensures pages == old(pages) && durable == old(durable)
    {
      var i := 0;
      while i < frames.Length
        invariant 0 <= i <= frames.Length
        invariant Ready() && NonePinned(frames[..])
        invariant forall j :: 0 <= j < i ==> !(frames[j].valid && frames[j].dirty)
        invariant pages == old(pages) && durable == old(durable)
      {
        FlushFrame(i);
        i := i + 1;
      }
    }

    /** commit_internal: afterwards a crash shows exactly the pages written so far. */
    method Commit() returns (ok: bool)
      requires Valid()
      modifies this`disk, this`run, this`pages, this`durable, this`images, frames, txn
      ensures Valid() && pages == old(pages) && ok == old(txn.active) && !txn.active && !txn.isExplicit
      ensures ok ==> durable == pages && images == old(images) + iset{pages}
      ensures !ok ==> durable == old(durable) && images == old(images)
    {
      assert Whole(pages);
      ok := txn.active;
      txn.isExplicit := false;
      if !ok {
        return;
      }
      IntactWith(images, Begun(pages, numPages, freeListHead, freeList, live));
      FlushAll();
      RemoveJournal();
    }

    /** The commit point. */
    method RemoveJournal()
      requires Ready() && txn.active && NoDirty(frames[..])
      modifies this`run, this`pages, this`durable, this`images, txn`file, txn`active
      ensures Ready() && !txn.active && pages == old(pages) && durable == pages && images == old(images) + iset{pages}
    {
      Facts();
      ghost var s := Now();
      txn.file := NoFile;
      txn.active := false;
      LogCommit(s);
    }

    /** replay_journal_file */
    method ReplayEntries()
      requires Ok() && restored == 0 && txn.file.File?
      modifies this`disk, this`run, this`pages, this`durable, this`restored
      ensures Ok() && restored == |txn.file.entries| && durable == old(durable)
    {
      var entries := txn.file.entries;
      var k := 0;
      while k < |entries|
        invariant 0 <= k <= |entries| && restored == k
        invariant Ok() && durable == old(durable)
      {
        Facts();
        ghost var s := Now();
        disk := disk[entries[k].page := entries[k].before];
        restored := restored + 1;
        k := k + 1;
        Log(s, Restore);
      }
    }

    method FinishReplay()
      requires Ok() && txn.file.File? && restored == |txn.file.entries| && NoneValid(frames[..])
      modifies this`run, this`pages, this`durable, this`restored, txn`file, txn`active
      ensures Ready() && !txn.active && txn.file.NoFile?
      ensures pages == durable == old(durable)
    {
      Facts();
      ghost var s := Now();
      FinishKeepsSound(s);
      txn.file := NoFile;
      txn.active := false;
      restored := 0;
      Log(s, Finish);
    }

    /** Replay the journal, pager_discard_cache, remove the journal. */
    method ReplayJournal()
      requires Ok() && restored == 0 && txn.file.File? && durable[1].Header?
      modifies this`disk, this`run, this`pages, this`durable, this`restored, this`numPages, this`freeListHead, frames, txn`file, txn`active
      ensures Ready() && NonePinned(frames[..]) && !txn.active
      ensures pages == durable == old(durable)
      ensures pages[1] == Header(numPages, freeListHead)
    {
      ReplayEntries();
      DiscardCache();
      FinishReplay();
      Facts();
      assert durable[1] == At(disk, 1);
      numPages := At(disk, 1).numPages;
      freeListHead := At(disk, 1).freeHead;
    }

    /** The frame loop of pager_discard_cache. */
    method DiscardCache()
      requires Ok()
      modifies this`run, this`pages, this`durable, frames
      ensures Ok() && durable == old(durable) && frames[..] == ForgetAll(old(frames[..]))
    {
      Facts();
      ghost var s := Now();
      var i := 0;
      while i < frames.Length
        modifies frames
        invariant 0 <= i <= frames.Length
        invariant forall j :: 0 <= j < i ==> frames[j] == Forget(s.frames[j])
        invariant forall j :: i <= j < frames.Length ==> frames[j] == s.frames[j]
      {
        frames[i] := Forget(frames[i]);
        i := i + 1;
      }
      assert frames[..] == ForgetAll(s.frames);
      Log(s, Discard);
    }

    /** rollback_internal: the pages, the header fields and the free list of the begin return. */
    method Rollback() returns (ok: bool)
      requires Valid()
      modifies this`disk, this`run, this`pages, this`durable, this`restored, this`numPages, this`freeListHead, this`freeList, this`live
      modifies frames, txn
      ensures Valid() && ok == old(txn.active) && !txn.active && !txn.isExplicit
      ensures pages == durable == old(durable)
      ensures if ok then live == begun.live && freeList == begun.freeList else pages == old(pages) && live == old(live) && freeList == old(freeList)
    {
      assert Whole(pages);
      ok := txn.active;
      txn.isExplicit := false;
      if !ok {
        Facts();
        QuietShowsDurable(Now());
        return;
      }
      ReplayJournal();
      Restored(begun);
      Own(begun.live, begun.freeList);
    }

    lemma Restored(b: Begun)
      requires Total(pages) && ConservedBegun(b) && b.pages == pages && pages[1] == Header(numPages, freeListHead)
      ensures Conserved(pages, numPages, freeListHead, b.freeList, b.live)
    {}

    /** txn_autobegin: every statement runs in a transaction. */
    method AutoBegin()
      requires Valid()
      modifies this`run, this`pages, this`durable, this`begun, txn
      ensures Valid() && txn.active && pages == old(pages) && txn.isExplicit == (old(txn.active) && old(txn.isExplicit))
      ensures old(txn.active) ==> Now() == old(Now()) && begun == old(begun) && durable == old(durable)
      ensures !old(txn.active) ==> durable == pages && begun == Begun(pages, numPages, freeListHead, freeList, live)
    {
      assert Whole(pages);
      if !txn.active {
        var ok := Begin(false);
      }
    }

    /** txn_autoend: outside an explicit transaction a successful statement is durable and a
        failed one has left no trace; inside one nothing happens, so what a failed statement
        has written stays. */
    method AutoEnd(success: bool)
      requires Valid()
      modifies this`disk, this`run, this`pages, this`durable, this`images, this`restored, this`numPages, this`freeListHead, this`freeList, this`live
      modifies frames, txn
      ensures Valid()
      ensures if old(txn.active) && !old(txn.isExplicit)
              then !txn.active && durable == pages && pages == (if success then old(pages) else old(durable))
                   && (!success ==> live == begun.live && freeList == begun.freeList)
              else Now() == old(Now()) && durable == old(durable) && txn.isExplicit == old(txn.isExplicit)
    {
      assert Whole(pages);
      if txn.active && !txn.isExplicit {
        var ok;
        if success {
          ok := Commit();
        } else {
          ok := Rollback();
        }
      }
    }

    /** txn_commit: only an explicit transaction. */
    method TxnCommit() returns (ok: bool)
      requires Valid()
      modifies this`disk, this`run, this`pages, this`durable, this`images, frames, txn
      ensures Valid() && pages == old(pages) && ok == (old(txn.active) && old(txn.isExplicit))
      ensures if ok then durable == pages && !txn.active else durable == old(durable) && txn.active == old(txn.active)
    {
      assert Whole(pages);
      ok := txn.active && txn.isExplicit;
      if ok {
        ok := Commit();
      }
    }

    /** txn_rollback: only an explicit transaction. */
    method TxnRollback() returns (ok: bool)
      requires Valid()
      modifies this`disk, this`run, this`pages, this`durable, this`restored, this`numPages, this`freeListHead, this`freeList, this`live
      modifies frames, txn
      ensures Valid() && ok == (old(txn.active) && old(txn.isExplicit)) && durable == old(durable)
      ensures if ok then pages == durable && live == begun.live && freeList == begun.freeList && !txn.active
              else pages == old(pages) && txn.active == old(txn.active)
    {
      assert Whole(pages);
      ok := txn.active && txn.isExplicit;
      if ok {
        ok := Rollback();
      }
    }

    /** txn_recover after pager_open. */
    method Recover(ghost freeList: seq<PageId>, ghost live: set<PageId>)
      requires Ok() && restored == 0 && !txn.active && NonePinned(frames[..])
      requires Header(numPages, freeListHead) == At(disk, 1) && images == iset{durable}
      requires durable[1].Header? && Conserved(durable, durable[1].numPages, durable[1].freeHead, freeList, live)
      modifies this`disk, this`run, this`pages, this`durable, this`restored, this`numPages, this`freeListHead, this`freeList, this`live
      modifies frames, txn`file, txn`active
      ensures Valid() && !txn.active && pages == durable == old(durable)
      ensures this.live == live && this.freeList == freeList
    {
      IntactWith(iset{}, Begun(durable, durable[1].numPages, durable[1].freeHead, freeList, live));
      assert images == iset{} + iset{durable};
      this.freeList, this.live := freeList, live;
      if txn.file.NoFile? {
        Facts();
        QuietShowsDurable(Now());
        return;
      }
      ReplayJournal();
    }

    /** Cut the life of this object after any of its steps: what recovery then shows is
        the last commit before the cut. */
    lemma CrashAnywhere()
      requires Ok()
      ensures IsRun(run) && forall k :: 0 <= k <= |run.steps| ==> CrashShows(run.states[k], LastCommitted(run, k))
    {
      Facts();
      forall k | 0 <= k <= |run.steps| ensures CrashShows(run.states[k], LastCommitted(run, k)) {
        CrashShowsLastCommit(run, k);
      }
    }

    /** And the file and the journal it leaves can be opened and recovered: they show one of
        the images so far, in which the pages are conserved. */
    lemma CrashLeavesGoodFile(k: nat)
      requires Ok() && AllIntact(images) && k <= |run.steps|
      ensures IsRun(run)
      ensures var s := run.states[k];
              && LeftGood(s.disk, s.journal) && LastCommitted(run, k) in images
              && Journal.Durable(Left(s.disk, s.journal)) == LastCommitted(run, k)
    {
      Facts();
      RunsAreAtomic(run, k);
      assert KeptAt(run, k, images);
    }
  }

  // ---------- after a crash ----------

  /** What a crash leaves of a state. */
  ghost function Left(disk: map<PageId, Page>, file: JournalFile): State {
    State(disk, file, [], false, [], 0)
  }

  /** A file that can be opened and recovered. */
  ghost predicate LeftGood(disk: map<PageId, Page>, file: JournalFile) {
    Headed(Left(disk, file)) && (file.File? ==> DistinctPages(file.entries)) && Intact(Journal.Durable(Left(disk, file)))
  }

  /** pager_open and txn_recover of main.c; not a database file without the header. */
  method OpenAndRecover(disk: map<PageId, Page>, file: JournalFile, ghost b: Begun) returns (p: Pager?)
    requires At(disk, 1).Header? ==> LeftGood(disk, file) && ConservedBegun(b) && b.pages == Journal.Durable(Left(disk, file))
    ensures p == null <==> !At(disk, 1).Header?
    ensures p != null ==> fresh(p.Repr()) && p.Valid() && !p.txn.active && p.pages == p.durable == b.pages
    ensures p != null ==> p.live == b.live && p.freeList == b.freeList && p.images == iset{p.pages}
  {
    p := null;
    if At(disk, 1).Header? {
      var q := new Pager.Open(disk, file);
      q.Recover(b.freeList, b.live);
      p := q;
    }
  }

  lemma IntactWith(images: iset<Image>, b: Begun)
    requires AllIntact(images) && ConservedBegun(b)
    ensures AllIntact(images + iset{b.pages})
  {
    forall img | img in images + iset{b.pages} ensures Intact(img) {
      assert img in images || img == b.pages;
    }
  }

  lemma NewFileConserves(disk: map<PageId, Page>)
    requires disk == map[1 := Header(2, 0), 2 := Raw(0)]
    ensures Conserved(ImageOf(disk), 2, 0, [], {2})
  {
    assert {2} + Elements([]) == {2};
  }

  lemma HeadIsLink(img: Image, numPages: nat, freeHead: PageId, freeList: seq<PageId>, live: set<PageId>)
    requires Conserved(img, numPages, freeHead, freeList, live)
    ensures freeHead == 0 <==> freeList == []
    ensures freeHead != 0 ==> img[freeHead] == Raw(LinkAt(freeList, 0))
  {
    if freeList != [] {
      assert freeList[0] in live + Elements(freeList);
    }
  }

  function Rest(freeList: seq<PageId>): seq<PageId> {
    if freeList == [] then [] else freeList[1..]
  }

  lemma AllocateConserves(img: Image, numPages: nat, freeHead: PageId, freeList: seq<PageId>, live: set<PageId>)
    requires Conserved(img, numPages, freeHead, freeList, live)
    ensures freeHead != 0 ==> img[freeHead] == Raw(LinkAt(freeList, 0))
    ensures var p, n := if freeHead != 0 then freeHead else numPages + 1, if freeHead != 0 then numPages else numPages + 1;
            var h := if freeHead != 0 then img[freeHead].word else 0;
            p >= 2 && p !in live && Conserved(img[1 := Header(n, h)][p := Raw(0)], n, h, Rest(freeList), live + {p})
  {
    HeadIsLink(img, numPages, freeHead, freeList, live);
    if freeList == [] {
      ExtendConserves(img, numPages, live);
    } else {
      TakeHeadConserves(img, numPages, freeHead, freeList, live);
    }
  }

  /** A page past the last. */
  lemma ExtendConserves(img: Image, numPages: nat, live: set<PageId>)
    requires Conserved(img, numPages, 0, [], live)
    ensures numPages + 1 !in live
    ensures Conserved(img[1 := Header(numPages + 1, 0)][numPages + 1 := Raw(0)], numPages + 1, 0, [], live + {numPages + 1})
  {
    assert numPages + 1 !in live + Elements([]);
    assert live + {numPages + 1} + Elements([]) == live + Elements([]) + {numPages + 1};
  }

  /** The first page of the free list. */
  lemma TakeHeadConserves(img: Image, numPages: nat, p: PageId, freeList: seq<PageId>, live: set<PageId>)
    requires Conserved(img, numPages, p, freeList, live) && freeList != []
    ensures p >= 2 && p !in live
    ensures var h := LinkAt(freeList, 0);
            Conserved(img[1 := Header(numPages, h)][p := Raw(0)], numPages, h, freeList[1..], live + {p})
  {
    var rest := freeList[1..];
    assert p in live + Elements(freeList);
    assert freeList == [p] + rest;
    assert Elements(freeList) == {p} + Elements(rest);
    assert live + {p} + Elements(rest) == live + Elements(freeList);
  }

  lemma WriteConserves(img: Image, numPages: nat, freeHead: PageId, freeList: seq<PageId>, live: set<PageId>, p: PageId, page: Page)
    requires Conserved(img, numPages, freeHead, freeList, live) && p in live
    ensures p != 1 && Conserved(img[p := page], numPages, freeHead, freeList, live)
  {
    assert p !in Elements(freeList);
  }

  lemma FreeConserves(img: Image, numPages: nat, freeHead: PageId, freeList: seq<PageId>, live: set<PageId>, p: PageId)
    requires Conserved(img, numPages, freeHead, freeList, live) && p in live
    ensures Conserved(img[p := Raw(freeHead)][1 := Header(numPages, p)], numPages, p, [p] + freeList, live - {p})
  {
    HeadIsLink(img, numPages, freeHead, freeList, live);
    assert p in live + Elements(freeList);
    assert Elements([p] + freeList) == {p} + Elements(freeList);
    assert live - {p} + Elements([p] + freeList) == live + Elements(freeList);
  }
}
