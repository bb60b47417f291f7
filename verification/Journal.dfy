/** The rollback-journal protocol of txn.c over the page cache of pager.c, as a step
    machine.  A step is one action that a crash can separate from the next: one page
    write, one (possibly torn) journal append, the removal of the journal, the replay of
    one journal entry.  Pager.dfy proves that the imperative code only takes these steps. */
module Journal {
  import opened Pages

  datatype Frame = Frame(valid: bool, page: PageId, data: Page, dirty: bool, pins: nat, used: nat)

  datatype JournalEntry = JournalEntry(page: PageId, before: Page)

  /** The journal file: absent, or complete entries followed perhaps by a torn one. */
  datatype JournalFile = NoFile | File(entries: seq<JournalEntry>, torn: bool)

  datatype State = State(
    disk: map<PageId, Page>,
    journal: JournalFile,
    frames: seq<Frame>,
    active: bool,
    journaled: seq<PageId>,
    restored: nat)  // entries already replayed by a rollback or recovery under way

  /** What every page holds. */
  type Image = imap<PageId, Page>

  ghost predicate Total(img: Image) {
    forall p: PageId :: p in img
  }

  // ---------- what the file and the cache hold ----------

  /** disk_read_page: bytes past the end of the file read as zeros. */
  function At(disk: map<PageId, Page>, p: PageId): Page {
    if p in disk then disk[p] else Raw(0)
  }

  ghost function ImageOf(disk: map<PageId, Page>): Image {
    imap p: PageId | true :: At(disk, p)
  }

  predicate Holds(f: Frame, p: PageId) {
    f.valid && f.page == p
  }

  /** find_frame: the frame that holds the page, or -1. */
  ghost function FindFrame(frames: seq<Frame>, p: PageId): (i: int)
    ensures -1 <= i < |frames|
    ensures i >= 0 ==> Holds(frames[i], p)
    ensures i == -1 ==> forall j :: 0 <= j < |frames| ==> !Holds(frames[j], p)
  {
    if exists j :: 0 <= j < |frames| && Holds(frames[j], p)
    then var j :| 0 <= j < |frames| && Holds(frames[j], p); j
    else -1
  }

  ghost function Content(disk: map<PageId, Page>, frames: seq<Frame>, p: PageId): Page {
    var i := FindFrame(frames, p);
    if i >= 0 then frames[i].data else At(disk, p)
  }

  /** The pages as the layers above the cache read them. */
  ghost function Logical(s: State): Image {
    imap p: PageId | true :: Content(s.disk, s.frames, p)
  }

  /** replay_journal_file over the complete entries. */
  function Replay(disk: map<PageId, Page>, es: seq<JournalEntry>): map<PageId, Page>
    decreases es
  {
    if es == [] then disk else Replay(disk[es[0].page := es[0].before], es[1..])
  }

  /** The pages a recovery started now would leave. */
  ghost function Durable(s: State): Image {
    match s.journal
    case NoFile => ImageOf(s.disk)
    case File(es, _) => ImageOf(Replay(s.disk, es))
  }

  ghost predicate InJournal(es: seq<JournalEntry>, p: PageId) {
    exists j :: 0 <= j < |es| && es[j].page == p
  }

  // ---------- steps ----------

  datatype Step =
    | Load(i: nat, p: PageId)      // read a page into an unused frame
    | Touch(i: nat, pins: nat, used: nat)
    | Flush(i: nat)                // write a dirty frame to the file
    | Evict(i: nat)                // forget a clean unpinned frame
    | Tear                         // a journal append cut short
    | Append(i: nat)               // a complete journal entry with the frame's pre-image
    | Write(i: nat, data: Page)    // change a frame in the cache
    | Begin
    | Commit                       // remove the journal after every frame was flushed
    | Restore                      // replay the next journal entry onto the file
    | Discard                      // drop every cached page
    | Finish                       // remove the journal after a complete replay
    | Crash

  predicate NoDirty(frames: seq<Frame>) {
    forall i :: 0 <= i < |frames| ==> !(frames[i].valid && frames[i].dirty)
  }

  predicate NoneValid(frames: seq<Frame>) {
    forall i :: 0 <= i < |frames| ==> !frames[i].valid
  }

  ghost predicate Enabled(s: State, t: Step) {
    match t
    case Load(i, p) => s.restored == 0 && i < |s.frames| && !s.frames[i].valid && FindFrame(s.frames, p) == -1
    case Touch(i, _, _) => i < |s.frames| && s.frames[i].valid
    case Flush(i) => s.restored == 0 && i < |s.frames| && s.frames[i].valid && s.frames[i].dirty
    case Evict(i) => i < |s.frames| && s.frames[i].valid && !s.frames[i].dirty && s.frames[i].pins == 0
    case Tear => s.restored == 0 && s.active && s.journal.File?
    case Append(i) =>
      && s.restored == 0 && s.active && s.journal.File?
      && i < |s.frames| && s.frames[i].valid && !s.frames[i].dirty
      && s.frames[i].page !in s.journaled
    case Write(i, _) =>
      && s.restored == 0 && i < |s.frames| && s.frames[i].valid
      && (s.frames[i].dirty || !s.active || s.frames[i].page in s.journaled)
    case Begin => !s.active && s.journal.NoFile?
    case Commit => s.active && s.journal.File? && s.restored == 0 && NoDirty(s.frames)
    case Restore => s.journal.File? && s.restored < |s.journal.entries|
    case Discard => true
    case Finish => s.journal.File? && s.restored == |s.journal.entries| && NoneValid(s.frames)
    case Crash => true
  }

  function Forget(f: Frame): Frame {
    f.(valid := false, dirty := false, pins := 0)
  }

  function ForgetAll(frames: seq<Frame>): (r: seq<Frame>)
    ensures |r| == |frames| && NoneValid(r)
  {
    seq(|frames|, i requires 0 <= i < |frames| => Forget(frames[i]))
  }

  ghost function Apply(s: State, t: Step): State
    requires Enabled(s, t)
  {
    match t
    case Load(i, p) => s.(frames := s.frames[i := Frame(true, p, At(s.disk, p), false, 0, s.frames[i].used)])
    case Touch(i, pins, used) => s.(frames := s.frames[i := s.frames[i].(pins := pins, used := used)])
    case Flush(i) =>
      s.(disk := s.disk[s.frames[i].page := s.frames[i].data], frames := s.frames[i := s.frames[i].(dirty := false)])
    case Evict(i) => s.(frames := s.frames[i := s.frames[i].(valid := false)])
    case Tear => s.(journal := s.journal.(torn := true))
    case Append(i) =>
      var f := s.frames[i];
      s.(journal := File(s.journal.entries + [JournalEntry(f.page, f.data)], false),
         journaled := s.journaled + [f.page])
    case Write(i, data) => s.(frames := s.frames[i := s.frames[i].(data := data, dirty := true)])
    case Begin => s.(journal := File([], false), journaled := [], active := true, restored := 0)
    case Commit => s.(journal := NoFile, active := false)
    case Restore =>
      var e := s.journal.entries[s.restored];
      s.(disk := s.disk[e.page := e.before], restored := s.restored + 1)
    case Discard => s.(frames := ForgetAll(s.frames))
    case Finish => s.(journal := NoFile, active := false, restored := 0)
    case Crash => s.(frames := ForgetAll(s.frames), active := false, journaled := [], restored := 0)
  }

  // ---------- the invariant ----------

  ghost predicate OneFramePerPage(frames: seq<Frame>) {
    forall i, j :: 0 <= i < j < |frames| && frames[i].valid && frames[j].valid ==> frames[i].page != frames[j].page
  }

  ghost predicate CleanIsOnDisk(s: State) {
    forall i :: 0 <= i < |s.frames| && s.frames[i].valid && !s.frames[i].dirty ==>
      s.frames[i].data == At(s.disk, s.frames[i].page)
  }

  ghost predicate DistinctPages(es: seq<JournalEntry>) {
    forall i, j :: 0 <= i < j < |es| ==> es[i].page != es[j].page
  }

  /** The state of cache, file and journal is sound when the first page write of a
      transaction came after its begin: a dirty frame's pre-image is in the journal. */
  ghost predicate Sound(s: State) {
    && OneFramePerPage(s.frames)
    && (s.restored == 0 ==> CleanIsOnDisk(s))
    && (s.journal.NoFile? ==> !s.active && s.restored == 0)
    && (!s.active ==> NoDirty(s.frames))
    && (s.journal.File? ==>
          && DistinctPages(s.journal.entries)
          && s.restored <= |s.journal.entries|
          && (forall j :: 0 <= j < s.restored ==>
                At(s.disk, s.journal.entries[j].page) == s.journal.entries[j].before)
          && (!s.active ==> NoneValid(s.frames))
          && (s.active ==>
                && |s.journaled| == |s.journal.entries|
                && forall j :: 0 <= j < |s.journaled| ==> s.journaled[j] == s.journal.entries[j].page))
    && (forall i :: 0 <= i < |s.frames| && s.frames[i].valid && s.frames[i].dirty ==> s.frames[i].page in s.journaled)
  }

  /** The discipline main.c keeps: pages are written, and journalled pages loaded, inside a transaction only. */
  predicate Disciplined(s: State, t: Step) {
    && (t.Write? ==> s.active)
    && (t.Load? && s.journal.File? ==> s.active)
  }

  // ---------- replay ----------

  lemma {:induction false} ReplayAt(disk: map<PageId, Page>, es: seq<JournalEntry>, p: PageId)
    ensures !InJournal(es, p) ==> At(Replay(disk, es), p) == At(disk, p)
    ensures forall j :: 0 <= j < |es| && DistinctPages(es) ==> At(Replay(disk, es), es[j].page) == es[j].before
    decreases es
  {
    if es != [] {
      var d := disk[es[0].page := es[0].before];
      ReplayAt(d, es[1..], p);
      if !InJournal(es, p) {
        assert es[0].page != p;
      }
      if DistinctPages(es) {
        forall j | 0 <= j < |es| ensures At(Replay(disk, es), es[j].page) == es[j].before {
          if j == 0 {
            ReplayAt(d, es[1..], es[0].page);
          } else {
            assert es[1..][j - 1] == es[j];
          }
        }
      }
    }
  }

  /** Replay forgets what the file held on the journalled pages. */
  lemma {:induction false} ReplayForgets(d1: map<PageId, Page>, d2: map<PageId, Page>, es: seq<JournalEntry>)
    requires forall p: PageId :: !InJournal(es, p) ==> At(d1, p) == At(d2, p)
    ensures ImageOf(Replay(d1, es)) == ImageOf(Replay(d2, es))
    decreases es
  {
    if es == [] {
      forall p: PageId ensures At(d1, p) == At(d2, p) {
        assert !InJournal(es, p);
      }
      assert ImageOf(d1) == ImageOf(d2);
    } else {
      var e1 := d1[es[0].page := es[0].before];
      var e2 := d2[es[0].page := es[0].before];
      forall p: PageId | !InJournal(es[1..], p) ensures At(e1, p) == At(e2, p) {
        if p != es[0].page {
          assert !InJournal(es, p);
        }
      }
      ReplayForgets(e1, e2, es[1..]);
    }
  }

  lemma {:induction false} ReplaySnoc(disk: map<PageId, Page>, es: seq<JournalEntry>, e: JournalEntry)
    ensures Replay(disk, es + [e]) == Replay(disk, es)[e.page := e.before]
    decreases es
  {
    if es == [] {
      assert (es + [e])[1..] == [];
    } else {
      assert (es + [e])[1..] == es[1..] + [e];
      ReplaySnoc(disk[es[0].page := es[0].before], es[1..], e);
    }
  }

  /** Recovery may be cut short anywhere and started again: replaying a prefix, then the
      whole journal, leaves what one full replay leaves. */
  lemma RecoveryIsRestartable(disk: map<PageId, Page>, es: seq<JournalEntry>, k: nat)
    requires k <= |es|
    ensures ImageOf(Replay(Replay(disk, es[..k]), es)) == ImageOf(Replay(disk, es))
  {
    forall p: PageId | !InJournal(es, p) ensures At(Replay(disk, es[..k]), p) == At(disk, p) {
      ReplayAt(disk, es[..k], p);
    }
    ReplayForgets(Replay(disk, es[..k]), disk, es);
  }

  // ---------- one step ----------

  lemma FindFrameIs(frames: seq<Frame>, p: PageId, i: nat)
    requires OneFramePerPage(frames) && i < |frames| && Holds(frames[i], p)
    ensures FindFrame(frames, p) == i
  {}

  lemma AppendKeepsSound(s: State, i: nat)
    requires Sound(s) && Enabled(s, Append(i))
    ensures Sound(Apply(s, Append(i))) && Durable(Apply(s, Append(i))) == Durable(s)
  {
    var s' := Apply(s, Append(i));
    var f := s.frames[i];
    var e := JournalEntry(f.page, f.data);
    var es := s.journal.entries;
    assert !InJournal(es, f.page);
    assert DistinctPages(es + [e]);
    ReplaySnoc(s.disk, es, e);
    ReplayAt(s.disk, es, f.page);
    assert Durable(s') == Durable(s);
  }

  lemma FlushKeepsSound(s: State, i: nat)
    requires Sound(s) && Enabled(s, Flush(i))
    ensures Sound(Apply(s, Flush(i))) && Durable(Apply(s, Flush(i))) == Durable(s)
  {
    var s' := Apply(s, Flush(i));
    var p := s.frames[i].page;
    var es := s.journal.entries;
    var j :| 0 <= j < |s.journaled| && s.journaled[j] == p;
    assert es[j].page == p;
    ReplayForgets(s.disk, s'.disk, es);
  }

  lemma RestoreKeepsSound(s: State)
    requires Sound(s) && Enabled(s, Restore)
    ensures Sound(Apply(s, Restore)) && Durable(Apply(s, Restore)) == Durable(s)
  {
    var s' := Apply(s, Restore);
    var es := s.journal.entries;
    assert InJournal(es, es[s.restored].page);
    ReplayForgets(s.disk, s'.disk, es);
  }

  lemma FinishKeepsSound(s: State)
    requires Sound(s) && Enabled(s, Finish)
    ensures Sound(Apply(s, Finish)) && Durable(Apply(s, Finish)) == Durable(s)
    ensures Logical(Apply(s, Finish)) == Durable(s)
  {
    var s' := Apply(s, Finish);
    var es := s.journal.entries;
    forall p: PageId ensures At(Replay(s.disk, es), p) == At(s.disk, p) {
      ReplayAt(s.disk, es, p);
      if InJournal(es, p) {
        var j :| 0 <= j < |es| && es[j].page == p;
      }
    }
    assert Durable(s') == Durable(s);
    assert forall p: PageId :: FindFrame(s'.frames, p) == -1;
  }

  lemma CommitMakesDurable(s: State)
    requires Sound(s) && Enabled(s, Commit)
    ensures Sound(Apply(s, Commit)) && Durable(Apply(s, Commit)) == Logical(s) == Logical(Apply(s, Commit))
  {
    var s' := Apply(s, Commit);
    assert Logical(s) == Logical(s');
    assert forall p: PageId :: Content(s.disk, s.frames, p) == At(s.disk, p);
  }

  lemma CacheStepKeepsSound(s: State, t: Step)
    requires t.Load? || t.Touch? || t.Evict? || t.Write?
    requires Sound(s) && Enabled(s, t) && Disciplined(s, t)
    ensures Sound(Apply(s, t)) && Durable(Apply(s, t)) == Durable(s)
  {
    var s' := Apply(s, t);
    assert forall j :: 0 <= j < |s.frames| && j != t.i ==> s'.frames[j] == s.frames[j];
  }

  /** No step but the removal of the journal at commit changes what a recovery would
      leave, and that one step makes durable exactly the pages the cache showed. */
  lemma StepIsAtomic(s: State, t: Step)
    requires Sound(s) && Enabled(s, t) && Disciplined(s, t)
    ensures Sound(Apply(s, t))
    ensures Durable(Apply(s, t)) == if t.Commit? then Logical(s) else Durable(s)
  {
    match t
    case Append(i) => AppendKeepsSound(s, i);
    case Flush(i) => FlushKeepsSound(s, i);
    case Restore => RestoreKeepsSound(s);
    case Finish => FinishKeepsSound(s);
    case Commit => CommitMakesDurable(s);
    case Load(_, _) => CacheStepKeepsSound(s, t);
    case Touch(_, _, _) => CacheStepKeepsSound(s, t);
    case Evict(_) => CacheStepKeepsSound(s, t);
    case Write(_, _) => CacheStepKeepsSound(s, t);
    case Tear =>
    case Begin =>
    case Discard =>
    case Crash =>
  }

  lemma ContentIs(disk: map<PageId, Page>, frames: seq<Frame>, p: PageId)
    requires OneFramePerPage(frames)
    ensures forall i :: 0 <= i < |frames| && Holds(frames[i], p) ==> Content(disk, frames, p) == frames[i].data
    ensures (forall i :: 0 <= i < |frames| ==> !Holds(frames[i], p)) ==> Content(disk, frames, p) == At(disk, p)
  {}

  /** What a step of normal operation does to the pages the layers above see. */
  lemma StepLogical(s: State, t: Step)
    requires OneFramePerPage(s.frames) && CleanIsOnDisk(s) && Enabled(s, t) && s.restored == 0
    requires !t.Restore? && !t.Discard? && !t.Crash? && !t.Finish?
    ensures Logical(Apply(s, t)) == if t.Write? then Logical(s)[s.frames[t.i].page := t.data] else Logical(s)
  {
    var s' := Apply(s, t);
    forall p: PageId
      ensures Logical(s')[p] == if t.Write? && p == s.frames[t.i].page then t.data else Logical(s)[p]
    {
      StepLogicalAt(s, t, p);
    }
  }

  lemma StepLogicalAt(s: State, t: Step, p: PageId)
    requires OneFramePerPage(s.frames) && CleanIsOnDisk(s) && Enabled(s, t) && s.restored == 0
    requires !t.Restore? && !t.Discard? && !t.Crash? && !t.Finish?
    ensures Logical(Apply(s, t))[p] == if t.Write? && p == s.frames[t.i].page then t.data else Logical(s)[p]
  {
    var s' := Apply(s, t);
    StaysOnePerPage(s, t);
    ContentIs(s.disk, s.frames, p);
    ContentIs(s'.disk, s'.frames, p);
    var i := FindFrame(s.frames, p);
    if i >= 0 {
      HeldFrameLogical(s, t, i);
    } else {
      assert t.Load? && t.p == p ==> Holds(s'.frames[t.i], p);
    }
  }

  lemma HeldFrameLogical(s: State, t: Step, i: nat)
    requires OneFramePerPage(s.frames) && CleanIsOnDisk(s) && Enabled(s, t) && s.restored == 0 && i < |s.frames| && s.frames[i].valid
    requires !t.Restore? && !t.Discard? && !t.Crash? && !t.Finish?
    ensures var s', p := Apply(s, t), s.frames[i].page;
            && OneFramePerPage(s'.frames) && |s'.frames| == |s.frames|
            && (if t.Evict? && t.i == i then s.frames[i].data == At(s'.disk, p) && forall j :: 0 <= j < |s'.frames| ==> !Holds(s'.frames[j], p)
                else Holds(s'.frames[i], p) && s'.frames[i].data == if t.Write? && t.i == i then t.data else s.frames[i].data)
  {}

  lemma StaysOnePerPage(s: State, t: Step)
    requires OneFramePerPage(s.frames) && Enabled(s, t)
    ensures OneFramePerPage(Apply(s, t).frames)
  {}

  // ---------- runs ----------

  /** A run: the states passed through and the steps between them. */
  datatype Run = Run(states: seq<State>, steps: seq<Step>)

  ghost predicate IsRun(r: Run) {
    && |r.states| == |r.steps| + 1
    && forall k :: 0 <= k < |r.steps| ==>
         Enabled(r.states[k], r.steps[k]) && r.states[k + 1] == Apply(r.states[k], r.steps[k])
  }

  ghost predicate DisciplinedRun(r: Run)
    requires IsRun(r)
  {
    forall k :: 0 <= k < |r.steps| ==> Disciplined(r.states[k], r.steps[k])
  }

  function End(r: Run): State
    requires r.states != []
  {
    r.states[|r.states| - 1]
  }

  ghost function Extend(r: Run, t: Step): (r': Run)
    requires r.states != [] && Enabled(End(r), t)
    ensures IsRun(r) ==> IsRun(r')
    ensures |r'.states| == |r.states| + 1 && |r'.steps| == |r.steps| + 1 && End(r') == Apply(End(r), t)
    ensures forall k :: 0 <= k < |r.states| ==> r'.states[k] == r.states[k]
    ensures forall k :: 0 <= k < |r.steps| ==> r'.steps[k] == r.steps[k]
  {
    Run(r.states + [Apply(End(r), t)], r.steps + [t])
  }

  /** The pages the cache showed at the last commit before state k; the pages durable at
      the start if there was none. */
  ghost function LastCommitted(r: Run, k: nat): Image
    requires IsRun(r) && k <= |r.steps|
  {
    if k == 0 then Durable(r.states[0])
    else if r.steps[k - 1].Commit? then Logical(r.states[k - 1])
    else LastCommitted(r, k - 1)
  }

  /** Atomicity over every run: wherever the run is cut, a recovery started there leaves
      exactly the pages of the last commit; and whenever no journal is present (between
      transactions, or after rollback or recovery) these are the pages the cache shows. */
  lemma {:induction false} RunsAreAtomic(r: Run, k: nat)
    requires IsRun(r) && DisciplinedRun(r) && Sound(r.states[0]) && k <= |r.steps|
    ensures Sound(r.states[k])
    ensures Durable(r.states[k]) == LastCommitted(r, k)
    ensures r.states[k].journal.NoFile? ==> Logical(r.states[k]) == LastCommitted(r, k)
  {
    if k > 0 {
      RunsAreAtomic(r, k - 1);
      StepIsAtomic(r.states[k - 1], r.steps[k - 1]);
    }
    QuietShowsDurable(r.states[k]);
  }

  lemma QuietShowsDurable(s: State)
    requires Sound(s)
    ensures s.journal.NoFile? ==> Logical(s) == Durable(s)
  {
    if s.journal.NoFile? {
      assert forall p: PageId :: Content(s.disk, s.frames, p) == At(s.disk, p);
    }
  }

  /** State s ends a disciplined run from a sound state, shows the pages and would leave durable. */
  ghost predicate Reached(r: Run, s: State, pages: Image, durable: Image) {
    && IsRun(r) && DisciplinedRun(r) && Sound(r.states[0])
    && s == End(r) && pages == Logical(s) && durable == Durable(s)
  }

  lemma FreshlyOpened(s: State)
    requires NoneValid(s.frames) && !s.active && s.restored == 0
    requires s.journal.File? ==> DistinctPages(s.journal.entries)
    ensures Reached(Run([s], []), s, Logical(s), Durable(s))
    ensures s.journal.NoFile? ==> Logical(s) == Durable(s) == ImageOf(s.disk)
  {
    QuietShowsDurable(s);
  }

  predicate Normal(t: Step) {
    !t.Restore? && !t.Discard? && !t.Crash? && !t.Finish?
  }

  lemma Advance(r: Run, s: State, pages: Image, durable: Image, t: Step)
    requires Reached(r, s, pages, durable) && Enabled(s, t) && Disciplined(s, t)
    ensures var s' := Apply(s, t);
            && Sound(s) && Reached(Extend(r, t), s', Logical(s'), Durable(s'))
            && Durable(s') == (if t.Commit? then pages else durable)
            && (s.restored == 0 && Normal(t) ==>
                  Logical(s') == if t.Write? then pages[s.frames[t.i].page := t.data] else pages)
            && (t.Finish? ==> Logical(s') == Durable(s'))
  {
    ReachedIsSound(r, s, pages, durable);
    ExtendedIsReached(r, s, pages, durable, t);
    StepIsAtomic(s, t);
    if s.restored == 0 && Normal(t) {
      StepLogical(s, t);
    }
    if t.Finish? {
      FinishKeepsSound(s);
    }
  }

  lemma ReachedIsSound(r: Run, s: State, pages: Image, durable: Image)
    requires Reached(r, s, pages, durable)
    ensures Sound(s)
  {
    RunsAreAtomic(r, |r.steps|);
  }

  lemma ExtendedIsReached(r: Run, s: State, pages: Image, durable: Image, t: Step)
    requires Reached(r, s, pages, durable) && Enabled(s, t) && Disciplined(s, t)
    ensures Reached(Extend(r, t), Apply(s, t), Logical(Apply(s, t)), Durable(Apply(s, t)))
  {
    assert Extend(r, t).states[|r.steps|] == s;
  }

  /** The steps of rollback_internal, and of txn_recover after a crash. */
  ghost function Recovery(s: State, n: nat): (r: Run)
    requires s.journal.File? && s.restored == 0 && n <= |s.journal.entries|
    ensures IsRun(r) && DisciplinedRun(r) && r.states[0] == s
    ensures End(r) == s.(restored := n, disk := End(r).disk)
  {
    if n == 0 then Run([s], []) else Extend(Recovery(s, n - 1), Restore)
  }

  ghost function FullRecovery(s: State): (r: Run)
    requires s.journal.File? && s.restored == 0
    ensures IsRun(r) && DisciplinedRun(r) && r.states[0] == s && End(r).journal.NoFile?
  {
    Extend(Extend(Recovery(s, |s.journal.entries|), Discard), Finish)
  }

  lemma {:induction false} RecoveryCommitsNothing(s: State, n: nat, k: nat)
    requires s.journal.File? && s.restored == 0 && n <= |s.journal.entries| && k <= n
    ensures |Recovery(s, n).steps| == n
    ensures forall j :: 0 <= j < n ==> Recovery(s, n).steps[j] == Restore
  {
    if n > 0 {
      RecoveryCommitsNothing(s, n - 1, 0);
    }
  }

  lemma {:induction false} NoCommitKeeps(r: Run, k: nat)
    requires IsRun(r) && k <= |r.steps| && forall j :: 0 <= j < k ==> !r.steps[j].Commit?
    ensures LastCommitted(r, k) == Durable(r.states[0])
  {
    if k > 0 {
      NoCommitKeeps(r, k - 1);
    }
  }

  /** From any sound state, in a transaction or after a crash, the replay of the whole
      journal runs to its end and then shows the durable pages. */
  lemma RecoveryCompletes(s: State)
    requires Sound(s) && s.journal.File? && s.restored == 0
    ensures Logical(End(FullRecovery(s))) == Durable(s)
  {
    var r := FullRecovery(s);
    RecoveryCommitsNothing(s, |s.journal.entries|, 0);
    NoCommitKeeps(r, |r.steps|);
    RunsAreAtomic(r, |r.steps|);
  }

  /** A crash in state s and then the recovery at the next start show the pages img. */
  ghost predicate CrashShows(s: State, img: Image) {
    var c := Apply(s, Crash);
    Logical(if c.journal.NoFile? then c else End(FullRecovery(c))) == img
  }

  /** Crash at any moment of any run: recovery shows exactly the last commit. */
  lemma CrashShowsLastCommit(r: Run, k: nat)
    requires IsRun(r) && DisciplinedRun(r) && Sound(r.states[0]) && k <= |r.steps|
    ensures CrashShows(r.states[k], LastCommitted(r, k))
  {
    RunsAreAtomic(r, k);
    var c := Apply(r.states[k], Crash);
    StepIsAtomic(r.states[k], Crash);
    if c.journal.File? {
      RecoveryCompletes(c);
    } else {
      QuietShowsDurable(c);
    }
  }

  // ---------- what every crash leaves ----------

  /** Wherever page 1 is stored, it is a header. */
  ghost predicate Headed(s: State) {
    && At(s.disk, 1).Header?
    && (forall i :: 0 <= i < |s.frames| && Holds(s.frames[i], 1) ==> s.frames[i].data.Header?)
    && (s.journal.File? ==> HeaderEntries(s.journal.entries))
  }

  ghost predicate HeaderEntries(es: seq<JournalEntry>) {
    forall j :: 0 <= j < |es| && es[j].page == 1 ==> es[j].before.Header?
  }

  predicate KeepsHeader(s: State, t: Step) {
    t.Write? && t.i < |s.frames| && s.frames[t.i].page == 1 ==> t.data.Header?
  }

  lemma HeadedStays(s: State, t: Step)
    requires Headed(s) && Enabled(s, t) && KeepsHeader(s, t)
    ensures Headed(Apply(s, t))
  {
    var s' := Apply(s, t);
    if t.Load? || t.Touch? || t.Flush? || t.Evict? || t.Write? {
      assert forall j :: 0 <= j < |s.frames| && j != t.i ==> s'.frames[j] == s.frames[j];
    }
  }

  /** Every state of a run has a header, and every image a crash may show is among these. */
  ghost predicate Kept(r: Run, images: iset<Image>)
    requires IsRun(r)
  {
    forall k :: 0 <= k <= |r.steps| ==> KeptAt(r, k, images)
  }

  ghost predicate KeptAt(r: Run, k: nat, images: iset<Image>)
    requires IsRun(r) && k <= |r.steps|
  {
    Headed(r.states[k]) && LastCommitted(r, k) in images
  }

  lemma {:induction false} SameHistory(r: Run, t: Step, k: nat)
    requires IsRun(r) && Enabled(End(r), t) && k <= |r.steps|
    ensures LastCommitted(Extend(r, t), k) == LastCommitted(r, k)
  {
    if k > 0 {
      SameHistory(r, t, k - 1);
    }
  }

  /** Only a commit adds an image. */
  lemma KeptWith(r: Run, images: iset<Image>, t: Step)
    requires IsRun(r) && Kept(r, images) && Enabled(End(r), t) && KeepsHeader(End(r), t)
    ensures Kept(Extend(r, t), if t.Commit? then images + iset{Logical(End(r))} else images)
  {
    var all := if t.Commit? then images + iset{Logical(End(r))} else images;
    forall k | 0 <= k <= |r.steps| + 1 ensures KeptAt(Extend(r, t), k, all) {
      if k <= |r.steps| {
        SameHistory(r, t, k);
        assert KeptAt(r, k, images);
      } else {
        assert KeptAt(r, |r.steps|, images);
        HeadedStays(End(r), t);
        SameHistory(r, t, |r.steps|);
      }
    }
  }

  // ---------- what every run keeps, disciplined or not ----------

  ghost predicate Cached(s: State) {
    && OneFramePerPage(s.frames) && (s.restored == 0 ==> CleanIsOnDisk(s))
    && (s.journal.NoFile? ==> s.restored == 0 && !s.active)
  }

  lemma CachedStays(s: State, t: Step)
    requires Cached(s) && Enabled(s, t)
    ensures Cached(Apply(s, t))
  {
    var s' := Apply(s, t);
    if t.Load? || t.Touch? || t.Flush? || t.Evict? || t.Write? {
      assert forall j :: 0 <= j < |s.frames| && j != t.i ==> s'.frames[j] == s.frames[j];
    }
  }

  lemma {:induction false} CachedThroughout(r: Run, k: nat)
    requires IsRun(r) && Cached(r.states[0]) && k <= |r.steps|
    ensures Cached(r.states[k])
  {
    if k > 0 {
      CachedThroughout(r, k - 1);
      CachedStays(r.states[k - 1], r.steps[k - 1]);
    }
  }

  /** Whatever a run has written without a transaction before, after a commit, or after a
      rollback has ended, everything is sound as long as the discipline is kept. */
  lemma {:induction false} SoundAfterCommit(r: Run, k: nat, n: nat)
    requires IsRun(r) && Cached(r.states[0]) && k < n <= |r.steps| && (r.steps[k].Commit? || r.steps[k].Finish?)
    requires forall j :: k < j < n ==> Disciplined(r.states[j], r.steps[j])
    ensures Sound(r.states[n])
  {
    if n == k + 1 {
      CachedThroughout(r, k);
    } else {
      SoundAfterCommit(r, k, n - 1);
      StepIsAtomic(r.states[n - 1], r.steps[n - 1]);
    }
  }

  // ---------- what a frame that is dirty at begin does ----------

  ghost predicate DirtyAt(frames: seq<Frame>, p: PageId) {
    exists i :: 0 <= i < |frames| && Holds(frames[i], p) && frames[i].dirty
  }

  /** A run of one transaction that does not commit, from its begin in s. */
  ghost predicate Uncommitted(r: Run, s: State) {
    IsRun(r) && r.states[0] == s && DisciplinedRun(r) && forall j :: 0 <= j < |r.steps| ==> !r.steps[j].Commit?
  }

  /** Whatever the transaction does to the page before its commit, a crash takes it back. */
  ghost predicate TakenBackAt(s: State, p: PageId) {
    forall r :: Uncommitted(r, s) ==> Durable(End(r))[p] == Durable(s)[p]
  }

  /** So it is for every page. */
  ghost predicate TakenBack(s: State) {
    forall r :: Uncommitted(r, s) ==> Durable(End(r)) == Durable(s)
  }

  /** Sound as far as this page goes. */
  ghost predicate SoundAt(s: State, p: PageId) {
    && Cached(s)
    && (!s.active ==> !DirtyAt(s.frames, p))
    && (s.journal.File? ==>
          && DistinctPages(s.journal.entries)
          && s.restored <= |s.journal.entries|
          && (forall j :: 0 <= j < s.restored ==>
                At(s.disk, s.journal.entries[j].page) == s.journal.entries[j].before)
          && (!s.active ==> NoneValid(s.frames))
          && (s.active ==>
                && |s.journaled| == |s.journal.entries|
                && forall j :: 0 <= j < |s.journaled| ==> s.journaled[j] == s.journal.entries[j].page))
    && (DirtyAt(s.frames, p) ==> p in s.journaled)
  }

  lemma CacheStepKeepsAt(s: State, t: Step, p: PageId)
    requires t.Load? || t.Touch? || t.Flush? || t.Evict? || t.Write?
    requires SoundAt(s, p) && Enabled(s, t) && Disciplined(s, t)
    ensures SoundAt(Apply(s, t), p) && Durable(Apply(s, t))[p] == Durable(s)[p]
  {
    CachedStays(s, t);
    var s' := Apply(s, t);
    assert forall j :: 0 <= j < |s.frames| && j != t.i ==> s'.frames[j] == s.frames[j];
    if DirtyAt(s'.frames, p) && !DirtyAt(s.frames, p) {
      assert t.Write? && Holds(s.frames[t.i], p) && !s.frames[t.i].dirty;
    }
    if t.Flush? && s.journal.File? {
      var es := s.journal.entries;
      ReplayAt(s.disk, es, p);
      ReplayAt(s'.disk, es, p);
      if s.frames[t.i].page == p {
        assert DirtyAt(s.frames, p);
        var j :| 0 <= j < |s.journaled| && s.journaled[j] == p;
        assert es[j].page == p;
      }
    }
  }

  lemma AppendKeepsAt(s: State, i: nat, p: PageId)
    requires SoundAt(s, p) && Enabled(s, Append(i))
    ensures SoundAt(Apply(s, Append(i)), p) && Durable(Apply(s, Append(i)))[p] == Durable(s)[p]
  {
    var f := s.frames[i];
    var es := s.journal.entries;
    assert !InJournal(es, f.page);
    ReplaySnoc(s.disk, es, JournalEntry(f.page, f.data));
    ReplayAt(s.disk, es, f.page);
  }

  lemma RestoreKeepsAt(s: State, p: PageId)
    requires SoundAt(s, p) && Enabled(s, Restore)
    ensures SoundAt(Apply(s, Restore), p) && Durable(Apply(s, Restore))[p] == Durable(s)[p]
  {
    var es := s.journal.entries;
    assert InJournal(es, es[s.restored].page);
    ReplayForgets(s.disk, Apply(s, Restore).disk, es);
  }

  lemma FinishKeepsAt(s: State, p: PageId)
    requires SoundAt(s, p) && Enabled(s, Finish)
    ensures SoundAt(Apply(s, Finish), p) && Durable(Apply(s, Finish))[p] == Durable(s)[p]
  {
    var es := s.journal.entries;
    ReplayAt(s.disk, es, p);
    if InJournal(es, p) {
      var j :| 0 <= j < |es| && es[j].page == p;
    }
  }

  /** A page that was clean at begin stays protected, whatever becomes of the others. */
  lemma StepKeepsAt(s: State, t: Step, p: PageId)
    requires SoundAt(s, p) && Enabled(s, t) && Disciplined(s, t) && !t.Commit?
    ensures SoundAt(Apply(s, t), p) && Durable(Apply(s, t))[p] == Durable(s)[p]
  {
    match t
    case Append(i) => AppendKeepsAt(s, i, p);
    case Restore => RestoreKeepsAt(s, p);
    case Finish => FinishKeepsAt(s, p);
    case Load(_, _) => CacheStepKeepsAt(s, t, p);
    case Touch(_, _, _) => CacheStepKeepsAt(s, t, p);
    case Evict(_) => CacheStepKeepsAt(s, t, p);
    case Flush(_) => CacheStepKeepsAt(s, t, p);
    case Write(_, _) => CacheStepKeepsAt(s, t, p);
    case Tear =>
    case Begin =>
    case Discard =>
    case Crash =>
  }

  lemma {:induction false} SoundAtThroughout(r: Run, p: PageId, k: nat)
    requires IsRun(r) && Uncommitted(r, r.states[0]) && SoundAt(r.states[0], p) && k <= |r.steps|
    ensures SoundAt(r.states[k], p) && Durable(r.states[k])[p] == Durable(r.states[0])[p]
  {
    if k > 0 {
      SoundAtThroughout(r, p, k - 1);
      StepKeepsAt(r.states[k - 1], r.steps[k - 1], p);
    }
  }

  lemma DirtyFrameEscapes(b: State, i: nat)
    requires b.active && b.journal == File([], false) && b.restored == 0
    requires i < |b.frames| && b.frames[i].valid && b.frames[i].dirty
    ensures !TakenBackAt(b, b.frames[i].page)
  {
    var p := b.frames[i].page;
    var other := if At(b.disk, p) == Raw(0) then Raw(1) else Raw(0);
    var r := Extend(Extend(Run([b], []), Write(i, other)), Flush(i));
    assert Uncommitted(r, b);
    assert Durable(End(r))[p] == other && Durable(b)[p] == At(b.disk, p);
  }

  /** The journal protects a page exactly when no frame holds it dirty at the begin: the
      write hook does not fire on a dirty frame, so its pre-image is never journalled. */
  lemma BeginProtectsPageIffClean(s: State, p: PageId)
    requires Cached(s) && !s.active && s.journal.NoFile?
    ensures TakenBackAt(Apply(s, Begin), p) <==> !DirtyAt(s.frames, p)
  {
    var b := Apply(s, Begin);
    if DirtyAt(s.frames, p) {
      var i :| 0 <= i < |s.frames| && Holds(s.frames[i], p) && s.frames[i].dirty;
      DirtyFrameEscapes(b, i);
    } else {
      forall r | Uncommitted(r, b) ensures Durable(End(r))[p] == Durable(b)[p] {
        SoundAtThroughout(r, p, |r.steps|);
      }
    }
  }

  lemma TakenBackEverywhere(s: State)
    ensures TakenBack(s) <==> forall p: PageId :: TakenBackAt(s, p)
  {
    if forall p: PageId :: TakenBackAt(s, p) {
      forall r | Uncommitted(r, s) ensures Durable(End(r)) == Durable(s) {
        forall p: PageId ensures Durable(End(r))[p] == Durable(s)[p] {
          assert TakenBackAt(s, p);
        }
      }
    }
  }

  lemma BeginProtectsIffClean(s: State)
    requires Cached(s) && !s.active && s.journal.NoFile?
    ensures TakenBack(Apply(s, Begin)) <==> NoDirty(s.frames)
  {
    forall p: PageId ensures TakenBackAt(Apply(s, Begin), p) <==> !DirtyAt(s.frames, p) {
      BeginProtectsPageIffClean(s, p);
    }
    TakenBackEverywhere(Apply(s, Begin));
    if !NoDirty(s.frames) {
      var i :| 0 <= i < |s.frames| && s.frames[i].valid && s.frames[i].dirty;
      assert DirtyAt(s.frames, s.frames[i].page);
    }
  }

  // ---------- opening the catalog ----------

  /** btree_ensure_root on a root page still all zeros. */
  const EMPTY_LEAF := Node(Table, true, [], 0)

  /** The cache is empty, no journal is there. */
  ghost predicate Fresh(s: State) {
    NoneValid(s.frames) && s.journal.NoFile? && !s.active && s.restored == 0
  }

  /** catalog_open reads pages, through the cache, and makes roots that are all zeros leaves. */
  ghost predicate OpenStep(s: State, t: Step, roots: set<PageId>) {
    || t.Load? || t.Touch? || t.Flush? || t.Evict?
    || (t.Write? && t.i < |s.frames| && s.frames[t.i].page in roots && s.frames[t.i].data == Raw(0) && t.data == EMPTY_LEAF)
  }

  /** It opens a cursor on the catalog tree and on every table tree, so that none of these
      roots is all zeros afterwards; and this is outside any transaction. */
  ghost predicate Opening(r: Run, roots: set<PageId>) {
    && IsRun(r) && Fresh(r.states[0])
    && (forall k :: 0 <= k < |r.steps| ==> OpenStep(r.states[k], r.steps[k], roots))
    && forall p :: p in roots ==> Logical(End(r))[p] != Raw(0)
  }

  /** The frames that are dirty hold new leaves. */
  ghost predicate Opened(s: State, roots: set<PageId>) {
    && Cached(s) && s.journal.NoFile?
    && forall i :: 0 <= i < |s.frames| && s.frames[i].valid && s.frames[i].dirty ==>
         s.frames[i].page in roots && s.frames[i].data == EMPTY_LEAF && At(s.disk, s.frames[i].page) == Raw(0)
  }

  lemma OpenedStays(s: State, t: Step, roots: set<PageId>)
    requires Opened(s, roots) && Enabled(s, t) && OpenStep(s, t, roots)
    ensures Opened(Apply(s, t), roots)
  {
    CachedStays(s, t);
    var s' := Apply(s, t);
    assert forall j :: 0 <= j < |s.frames| && j != t.i ==> s'.frames[j] == s.frames[j];
  }

  lemma {:induction false} OpenedThroughout(r: Run, roots: set<PageId>, k: nat)
    requires Opening(r, roots) && k <= |r.steps|
    ensures Opened(r.states[k], roots)
  {
    if k > 0 {
      OpenedThroughout(r, roots, k - 1);
      OpenedStays(r.states[k - 1], r.steps[k - 1], roots);
    }
  }

  lemma OpenedDirtyIffRaw(s: State, roots: set<PageId>, p: PageId)
    requires Opened(s, roots) && (p in roots ==> Logical(s)[p] != Raw(0))
    ensures DirtyAt(s.frames, p) <==> p in roots && At(s.disk, p) == Raw(0)
  {
    var i := FindFrame(s.frames, p);
    if i >= 0 && DirtyAt(s.frames, p) {
      var j :| 0 <= j < |s.frames| && Holds(s.frames[j], p) && s.frames[j].dirty;
    }
  }

  /** The first transaction of a session protects a page exactly if it is no table root that
      is still all zeros in the file at that moment, and everything exactly if there is none. */
  lemma OpeningProtectsIff(r: Run, roots: set<PageId>)
    requires Opening(r, roots)
    ensures Enabled(End(r), Begin)
    ensures forall p: PageId :: TakenBackAt(Apply(End(r), Begin), p) <==> !(p in roots && At(End(r).disk, p) == Raw(0))
    ensures TakenBack(Apply(End(r), Begin)) <==> forall p :: p in roots ==> At(End(r).disk, p) != Raw(0)
  {
    var s := End(r);
    OpenedThroughout(r, roots, |r.steps|);
    forall p: PageId ensures TakenBackAt(Apply(s, Begin), p) <==> !(p in roots && At(s.disk, p) == Raw(0)) {
      OpenedDirtyIffRaw(s, roots, p);
      BeginProtectsPageIffClean(s, p);
    }
    TakenBackEverywhere(Apply(s, Begin));
  }

  /** What opening does to the pages: roots that were all zeros are leaves. */
  ghost function Ensured(img: Image, roots: set<PageId>): Image
    requires Total(img)
  {
    imap p: PageId | true :: if p in roots && img[p] == Raw(0) then EMPTY_LEAF else img[p]
  }

  lemma {:induction false} OpeningWrites(r: Run, roots: set<PageId>, p: PageId, k: nat)
    requires Opening(r, roots) && k <= |r.steps|
    ensures var q, q' := At(r.states[0].disk, p), Logical(r.states[k])[p];
            q' == q || (p in roots && q == Raw(0) && q' == EMPTY_LEAF)
    ensures At(r.states[k].disk, p) in {At(r.states[0].disk, p), Logical(r.states[k])[p]}
  {
    var s := r.states[k];
    if k > 0 {
      OpeningWrites(r, roots, p, k - 1);
      OpenedThroughout(r, roots, k - 1);
      StepLogicalAt(r.states[k - 1], r.steps[k - 1], p);
      ContentIs(r.states[k - 1].disk, r.states[k - 1].frames, p);
    } else {
      ContentIs(s.disk, s.frames, p);
    }
  }

  lemma OpeningEnsures(r: Run, roots: set<PageId>)
    requires Opening(r, roots)
    ensures Logical(End(r)) == Ensured(ImageOf(r.states[0].disk), roots)
  {
    forall p: PageId ensures Logical(End(r))[p] == Ensured(ImageOf(r.states[0].disk), roots)[p] {
      OpeningWrites(r, roots, p, |r.steps|);
    }
  }

  /** Unless the cache overflows while the catalog is opened, the file is as it was. */
  lemma {:induction false} OpeningLeavesFile(r: Run, roots: set<PageId>, k: nat)
    requires Opening(r, roots) && k <= |r.steps| && forall j :: 0 <= j < |r.steps| ==> !r.steps[j].Flush?
    ensures r.states[k].disk == r.states[0].disk
  {
    if k > 0 {
      OpeningLeavesFile(r, roots, k - 1);
    }
  }

  /** In terms of the file that is opened: with no root all zeros there, the first
      transaction is protected; with one it is not, unless the cache wrote that root back
      to make room while the catalog was opened. */
  lemma FirstTransactionProtectedIff(r: Run, roots: set<PageId>)
    requires Opening(r, roots)
    ensures Enabled(End(r), Begin)
    ensures (forall p :: p in roots ==> At(r.states[0].disk, p) != Raw(0)) ==> TakenBack(Apply(End(r), Begin))
    ensures (forall j :: 0 <= j < |r.steps| ==> !r.steps[j].Flush?) ==>
              (TakenBack(Apply(End(r), Begin)) <==> forall p :: p in roots ==> At(r.states[0].disk, p) != Raw(0))
  {
    OpeningProtectsIff(r, roots);
    forall p | p in roots && At(End(r).disk, p) == Raw(0) ensures At(r.states[0].disk, p) == Raw(0) {
      OpeningWrites(r, roots, p, |r.steps|);
    }
    if forall j :: 0 <= j < |r.steps| ==> !r.steps[j].Flush? {
      OpeningLeavesFile(r, roots, |r.steps|);
    }
  }

  /** Such an opening of any recovered file with an untouched table: read its root, make it a
      leaf, begin. */
  ghost function OpenAt(s: State, p: PageId): (r: Run)
    requires Fresh(s) && s.frames != [] && At(s.disk, p) == Raw(0)
    ensures Opening(r, {p}) && r.states[0] == s && forall j :: 0 <= j < |r.steps| ==> !r.steps[j].Flush?
  {
    var r := Extend(Extend(Run([s], []), Load(0, p)), Write(0, EMPTY_LEAF));
    assert Holds(End(r).frames[0], p) && FindFrame(End(r).frames, p) == 0;
    r
  }

  /** The start is sound and yet the first transaction is not protected. */
  lemma UntouchedRootEscapes(s: State, p: PageId)
    requires Fresh(s) && s.frames != [] && At(s.disk, p) == Raw(0)
    ensures Sound(s) && Enabled(End(OpenAt(s, p)), Begin) && !TakenBackAt(Apply(End(OpenAt(s, p)), Begin), p)
  {
    var r := OpenAt(s, p);
    OpeningLeavesFile(r, {p}, |r.steps|);
    OpeningProtectsIff(r, {p});
  }

  /** pager_open on a missing file. */
  ghost predicate NewFile(s: State) {
    Fresh(s) && s.disk == map[1 := Header(2, 0), 2 := Raw(0)] && s.frames != []
  }

  /** One committed CREATE TABLE into which nothing was inserted, and the file opened again. */
  ghost predicate UntouchedTable(s: State, entry: Cell) {
    Fresh(s) && s.disk == map[1 := Header(3, 0), 2 := Node(Table, true, [entry], 0), 3 := Raw(0)] && s.frames != []
  }

  /** So the first transaction on every new file is not protected, nor the first of a later
      session: the catalog's root is all zeros in the one, a table's in the other. */
  lemma FirstTransactionEscapes(s: State, entry: Cell)
    requires NewFile(s) || UntouchedTable(s, entry)
    ensures var p := if NewFile(s) then 2 else 3;
            Sound(s) && Enabled(End(OpenAt(s, p)), Begin) && !TakenBack(Apply(End(OpenAt(s, p)), Begin))
  {
    var p := if NewFile(s) then 2 else 3;
    UntouchedRootEscapes(s, p);
    TakenBackEverywhere(Apply(End(OpenAt(s, p)), Begin));
  }
}
