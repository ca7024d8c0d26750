/**
 * Progress, and the exact condition under which a start without `--resume` is safe.
 */
module CrawlRestart {
  import opened Options
  import opened Landing
  import opened CrawlState
  import opened Paging
  import opened CrawlMachine
  import opened CrawlSafety
  import opened CrawlTheorems
  import opened CrawlSteps

  ghost predicate OnlyResumes(trace: seq<State>) {
    forall i :: 0 <= i < |trace| ==> trace[i].proc != Boot(false)
  }

  ghost predicate Connects(rows: seq<Row>, size: nat, trace: seq<State>, s: State, t: State) {
    IsRun(Fixed(rows), size, trace) && OnlyResumes(trace) && trace[0] == s && trace[|trace| - 1] == t
  }

  /** Resumed runs lead from `s` to `t`. */
  ghost predicate Leads(rows: seq<Row>, size: nat, s: State, t: State) {
    exists trace :: Connects(rows, size, trace, s, t)
  }

  lemma LeadsByStep(rows: seq<Row>, size: nat, s: State, e: Step, m: State, t: State)
    requires Takes(Fixed(rows), size, s, e, m) && s.proc != Boot(false) && Leads(rows, size, m, t)
    ensures Leads(rows, size, s, t)
  {
    var trace :| Connects(rows, size, trace, m, t);
    assert Next(Fixed(rows), size, s, m);
    var longer := [s] + trace;
    forall i | 0 <= i < |longer| - 1 ensures Next(Fixed(rows), size, longer[i], longer[i + 1]) {
      if i > 0 {
        assert longer[i] == trace[i - 1];
      }
    }
    assert Connects(rows, size, longer, s, t);
  }

  lemma LeadsToItself(rows: seq<Row>, size: nat, s: State)
    requires s.proc != Boot(false)
    ensures Leads(rows, size, s, s)
  {
    assert Connects(rows, size, [s], s, s);
  }

  predicate Lacks(f: File, row: Row) {
    f.File? ==> Entry(row) !in f.lines
  }

  /** Nothing the rest of the run writes is the lost row. */
  predicate StaysLost(s: State, lost: Row, last: int) {
    lost.key.Some? && lost.key.value <= last && Lacks(s.files.items, lost)
  }

  /** From any point of the paging loop, an undisturbed process finishes the list, and it
      writes nothing at or below the id it has reached. */
  lemma Finishes(rows: seq<Row>, size: nat, s: State, lost: Row) returns (t: State)
    requires ValidList(rows) && size > 0 && s.proc.Fetching?
    ensures IsComplete(t) && Leads(rows, size, s, t)
    ensures StaysLost(s, lost, s.proc.last) ==> Lacks(t.files.items, lost)
    decreases |rows| - Behind(rows, s.proc.last), 0, 0
  {
    var page := PageOf(rows, s.proc.last, size);
    PageIsStretch(rows, size, s.proc.last, page);
    if page == [] {
      var a := s.(proc := Finishing(s.proc.last, s.proc.written));
      t := FinishesNow(rows, size, a);
      LeadsByStep(rows, size, s, Fetch(page), a, t);
    } else {
      MaxIdIsLast(page);
      PageEnds(rows, Behind(rows, s.proc.last), Behind(rows, s.proc.last) + |page|);
      var a := s.(proc := Writing(s.proc.last, s.proc.written, page, 0, false));
      t := FinishesPage(rows, size, a, lost);
      LeadsByStep(rows, size, s, Fetch(page), a, t);
    }
  }

  lemma FinishesPage(rows: seq<Row>, size: nat, s: State, lost: Row) returns (t: State)
    requires ValidList(rows) && size > 0
    requires s.proc.Writing? && !s.proc.half && s.proc.next <= |s.proc.page|
    requires Beyond(s.proc.page, s.proc.last)
    requires MaxId(s.proc.page).Some? && MaxId(s.proc.page).value > s.proc.last
    ensures IsComplete(t) && Leads(rows, size, s, t)
    ensures StaysLost(s, lost, s.proc.last) ==> Lacks(t.files.items, lost)
    decreases |rows| - Behind(rows, MaxId(s.proc.page).value), 1, |s.proc.page| - s.proc.next
  {
    var page, next := s.proc.page, s.proc.next;
    if next < |page| {
      var a := s.(files := s.files.(items := Appended(s.files.items, page[next])), proc := s.proc.(half := true));
      var b := a.(files := a.files.(raw := Appended(a.files.raw, page[next])),
                  proc := a.proc.(half := false, next := next + 1));
      t := FinishesPage(rows, size, b, lost);
      LeadsByStep(rows, size, a, WriteRaw, b, t);
      LeadsByStep(rows, size, s, WriteItems, a, t);
    } else {
      var a := s.(proc := Saving(MaxId(page).value, s.proc.written + Keyed(page), |page| < size));
      var b := a.(ckpt := Volatile(a), proc := if a.proc.short then Finishing(a.proc.last, a.proc.written)
                                               else Fetching(a.proc.last, a.proc.written));
      if a.proc.short {
        t := FinishesNow(rows, size, b);
      } else {
        t := Finishes(rows, size, b, lost);
      }
      LeadsByStep(rows, size, a, SavePage, b, t);
      LeadsByStep(rows, size, s, EndPage, a, t);
    }
  }

  lemma FinishesNow(rows: seq<Row>, size: nat, s: State) returns (t: State)
    requires s.proc.Finishing?
    ensures IsComplete(t) && Leads(rows, size, s, t) && t.files == s.files
  {
    t := s.(ckpt := Volatile(s), proc := Idle);
    LeadsToItself(rows, size, t);
    LeadsByStep(rows, size, s, SaveDone, t, t);
  }

  lemma FinishesPrepared(rows: seq<Row>, size: nat, s: State, lost: Row) returns (t: State)
    requires ValidList(rows) && size > 0 && s.proc.Prepared?
    ensures IsComplete(t) && Leads(rows, size, s, t)
    ensures StaysLost(s, lost, s.proc.last) ==> Lacks(t.files.items, lost)
  {
    var a := s.(ckpt := Volatile(s), proc := Opening(s.proc.last, s.proc.written));
    var b := a.(files := a.files.(items := Opened(a.files.items)), proc := HalfOpen(s.proc.last, s.proc.written));
    var c := b.(files := b.files.(raw := Opened(b.files.raw)), proc := Fetching(s.proc.last, s.proc.written));
    t := Finishes(rows, size, c, lost);
    LeadsByStep(rows, size, b, OpenRaw, c, t);
    LeadsByStep(rows, size, a, OpenItems, b, t);
    LeadsByStep(rows, size, s, SaveStart, a, t);
  }

  /** Progress: whatever is on disk, one undisturbed resume completes the list. */
  lemma ResumeCompletes(rows: seq<Row>, size: nat, s: State, lost: Row) returns (t: State)
    requires ValidList(rows) && size > 0 && s.proc.Idle?
    ensures IsComplete(t) && Leads(rows, size, s, t)
    ensures s.ckpt.status == Complete ==> t == s
    ensures s.files.items.Absent? && s.ckpt.lastItemId != 0 && StaysLost(s, lost, s.ckpt.lastItemId)
            && s.ckpt.status != Complete ==>
      Lacks(t.files.items, lost)
  {
    var boot := s.(proc := Boot(true));
    if s.ckpt.status == Complete {
      t := s;
      LeadsToItself(rows, size, t);
    } else if s.ckpt.lastItemId == 0 {
      var a := boot.(files := boot.files.(items := Absent), proc := HalfReset);
      var b := a.(files := a.files.(raw := Absent), proc := Prepared(0, 0));
      t := FinishesPrepared(rows, size, b, lost);
      LeadsByStep(rows, size, a, ResetRaw, b, t);
      LeadsByStep(rows, size, boot, ResetItems, a, t);
      LeadsByStep(rows, size, s, Start(true), boot, t);
    } else {
      var a := boot.(files := boot.files.(items := Rewritten(s.files.items, UpTo(s.ckpt.lastItemId))),
                     proc := HalfCut);
      var b := a.(files := a.files.(raw := Rewritten(s.files.raw, UpTo(s.ckpt.lastItemId))),
                  proc := Prepared(s.ckpt.lastItemId, s.ckpt.itemsWritten));
      t := FinishesPrepared(rows, size, b, lost);
      LeadsByStep(rows, size, a, CutRaw, b, t);
      LeadsByStep(rows, size, boot, CutItems, a, t);
      LeadsByStep(rows, size, s, Start(true), boot, t);
    }
  }

  // ---- starting over without --resume ----

  /** A crawl started without `--resume` over `s`, then resumed until the list is complete. */
  ghost predicate RestartRun(rows: seq<Row>, size: nat, s: State, trace: seq<State>) {
    && IsRun(Fixed(rows), size, trace) && trace[0] == s.(proc := Boot(false))
    && OnlyResumes(trace[1..]) && IsComplete(trace[|trace| - 1])
  }

  ghost predicate RestartIsSafe(rows: seq<Row>, size: nat, s: State) {
    forall trace: seq<State> :: RestartRun(rows, size, s, trace) ==>
      trace[|trace| - 1].files == Files(Whole(rows), Whole(rows))
  }

  lemma SafeWithoutCheckpoint(rows: seq<Row>, size: nat, s: State)
    requires ValidList(rows) && size > 0 && s.proc.Idle? && NoCheckpoint(s.ckpt)
    ensures RestartIsSafe(rows, size, s)
  {
    forall trace: seq<State> | RestartRun(rows, size, s, trace)
      ensures trace[|trace| - 1].files == Files(Whole(rows), Whole(rows))
    {
      assert forall i :: 1 <= i < |trace| ==> trace[i] == trace[1..][i - 1];
      KilledCrawlEqualsUninterrupted(rows, size, trace);
    }
  }

  /** The restart dies right after it has removed the decoded file, and is then resumed. */
  lemma RestartDies(rows: seq<Row>, size: nat, s: State, t: State)
    requires s.proc.Idle? && !NoCheckpoint(s.ckpt) && IsComplete(t)
    requires Leads(rows, size, s.(files := s.files.(items := Absent)), t)
    ensures exists trace :: RestartRun(rows, size, s, trace) && trace[|trace| - 1] == t
  {
    var w, boot := Fixed(rows), s.(proc := Boot(false));
    var cut := boot.(files := boot.files.(items := Absent), proc := HalfReset);
    var dead := cut.(proc := Idle);
    assert Takes(w, size, boot, ResetItems, cut) && Takes(w, size, cut, Kill, dead);
    var rest :| Connects(rows, size, rest, dead, t);
    var trace := [boot, cut] + rest;
    forall i | 0 <= i < |trace| - 1 ensures Next(w, size, trace[i], trace[i + 1]) {
      if i >= 2 {
        assert trace[i] == rest[i - 2];
      }
    }
    assert trace[1..] == [cut] + rest;
    assert RestartRun(rows, size, s, trace);
  }

  lemma UnsafeOverCheckpoint(rows: seq<Row>, size: nat, s: State)
    requires ValidList(rows) && size > 0 && s.proc.Idle? && Inv(Fixed(rows), size, s)
    requires !NoCheckpoint(s.ckpt)
    ensures !RestartIsSafe(rows, size, s)
  {
    var h :| InvWith(Fixed(rows), size, s, h);
    var lost := if rows == [] then Row(None, "") else rows[0];
    var t := ResumeCompletes(rows, size, s.(files := s.files.(items := Absent)), lost);
    RestartDies(rows, size, s, t);
    if s.ckpt.status != Complete {
      assert h.done != [] && lost == h.done[0] && Entry(lost) == Whole(rows).lines[0];
    }
  }

  /** Starting over without `--resume`, on whatever an earlier crawl of this list left, is
      safe against kills exactly when there is no checkpoint to start over. */
  lemma RestartSafeExactly(rows: seq<Row>, size: nat, s: State)
    requires ValidList(rows) && size > 0 && s.proc.Idle? && Inv(Fixed(rows), size, s)
    ensures RestartIsSafe(rows, size, s) <==> NoCheckpoint(s.ckpt)
  {
    if NoCheckpoint(s.ckpt) {
      SafeWithoutCheckpoint(rows, size, s);
    } else {
      UnsafeOverCheckpoint(rows, size, s);
    }
  }

  // ---- where the two files are not in step ----

  function AtFetch(rows: seq<Row>, last: int): State {
    State(Files(Whole(rows), Whole(rows)), ListState(last, last, None, InProgress), Fetching(last, last))
  }

  function AtSave(rows: seq<Row>, last: int): State {
    State(Files(Whole(rows), Whole(rows)), ListState(last, last, None, InProgress), Saving(last + 1, last + 1, false))
  }

  lemma LeadsOn(rows: seq<Row>, size: nat, s: State, m: State, e: Step, t: State)
    requires Leads(rows, size, s, m) && Takes(Fixed(rows), size, m, e, t) && t.proc != Boot(false)
    ensures Leads(rows, size, s, t)
  {
    var trace :| Connects(rows, size, trace, s, m);
    assert Next(Fixed(rows), size, m, t);
    assert Connects(rows, size, trace + [t], s, t);
  }

  /** A page of one row, up to the save behind it. */
  lemma OneRowPage(rows: seq<Row>, s: State, done: seq<Row>, row: Row, last: int)
    requires Leads(rows, 1, s, AtFetch(done, last))
    requires PageOf(rows, last, 1) == [row] && row.key == Some(last + 1) && last >= 0
    ensures Leads(rows, 1, s, AtSave(done + [row], last))
  {
    WholeAppend(done, row);
    MaxIdIsLast([row]);
    var a := AtFetch(done, last);
    var b := a.(proc := Writing(last, last, [row], 0, false));
    LeadsOn(rows, 1, s, a, Fetch([row]), b);
    var c := State(Files(Whole(done + [row]), Whole(done)), a.ckpt, Writing(last, last, [row], 0, true));
    LeadsOn(rows, 1, s, b, WriteItems, c);
    var d := State(Files(Whole(done + [row]), Whole(done + [row])), a.ckpt, Writing(last, last, [row], 1, false));
    LeadsOn(rows, 1, s, c, WriteRaw, d);
    LeadsOn(rows, 1, s, d, EndPage, AtSave(done + [row], last));
  }

  lemma EmptyListOpened(rows: seq<Row>, s: State)
    requires s == State(Files(Absent, Absent), FRESH, Idle)
    ensures Leads(rows, 1, s, AtFetch([], 0))
  {
    var none, c := s.files, AtFetch([], 0).ckpt;
    assert Whole([]) == File([], Clean);
    LeadsToItself(rows, 1, s);
    LeadsOn(rows, 1, s, s, Start(true), State(none, FRESH, Boot(true)));
    LeadsOn(rows, 1, s, State(none, FRESH, Boot(true)), ResetItems, State(none, FRESH, HalfReset));
    LeadsOn(rows, 1, s, State(none, FRESH, HalfReset), ResetRaw, State(none, FRESH, Prepared(0, 0)));
    LeadsOn(rows, 1, s, State(none, FRESH, Prepared(0, 0)), SaveStart, State(none, c, Opening(0, 0)));
    var half := State(Files(Whole([]), Absent), c, HalfOpen(0, 0));
    LeadsOn(rows, 1, s, State(none, c, Opening(0, 0)), OpenItems, half);
    LeadsOn(rows, 1, s, half, OpenRaw, AtFetch([], 0));
  }

  /** Two rows, pages of one: both rows are in both files, the checkpoint covers the first. */
  lemma SecondPageWritten(r1: Row, r2: Row)
    requires r1.key == Some(1) && r2.key == Some(2)
    ensures Leads([r1, r2], 1, State(Files(Absent, Absent), FRESH, Idle), AtSave([r1, r2], 1))
  {
    var rows, s := [r1, r2], State(Files(Absent, Absent), FRESH, Idle);
    assert PageOf(rows, 0, 1) == [r1];
    assert Behind(rows[1..], 1) == 0 && PageOf(rows, 1, 1) == [r2];
    assert [] + [r1] == [r1] && [r1] + [r2] == [r1, r2];
    EmptyListOpened(rows, s);
    OneRowPage(rows, s, [], r1, 0);
    LeadsOn(rows, 1, s, AtSave([r1], 0), SavePage, AtFetch([r1], 1));
    OneRowPage(rows, s, [r1], r2, 1);
  }

  /** The files are not in step at every reachable state: a resume killed between its two
      truncations leaves the raw file with a row the decoded file no longer has. */
  lemma StepCanBreak(r1: Row, r2: Row) returns (t: State)
    requires r1.key == Some(1) && r2.key == Some(2)
    ensures Leads([r1, r2], 1, State(Files(Absent, Absent), FRESH, Idle), t)
    ensures t.proc.Idle? && t.files == Files(Whole([r1]), Whole([r1, r2])) && !InStep(t.files)
  {
    var rows, start, s := [r1, r2], State(Files(Absent, Absent), FRESH, Idle), AtSave([r1, r2], 1);
    SecondPageWritten(r1, r2);
    var cut := State(Files(Whole([r1]), s.files.raw), s.ckpt, HalfCut);
    t := cut.(proc := Idle);
    assert Entries([r1, r2]) == Entries([r1]) + [Entry(r2)];
    RewriteRecovers(s.files.items, [r1], [Entry(r2)], UpTo(1));
    LeadsOn(rows, 1, start, s, Kill, s.(proc := Idle));
    LeadsOn(rows, 1, start, s.(proc := Idle), Start(true), s.(proc := Boot(true)));
    LeadsOn(rows, 1, start, s.(proc := Boot(true)), CutItems, cut);
    LeadsOn(rows, 1, start, cut, Kill, t);
    assert |t.files.raw.lines| == 2 && |t.files.items.lines| == 1;
  }
}
