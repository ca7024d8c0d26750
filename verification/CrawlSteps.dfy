/**
 * The two files at every reachable step of every run: when they are in step, and what the next
 * resume makes of them.
 */
module CrawlSteps {
  import opened Landing
  import opened CrawlState
  import opened CrawlMachine
  import opened CrawlSafety
  import opened CrawlTheorems

  // ---- files ----

  function Lines(f: File): seq<Line> {
    if f.Absent? then [] else f.lines
  }

  /** The raw file holds a prefix of the decoded file's lines, at most one line shorter; a missing
      file holds none. */
  predicate InStep(f: Files) {
    Lines(f.raw) <= Lines(f.items) && |Lines(f.items)| <= |Lines(f.raw)| + 1
  }

  predicate Finished(f: File) {
    f.Absent? || f.tail.Clean?
  }

  /** What a resume makes of the two files. */
  function Recovered(s: State): Files {
    Files(Rewritten(s.files.items, UpTo(s.ckpt.lastItemId)), Rewritten(s.files.raw, UpTo(s.ckpt.lastItemId)))
  }

  ghost predicate Holds(f: File, done: seq<Row>, page: seq<Row>, n: nat) {
    (f.Absent? && done == [] && n == 0) || Partly(f, done, page, n)
  }

  /** The files of any reachable state: the covered rows and some of a page. */
  ghost predicate Orderly(f: Files, h: Shape) {
    && Holds(f.items, h.done, h.page, h.n) && Holds(f.raw, h.done, h.page, h.m)
    && (h.m <= h.n <= h.m + 1 || h.n == 0)
    && (Finished(f.items) || Finished(f.raw))
  }

  lemma PartsOfPage(done: seq<Row>, page: seq<Row>, m: nat, n: nat)
    requires m <= n <= |page|
    ensures Entries(done + page[..m]) <= Entries(done + page[..n])
  {
    assert page[..n][..m] == page[..m];
    assert (done + page[..n])[..|done| + m] == done + page[..m];
  }

  /** They are in step exactly when the raw file is not the longer one. */
  lemma OrderlyInStep(f: Files, h: Shape)
    requires Orderly(f, h)
    ensures InStep(f) <==> |Lines(f.raw)| <= |Lines(f.items)|
    ensures h.m <= h.n ==> InStep(f)
    ensures |Lines(f.raw)| == |h.done| + h.m && |Lines(f.items)| == |h.done| + h.n
  {
    var none: seq<Row> := [];
    assert h.done == [] ==> h.done + h.page[..0] == none;
    if h.m <= h.n {
      PartsOfPage(h.done, h.page, h.m, h.n);
    }
  }

  // ---- every state ----

  /** The files as the invariant describes them, wherever it does. */
  lemma OrderlyIfInv(w: World, size: nat, s: State, h: Shape) returns (g: Shape)
    requires InvWith(w, size, s, h)
    requires s.ckpt.lastItemId > 0 || !(s.proc.Idle? || s.proc.Boot? || s.proc.HalfReset?) || s.ckpt.status == Complete
    ensures Orderly(s.files, g) && g.done == h.done && g.page == h.page
    ensures Steady(s.proc) ==> g.m <= g.n
  {
    g := h.(n := 0, m := 0);
    assert h.done + h.page[..0] == h.done;
    match s.proc
    case Idle => if s.ckpt.status != Complete { g := Resting(s, h); }
    case Boot(_) => if s.ckpt.status != Complete { g := Resting(s, h); }
    case HalfCut => g := h.(n := 0);
    case Writing(_, _, page, next, half) => g := h.(n := next + if half then 1 else 0, m := next);
    case Saving(_, _, _) =>
      assert h.page[..|h.page|] == h.page;
      g := h.(n := |h.page|, m := |h.page|);
    case _ =>
  }

  /** Where a process is at work on files that are in step. */
  predicate Steady(p: Proc) {
    !p.Idle? && !p.Boot? && !p.HalfCut? && !p.HalfReset?
  }

  lemma Resting(s: State, h: Shape) returns (g: Shape)
    requires Recoverable(s, h)
    ensures Orderly(s.files, g) && g.done == h.done && g.page == h.page
  {
    g := h;
    if !(h.m <= h.n <= h.m + 1) {
      assert |Entries(h.done + h.page[..h.n])| == |Entries(h.done)|;
    }
  }

  // ---- before the first checkpoint ----

  /** Nothing is covered yet: the files hold some of the first page. */
  ghost predicate Early(f: Files) {
    exists h: Shape :: h.done == [] && Orderly(f, h)
  }

  predicate Starts(p: Proc) {
    p.Idle? || p.Boot? || p.HalfReset?
  }

  predicate Breaks(e: Step) {
    e.BreakInItems? || e.BreakInRaw?
  }

  /** What a step that starts or ends a process does to the files. */
  lemma FilesOfStarts(w: World, size: nat, s: State, e: Step, t: State)
    requires Takes(w, size, s, e, t) && Starts(t.proc)
    ensures e.ResetItems? ==> s.proc.Boot? && t.files == s.files.(items := Absent)
    ensures Breaks(e) ==> AtRow(s, e.BreakInRaw?) && t.files == Broken(s, e)
    ensures !e.ResetItems? && !Breaks(e) ==> t.files == s.files
  {
  }

  function Broken(s: State, e: Step): Files
    requires Breaks(e) && AtRow(s, e.BreakInRaw?)
  {
    var row := s.proc.page[s.proc.next];
    if e.BreakInItems? then s.files.(items := CutShort(s.files.items, row, e.torn))
    else s.files.(raw := CutShort(s.files.raw, row, e.torn))
  }

  /** A write that breaks off leaves the lines as they were. */
  lemma BrokenIsOrderly(w: World, size: nat, s: State, e: Step, h: Shape) returns (g: Shape)
    requires InvWith(w, size, s, h) && Breaks(e) && AtRow(s, e.BreakInRaw?)
    ensures Orderly(Broken(s, e), g) && g.done == h.done && g.page == h.page && g.m <= g.n
  {
    var page, next := s.proc.page, s.proc.next;
    var written := if e.BreakInItems? then next else next + 1;
    CutIsPartly(h.done, page, next, e.torn);
    WholeIsPartly(h.done, page, written);
    g := h.(n := written, m := next);
  }

  lemma EarlyAfter(w: World, size: nat, s: State, e: Step, t: State)
    requires Inv(w, size, s) && Takes(w, size, s, e, t) && Starts(t.proc)
    requires s.ckpt.lastItemId == 0 && Early(s.files)
    ensures Early(t.files)
  {
    FilesOfStarts(w, size, s, e, t);
    if e.ResetItems? {
      var g: Shape :| g.done == [] && Orderly(s.files, g);
      assert Orderly(t.files, g.(n := 0));
    } else if Breaks(e) {
      var h :| InvWith(w, size, s, h);
      NothingBeforeTheFirst(h.done);
      var g := BrokenIsOrderly(w, size, s, e, h);
    }
  }

  /** A step never takes a checkpoint back to nothing. */
  lemma CheckpointStays(w: World, size: nat, s: State, e: Step, t: State)
    requires Inv(w, size, s) && Takes(w, size, s, e, t) && t.ckpt.lastItemId == 0
    ensures s.ckpt.lastItemId == 0
  {
    var h :| InvWith(w, size, s, h);
    if s.proc.Saving? {
      assert h.page[|h.page| - 1].key.value > s.ckpt.lastItemId;
    }
  }

  /** The run began with no files, or it is behind its first checkpoint. */
  predicate Known(trace: seq<State>, i: nat)
    requires i < |trace|
  {
    trace[0].files == Files(Absent, Absent) || trace[i].ckpt.lastItemId > 0
  }

  lemma {:induction false} EarlyInRun(w: World, size: nat, trace: seq<State>, i: nat)
    requires FromScratch(w, size, trace) && i < |trace|
    requires trace[0].files == Files(Absent, Absent) && trace[i].ckpt.lastItemId == 0
    ensures Early(trace[i].files)
  {
    ReachableInv(w, size, trace, i);
    if i == 0 {
      assert Orderly(trace[0].files, Shape([], [], 0, 0));
    } else if Starts(trace[i].proc) {
      var e :| Takes(w, size, trace[i - 1], e, trace[i]);
      ReachableInv(w, size, trace, i - 1);
      CheckpointStays(w, size, trace[i - 1], e, trace[i]);
      EarlyInRun(w, size, trace, i - 1);
      EarlyAfter(w, size, trace[i - 1], e, trace[i]);
    } else {
      var h :| InvWith(w, size, trace[i], h);
      NothingBeforeTheFirst(h.done);
      var g := OrderlyIfInv(w, size, trace[i], h);
    }
  }

  lemma OrderlyInRun(w: World, size: nat, trace: seq<State>, i: nat) returns (g: Shape)
    requires FromScratch(w, size, trace) && i < |trace| && Known(trace, i)
    ensures Orderly(trace[i].files, g)
  {
    ReachableInv(w, size, trace, i);
    if trace[i].ckpt.lastItemId == 0 {
      EarlyInRun(w, size, trace, i);
      g :| Orderly(trace[i].files, g);
    } else {
      var h :| InvWith(w, size, trace[i], h);
      assert !trace[i].proc.HalfReset?;
      g := OrderlyIfInv(w, size, trace[i], h);
    }
  }

  // ---- where the files are not in step ----

  predicate Halfway(p: Proc) {
    p.HalfCut? || p.HalfReset?
  }

  /** A process stopped between its two truncations, or its two removals, or is there now, and
      nothing but starts of processes has happened since. */
  ghost predicate Between(trace: seq<State>, i: nat)
    requires i < |trace|
  {
    || Halfway(trace[i].proc)
    || ((trace[i].proc.Idle? || trace[i].proc.Boot?) && i > 0 && trace[i].files == trace[i - 1].files
        && Between(trace, i - 1))
  }

  /** A step into files that are not in step goes half way, or it changes no file and starts or
      ends a process. */
  lemma StepOutOfStep(w: World, size: nat, s: State, e: Step, t: State)
    requires Inv(w, size, s) && Inv(w, size, t) && Takes(w, size, s, e, t)
    requires !InStep(t.files) && !Halfway(t.proc)
    ensures t.files == s.files && (t.proc.Idle? || t.proc.Boot?) && !Steady(s.proc)
    ensures t.ckpt.lastItemId > 0 ==> s.ckpt.lastItemId > 0
  {
    if Steady(t.proc) {
      var h :| InvWith(w, size, t, h);
      var g := OrderlyIfInv(w, size, t, h);
      OrderlyInStep(t.files, g);
    } else {
      FilesOfStarts(w, size, s, e, t);
      var h :| InvWith(w, size, s, h);
      if Breaks(e) {
        var g := BrokenIsOrderly(w, size, s, e, h);
        OrderlyInStep(t.files, g);
      } else if Steady(s.proc) {
        var g := OrderlyIfInv(w, size, s, h);
        OrderlyInStep(t.files, g);
      }
    }
  }

  lemma {:induction false} OutOfStepBetween(w: World, size: nat, trace: seq<State>, i: nat)
    requires FromScratch(w, size, trace) && i < |trace| && Known(trace, i) && !InStep(trace[i].files)
    ensures Between(trace, i)
  {
    if i > 0 && !Halfway(trace[i].proc) {
      var e :| Takes(w, size, trace[i - 1], e, trace[i]);
      ReachableInv(w, size, trace, i - 1);
      ReachableInv(w, size, trace, i);
      StepOutOfStep(w, size, trace[i - 1], e, trace[i]);
      OutOfStepBetween(w, size, trace, i - 1);
    }
  }

  /**
   * At every step of every run that began with no files, or is behind its first checkpoint: at
   * most one of the two files ends in an unfinished line, and they are in step exactly unless a
   * process has stopped half way through cutting them back, or removing them, while the raw file
   * is the longer one.
   */
  lemma {:induction false} InStepExactly(w: World, size: nat, trace: seq<State>, i: nat)
    requires FromScratch(w, size, trace) && i < |trace| && Known(trace, i)
    ensures var f := trace[i].files;
      && (Finished(f.items) || Finished(f.raw))
      && (InStep(f) <==> !(Between(trace, i) && |Lines(f.raw)| > |Lines(f.items)|))
      && (InStep(f) <==> |Lines(f.raw)| <= |Lines(f.items)|)
  {
    var g := OrderlyInRun(w, size, trace, i);
    OrderlyInStep(trace[i].files, g);
    if !InStep(trace[i].files) {
      OutOfStepBetween(w, size, trace, i);
    }
  }

  predicate InsideLoop(p: Proc) {
    p.Fetching? || p.Writing? || p.Saving? || p.Finishing?
  }

  /** At every step of the paging loop both files hold finished lines only, in step. */
  lemma InStepWhilePaging(w: World, size: nat, trace: seq<State>, i: nat)
    requires FromScratch(w, size, trace) && i < |trace| && InsideLoop(trace[i].proc)
    ensures InStep(trace[i].files) && trace[i].files.items.File? && trace[i].files.raw.File?
    ensures Finished(trace[i].files.items) && Finished(trace[i].files.raw)
  {
    ReachableInv(w, size, trace, i);
    var h :| InvWith(w, size, trace[i], h);
    var g := OrderlyIfInv(w, size, trace[i], h);
    OrderlyInStep(trace[i].files, g);
  }

  // ---- what a resume makes of them ----

  /** These rows are what the checkpoint of `s` counts, and what cutting both files back leaves. */
  ghost predicate Recovers(w: World, s: State, rows: seq<Row>) {
    && Recovered(s) == Files(Whole(rows), Whole(rows))
    && |rows| == s.ckpt.itemsWritten && UpToId(rows, s.ckpt.lastItemId)
    && Covered(w, rows, s.ckpt.lastItemId)
  }

  ghost predicate IsRecoverable(w: World, s: State) {
    exists rows :: Recovers(w, s, rows)
  }

  /**
   * Behind a checkpoint, at every step of every run: cutting both files back to the checkpoint
   * brings them to the same rows, as many as it counts, none of them beyond it. (Before the first
   * checkpoint a resume starts over.)
   */
  lemma AlwaysRecoverable(w: World, size: nat, trace: seq<State>, i: nat)
    requires FromScratch(w, size, trace) && i < |trace| && trace[i].ckpt.lastItemId > 0
    ensures IsRecoverable(w, trace[i])
  {
    ReachableInv(w, size, trace, i);
    var h :| InvWith(w, size, trace[i], h);
    assert h.done != [];
    var g := OrderlyIfInv(w, size, trace[i], h);
    CutRecovers(trace[i].files.items, g, g.n, trace[i].ckpt.lastItemId);
    CutRecovers(trace[i].files.raw, g, g.m, trace[i].ckpt.lastItemId);
    assert Recovers(w, trace[i], h.done);
  }
}
