/** Main results about the crawl: whole runs, over any number of processes. */
module CrawlTheorems {
  import opened Landing
  import opened CrawlState
  import opened Paging
  import opened CrawlMachine
  import opened CrawlSafety

  lemma FreshListIsSafe(w: World, size: nat, s: State)
    requires GoodWorld(w) && (s.proc.Idle? || s.proc.Boot?) && NoCheckpoint(s.ckpt)
    ensures Inv(w, size, s)
  {
    if w.Fixed? {
      BehindUnique(w.rows, 0, 0);
    }
    assert InvWith(w, size, s, Shape([], [], 0, 0));
  }

  lemma {:induction false} RunKeepsInv(w: World, size: nat, trace: seq<State>, i: nat)
    requires GoodWorld(w) && size > 0 && IsRun(w, size, trace) && Careful(trace)
    requires Inv(w, size, trace[0]) && i < |trace|
    ensures Inv(w, size, trace[i])
  {
    if i > 0 {
      RunKeepsInv(w, size, trace, i - 1);
      StepKeepsInv(w, size, trace[i - 1], trace[i]);
    }
  }

  lemma {:induction false} TokenUntouched(w: World, size: nat, trace: seq<State>, i: nat)
    requires IsRun(w, size, trace) && i < |trace|
    ensures trace[i].ckpt.changeToken == trace[0].ckpt.changeToken
  {
    if i > 0 {
      TokenUntouched(w, size, trace, i - 1);
      assert Next(w, size, trace[i - 1], trace[i]);
    }
  }

  /** A run that starts from a list without a checkpoint, with whatever old files. */
  ghost predicate FromScratch(w: World, size: nat, trace: seq<State>) {
    && GoodWorld(w) && size > 0 && IsRun(w, size, trace) && Careful(trace)
    && (trace[0].proc.Idle? || trace[0].proc.Boot?) && NoCheckpoint(trace[0].ckpt)
  }

  lemma ReachableInv(w: World, size: nat, trace: seq<State>, i: nat)
    requires FromScratch(w, size, trace) && i < |trace|
    ensures Inv(w, size, trace[i])
  {
    FreshListIsSafe(w, size, trace[0]);
    RunKeepsInv(w, size, trace, i);
  }

  /**
   * Refinement: however often the process dies or fails on the way, and wherever, a crawl
   * of an unchanging list that is resumed until it completes leaves the same files and
   * the same checkpoint: every row once, in order, in both files.
   */
  lemma KilledCrawlEqualsUninterrupted(rows: seq<Row>, size: nat, trace: seq<State>)
    requires FromScratch(Fixed(rows), size, trace)
    requires trace[|trace| - 1].ckpt.status == Complete
    ensures trace[|trace| - 1].files == Files(Whole(rows), Whole(rows))
    ensures trace[|trace| - 1].ckpt ==
            ListState(LastId(rows), |rows|, trace[0].ckpt.changeToken, Complete)
  {
    var w, end := Fixed(rows), |trace| - 1;
    ReachableInv(w, size, trace, end);
    TokenUntouched(w, size, trace, end);
  }

  /** Both files hold these rows: ascending, no id twice, every lasting id once. */
  ghost predicate HoldsLasting(present: set<int>, s: State, rows: seq<Row>) {
    && s.files == Files(Whole(rows), Whole(rows)) && s.ckpt.itemsWritten == |rows|
    && ValidList(rows) && (forall id :: CountId(rows, id) <= 1)
    && (forall id :: id in present ==> CountId(rows, id) == 1)
  }

  ghost predicate LastingWritten(present: set<int>, s: State) {
    exists rows :: HoldsLasting(present, s, rows)
  }

  /**
   * The server may change between any two requests. An id that is there at every request
   * ends up in both files exactly once, and both files are in ascending id order.
   */
  lemma LastingItemsWrittenOnce(present: set<int>, size: nat, trace: seq<State>)
    requires FromScratch(Changing(present), size, trace)
    requires trace[|trace| - 1].ckpt.status == Complete
    ensures LastingWritten(present, trace[|trace| - 1])
  {
    var w, end := Changing(present), |trace| - 1;
    ReachableInv(w, size, trace, end);
    var h :| InvWith(w, size, trace[end], h);
    forall id ensures CountId(h.done, id) == if HasId(h.done, id) then 1 else 0 {
      OnceInList(h.done, id);
    }
    assert HoldsLasting(present, trace[end], h.done);
  }

  // ---- one undisturbed process ----

  /** The whole list is in both files, and counted. */
  ghost predicate HasAll(w: World, s: State) {
    exists done :: HoldsAll(w, s, done)
  }

  ghost predicate HoldsAll(w: World, s: State, done: seq<Row>) {
    && s.files == Files(Whole(done), Whole(done)) && Everything(w, done)
    && ValidList(done) && s.ckpt.itemsWritten == |done|
  }

  /** A process that gets to its final save. */
  ghost predicate Undisturbed(w: World, size: nat, trace: seq<State>) {
    && IsRun(w, size, trace) && OneProcess(trace) && |trace| > 1
    && trace[|trace| - 2].proc.Finishing? && IsComplete(trace[|trace| - 1])
  }

  predicate IsComplete(s: State) {
    s.proc.Idle? && s.ckpt.status == Complete
  }

  /** What a start without `--resume` makes of anything: nothing of the old files and of the old
      checkpoint is left when paging begins. */
  ghost predicate StartsOver(w: World, size: nat, s: State) {
    match s.proc
    case Boot(resume) => !resume
    case HalfReset => s.files.items.Absent?
    case HalfCut => false
    case Prepared(last, written) => last == 0 && written == 0 && s.files == Files(Absent, Absent)
    case _ => Inv(w, size, s)
  }

  lemma FirstSaved(w: World, size: nat, s: State, t: State)
    requires GoodWorld(w) && s.proc == Prepared(0, 0) && s.files == Files(Absent, Absent)
    requires Next(w, size, s, t) && !t.proc.Idle?
    ensures Inv(w, size, t) && t.proc.Opening?
  {
    if w.Fixed? {
      BehindUnique(w.rows, 0, 0);
    }
    assert InvWith(w, size, t, Shape([], [], 0, 0));
  }

  /** Which steps lead where. */
  lemma NoWayBack(w: World, size: nat, s: State, t: State)
    requires Next(w, size, s, t)
    ensures t.proc.HalfReset? ==> s.proc.Boot?
    ensures t.proc.HalfCut? ==> s.proc.Boot? && s.proc.resume
    ensures t.proc.Prepared? ==> s.proc.HalfReset? || s.proc.HalfCut?
    ensures s.proc == Boot(false) && !t.proc.Idle? ==> t.proc.HalfReset? && t.files.items.Absent?
    ensures s.proc.HalfReset? && !t.proc.Idle? ==> t.proc == Prepared(0, 0) && t.files == s.files.(raw := Absent)
  {
  }

  lemma StartsOverStep(w: World, size: nat, s: State, t: State)
    requires GoodWorld(w) && size > 0 && StartsOver(w, size, s) && Next(w, size, s, t)
    requires !s.proc.Idle? && !t.proc.Idle? && !t.proc.Boot?
    ensures StartsOver(w, size, t)
  {
    NoWayBack(w, size, s, t);
    if s.proc.Prepared? {
      FirstSaved(w, size, s, t);
    } else if !s.proc.Boot? && !s.proc.HalfReset? {
      StepKeepsInv(w, size, s, t);
    }
  }

  lemma {:induction false} StartsOverRun(w: World, size: nat, trace: seq<State>, i: nat)
    requires GoodWorld(w) && size > 0 && IsRun(w, size, trace) && OneProcess(trace)
    requires trace[0].proc == Boot(false) && i < |trace| - 1 && !trace[i].proc.Idle?
    ensures StartsOver(w, size, trace[i])
  {
    if i > 0 {
      assert Next(w, size, trace[i - 1], trace[i]);
      StartsOverRun(w, size, trace, i - 1);
      StartsOverStep(w, size, trace[i - 1], trace[i]);
    }
  }

  lemma SavedHasAll(w: World, size: nat, s: State, t: State)
    requires Inv(w, size, s) && s.proc.Finishing? && Next(w, size, s, t) && IsComplete(t)
    ensures HasAll(w, t)
  {
    var h :| InvWith(w, size, s, h);
    var e :| Takes(w, size, s, e, t);
    assert e.SaveDone? && HoldsAll(w, t, h.done);
  }

  /**
   * One process that gets to its final save has the whole list in both files and counted:
   * without `--resume` over any files and any checkpoint, with it from anything the crawl of
   * this list can have left.
   */
  lemma UndisturbedHasAll(w: World, size: nat, trace: seq<State>)
    requires GoodWorld(w) && size > 0 && Undisturbed(w, size, trace)
    requires trace[0].proc == Boot(false) || (trace[0].proc.Boot? && Inv(w, size, trace[0]))
    ensures HasAll(w, trace[|trace| - 1])
  {
    var n := |trace| - 2;
    if trace[0].proc == Boot(false) {
      StartsOverRun(w, size, trace, n);
    } else {
      RunKeepsInv(w, size, trace, n);
    }
    SavedHasAll(w, size, trace[n], trace[n + 1]);
  }

  /** A list that is skipped as complete has everything, if its state is one a crawl left. */
  lemma SkippedHasAll(w: World, size: nat, s: State)
    requires Inv(w, size, s) && s.proc.Boot? && s.ckpt.status == Complete
    ensures HasAll(w, s.(proc := Idle))
  {
    var h :| InvWith(w, size, s, h);
    assert HoldsAll(w, s.(proc := Idle), h.done);
  }
}
