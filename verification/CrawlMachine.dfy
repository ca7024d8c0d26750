/**
 * `Crawler.crawl_list` (src/spconnect/crawl.py:366-521) as a machine whose steps are the
 * single effects on the disk, so that the process can die between any two of them.
 */
module CrawlMachine {
  import opened Options
  import opened Landing
  import opened CrawlState
  import opened Paging

  // ---- the environment ----

  /** What is assumed of the server: nothing; that it holds this list for good; or that
      it may change at will, as long as these ids are there whenever it is asked. */
  datatype World = Anything | Fixed(rows: seq<Row>) | Changing(present: set<int>)

  ghost predicate Offers(list: seq<Row>, present: set<int>) {
    ValidList(list) && forall id :: id in present ==> HasId(list, id)
  }

  ghost predicate CanAnswer(w: World, size: nat, last: int, page: seq<Row>) {
    match w
    case Anything => true
    case Fixed(rows) => page == PageOf(rows, last, size)
    case Changing(present) => exists list :: Offers(list, present) && page == PageOf(list, last, size)
  }

  // ---- states and steps ----

  /** Where the process stands; `Idle` when there is none. */
  datatype Proc =
    | Idle
    | Boot(resume: bool)
    | HalfCut
    | HalfReset
    | Prepared(last: int, written: int)
    | Opening(last: int, written: int)
    | HalfOpen(last: int, written: int)
    | Fetching(last: int, written: int)
    | Writing(last: int, written: int, page: seq<Row>, next: nat, half: bool)
    | Saving(last: int, written: int, short: bool)
    | Finishing(last: int, written: int)

  /** `files` and `ckpt` survive the process; `proc` does not. */
  datatype State = State(files: Files, ckpt: ListState, proc: Proc)

  datatype Step =
    | Start(resume: bool) | Skip
    | CutItems | CutRaw | ResetItems | ResetRaw | SaveStart | OpenItems | OpenRaw
    | Fetch(answer: seq<Row>) | PassRow | WriteItems | WriteRaw | EndPage | SavePage | SaveDone
    | Fail | Kill | BreakInItems(torn: bool, handled: bool) | BreakInRaw(torn: bool, handled: bool)

  /** The in-memory entry: what a save at this point would make durable. */
  function Volatile(s: State): ListState {
    match s.proc
    case Prepared(last, written) => s.ckpt.(lastItemId := last, itemsWritten := written, status := InProgress)
    case Saving(last, written, _) => s.ckpt.(lastItemId := last, itemsWritten := written, status := InProgress)
    case Finishing(last, written) => s.ckpt.(lastItemId := last, itemsWritten := written, status := Complete)
    case _ => s.ckpt
  }

  /** No earlier checkpoint: the condition under which a start without `--resume` is safe. */
  predicate NoCheckpoint(c: ListState) {
    c.lastItemId == 0 && c.status != Complete
  }

  predicate Resumes(resume: bool, c: ListState) {
    resume && c.lastItemId != 0
  }

  ghost predicate Takes(w: World, size: nat, s: State, e: Step, t: State) {
    match e
    case Start(resume) => s.proc.Idle? && t == s.(proc := Boot(resume))
    case Skip => s.proc == Boot(true) && s.ckpt.status == Complete && t == s.(proc := Idle)
    case CutItems =>
      && s.proc.Boot? && !(s.proc.resume && s.ckpt.status == Complete) && Resumes(s.proc.resume, s.ckpt)
      && t == s.(files := s.files.(items := Rewritten(s.files.items, UpTo(s.ckpt.lastItemId))), proc := HalfCut)
    case CutRaw =>
      && s.proc.HalfCut?
      && t == s.(files := s.files.(raw := Rewritten(s.files.raw, UpTo(s.ckpt.lastItemId))),
                 proc := Prepared(s.ckpt.lastItemId, s.ckpt.itemsWritten))
    case ResetItems =>
      && s.proc.Boot? && !(s.proc.resume && s.ckpt.status == Complete) && !Resumes(s.proc.resume, s.ckpt)
      && t == s.(files := s.files.(items := Absent), proc := HalfReset)
    case ResetRaw =>
      s.proc.HalfReset? && t == s.(files := s.files.(raw := Absent), proc := Prepared(0, 0))
    case SaveStart =>
      s.proc.Prepared? && t == s.(ckpt := Volatile(s), proc := Opening(s.proc.last, s.proc.written))
    case OpenItems =>
      && s.proc.Opening?
      && t == s.(files := s.files.(items := Opened(s.files.items)), proc := HalfOpen(s.proc.last, s.proc.written))
    case OpenRaw =>
      && s.proc.HalfOpen?
      && t == s.(files := s.files.(raw := Opened(s.files.raw)), proc := Fetching(s.proc.last, s.proc.written))
    case Fetch(page) =>
      && s.proc.Fetching? && CanAnswer(w, size, s.proc.last, page)
      && (page == [] || (MaxId(page).Some? && MaxId(page).value > s.proc.last))
      && t == s.(proc := if page == [] then Finishing(s.proc.last, s.proc.written)
                         else Writing(s.proc.last, s.proc.written, page, 0, false))
    case PassRow =>
      && AtRow(s, false) && s.proc.page[s.proc.next].key.None?
      && t == s.(proc := s.proc.(next := s.proc.next + 1))
    case WriteItems =>
      && AtRow(s, false) && s.proc.page[s.proc.next].key.Some?
      && t == s.(files := s.files.(items := Appended(s.files.items, s.proc.page[s.proc.next])),
                 proc := s.proc.(half := true))
    case WriteRaw =>
      && AtRow(s, true)
      && t == s.(files := s.files.(raw := Appended(s.files.raw, s.proc.page[s.proc.next])),
                 proc := s.proc.(half := false, next := s.proc.next + 1))
    case EndPage =>
      && s.proc.Writing? && s.proc.next == |s.proc.page| && MaxId(s.proc.page).Some?
      && t == s.(proc := Saving(MaxId(s.proc.page).value, s.proc.written + Keyed(s.proc.page),
                                |s.proc.page| < size))
    case SavePage =>
      && s.proc.Saving?
      && t == s.(ckpt := Volatile(s), proc := if s.proc.short then Finishing(s.proc.last, s.proc.written)
                                              else Fetching(s.proc.last, s.proc.written))
    case SaveDone => s.proc.Finishing? && t == s.(ckpt := Volatile(s), proc := Idle)
    case Fail => !s.proc.Idle? && t == s.(ckpt := Volatile(s).(status := Failed), proc := Idle)
    case Kill => !s.proc.Idle? && t == s.(proc := Idle)
    case BreakInItems(torn, handled) =>
      && AtRow(s, false) && s.proc.page[s.proc.next].key.Some?
      && t == State(s.files.(items := CutShort(s.files.items, s.proc.page[s.proc.next], torn)), Left(s, handled), Idle)
    case BreakInRaw(torn, handled) =>
      && AtRow(s, true)
      && t == State(s.files.(raw := CutShort(s.files.raw, s.proc.page[s.proc.next], torn)), Left(s, handled), Idle)
  }

  /** A write that broke off: the process died, or an error reached the handler, which saves
      status `failed`. */
  function Left(s: State, handled: bool): ListState {
    if handled then Volatile(s).(status := Failed) else s.ckpt
  }

  predicate AtRow(s: State, half: bool) {
    s.proc.Writing? && s.proc.next < |s.proc.page| && s.proc.half == half
  }

  ghost predicate Next(w: World, size: nat, s: State, t: State) {
    exists e :: Takes(w, size, s, e, t)
  }

  ghost predicate IsRun(w: World, size: nat, trace: seq<State>) {
    trace != [] && forall i :: 0 <= i < |trace| - 1 ==> Next(w, size, trace[i], trace[i + 1])
  }

  /** Nobody starts over without `--resume` once there is a checkpoint to lose. */
  ghost predicate Careful(trace: seq<State>) {
    forall i :: 0 <= i < |trace| && trace[i].proc == Boot(false) ==> NoCheckpoint(trace[i].ckpt)
  }

  // ---- coverage: what the checkpoint promises about the rows before it ----

  ghost predicate Covered(w: World, done: seq<Row>, last: int) {
    match w
    case Anything => true
    case Fixed(rows) => done == rows[..Behind(rows, last)]
    case Changing(present) => forall id :: id in present && id <= last ==> HasId(done, id)
  }

  ghost predicate Everything(w: World, done: seq<Row>) {
    match w
    case Anything => true
    case Fixed(rows) => done == rows
    case Changing(present) => forall id :: id in present ==> HasId(done, id)
  }

  ghost predicate GoodWorld(w: World) {
    match w
    case Anything => false
    case Fixed(rows) => ValidList(rows)
    case Changing(present) => forall id :: id in present ==> id > 0
  }

  ghost predicate UpToId(rows: seq<Row>, last: int) {
    ValidList(rows) && forall i :: 0 <= i < |rows| ==> rows[i].key.value <= last
  }

  ghost predicate Beyond(rows: seq<Row>, last: int) {
    ValidList(rows) && forall i :: 0 <= i < |rows| ==> rows[i].key.value > last
  }

  lemma JoinValid(done: seq<Row>, page: seq<Row>, last: int)
    requires UpToId(done, last) && Beyond(page, last)
    ensures ValidList(done + page)
    ensures page != [] ==> UpToId(done + page, page[|page| - 1].key.value)
  {
    var all, d, n := done + page, |done|, |page| - 1;
    forall i, j | 0 <= i < j < |all| ensures Ascends(all, i, j) {
      if j < d {
        assert Ascends(done, i, j);
      } else if d <= i {
        assert Ascends(page, i - d, j - d);
      }
    }
    forall i | 0 <= i < |all| && page != [] ensures all[i].key.value <= page[n].key.value {
      if i < d + n {
        assert Ascends(all, i, d + n);
      }
    }
  }

  lemma HasIdGrows(a: seq<Row>, b: seq<Row>, id: int)
    ensures HasId(a, id) ==> HasId(a + b, id)
    ensures HasId(b, id) ==> HasId(a + b, id)
  {
    if HasId(a, id) {
      var i :| 0 <= i < |a| && a[i].key == Some(id);
      assert (a + b)[i].key == Some(id);
    }
    if HasId(b, id) {
      var i :| 0 <= i < |b| && b[i].key == Some(id);
      assert (a + b)[|a| + i].key == Some(id);
    }
  }

  /** A page is a stretch of the list, it ends at the first id beyond its greatest, and a
      short one reaches the end. */
  lemma {:induction false} PageIsStretch(rows: seq<Row>, size: nat, last: int, page: seq<Row>)
    requires ValidList(rows) && size > 0 && page == PageOf(rows, last, size)
    ensures Beyond(page, last)
    ensures var from := Behind(rows, last);
      && from + |page| <= |rows| && page == rows[from..from + |page|]
      && (|page| < size ==> from + |page| == |rows|)
  {
    var from := Behind(rows, last);
    SliceValid(rows, from, from + |page|);
    forall i | 0 <= i < |page| ensures page[i].key.value > last {
      BehindSplits(rows, last);
    }
  }

  lemma {:induction false} PageEnds(rows: seq<Row>, from: nat, to: nat)
    requires ValidList(rows) && from < to <= |rows|
    ensures Behind(rows, rows[to - 1].key.value) == to
  {
    forall i | 0 <= i < |rows| ensures i < to <==> rows[i].key.value <= rows[to - 1].key.value {
      if i < to - 1 {
        assert Ascends(rows, i, to - 1);
      } else if i >= to {
        assert Ascends(rows, to - 1, i);
      }
    }
    BehindUnique(rows, rows[to - 1].key.value, to);
  }

  /** Everything a list holds between the request point and a page's end is on the page. */
  lemma OnThePage(list: seq<Row>, size: nat, last: int, page: seq<Row>, id: int)
    requires ValidList(list) && size > 0 && page == PageOf(list, last, size)
    requires HasId(list, id) && id > last
    requires |page| < size || (page != [] && id <= page[|page| - 1].key.value)
    ensures HasId(page, id)
  {
    PageIsStretch(list, size, last, page);
    BehindSplits(list, last);
    var from := Behind(list, last);
    var i :| 0 <= i < |list| && list[i].key == Some(id);
    if from + |page| < |list| {
      PageEnds(list, from, from + |page|);
      BehindSplits(list, page[|page| - 1].key.value);
    }
    assert page[i - from].key == Some(id);
  }

  lemma {:induction false} PageCoversFixed(rows: seq<Row>, size: nat, done: seq<Row>, last: int, page: seq<Row>)
    requires ValidList(rows) && size > 0 && done == rows[..Behind(rows, last)] && page == PageOf(rows, last, size)
    ensures Beyond(page, last)
    ensures page != [] ==> done + page == rows[..Behind(rows, page[|page| - 1].key.value)]
    ensures |page| < size ==> done + page == rows
  {
    var from := Behind(rows, last);
    PageIsStretch(rows, size, last, page);
    assert rows[..from] + page == rows[..from + |page|];
    if page != [] {
      PageEnds(rows, from, from + |page|);
    }
  }

  lemma PageCoversChanging(present: set<int>, list: seq<Row>, size: nat, done: seq<Row>, last: int, page: seq<Row>)
    requires Offers(list, present) && size > 0 && page == PageOf(list, last, size)
    requires Covered(Changing(present), done, last)
    ensures Beyond(page, last)
    ensures page != [] ==> Covered(Changing(present), done + page, page[|page| - 1].key.value)
    ensures |page| < size ==> Everything(Changing(present), done + page)
  {
    PageIsStretch(list, size, last, page);
    forall id | id in present && (|page| < size || (page != [] && id <= page[|page| - 1].key.value))
      ensures HasId(done + page, id)
    {
      HasIdGrows(done, page, id);
      if id > last {
        OnThePage(list, size, last, page, id);
      }
    }
  }

  /** One page carries coverage from its request point to its greatest id, and a short
      page carries it to the end of the list. */
  lemma PageCovers(w: World, size: nat, done: seq<Row>, last: int, page: seq<Row>)
    requires GoodWorld(w) && size > 0
    requires UpToId(done, last) && Covered(w, done, last) && CanAnswer(w, size, last, page)
    ensures Beyond(page, last)
    ensures page != [] ==> Covered(w, done + page, page[|page| - 1].key.value)
    ensures |page| < size ==> Everything(w, done + page)
  {
    match w
    case Fixed(rows) => PageCoversFixed(rows, size, done, last, page);
    case Changing(present) =>
      var list: seq<Row> :| Offers(list, present) && page == PageOf(list, last, size);
      PageCoversChanging(present, list, size, done, last, page);
  }

  // ---- runs ----

  /** The run went through a state with this on disk. */
  ghost predicate Passed(trace: seq<State>, files: Files, ckpt: ListState) {
    exists i :: 0 <= i < |trace| && trace[i].files == files && trace[i].ckpt == ckpt
  }

  lemma PassedPrefix(trace: seq<State>, longer: seq<State>)
    requires trace <= longer
    ensures forall f, c :: Passed(trace, f, c) ==> Passed(longer, f, c)
  {
    forall f, c | Passed(trace, f, c) ensures Passed(longer, f, c) {
      var i :| 0 <= i < |trace| && trace[i].files == f && trace[i].ckpt == c;
      assert longer[i] == trace[i];
    }
  }

  lemma RunGrows(w: World, size: nat, trace: seq<State>, e: Step, t: State)
    requires IsRun(w, size, trace) && Takes(w, size, trace[|trace| - 1], e, t)
    ensures IsRun(w, size, trace + [t])
    ensures forall f, c :: Passed(trace, f, c) ==> Passed(trace + [t], f, c)
    ensures Passed(trace + [t], t.files, t.ckpt)
  {
    assert Next(w, size, trace[|trace| - 1], t);
    PassedPrefix(trace, trace + [t]);
    assert (trace + [t])[|trace|] == t;
  }

  /** No second process starts inside the trace. */
  ghost predicate OneProcess(trace: seq<State>) {
    forall i :: 0 < i < |trace| ==> !trace[i].proc.Boot?
  }

  /** `longer` continues `trace` by writing the first `next` rows of the page its last state
      has just received, through every effect such a page has on disk. */
  ghost predicate WritesOn(w: World, size: nat, trace: seq<State>, next: nat, longer: seq<State>) {
    && IsRun(w, size, trace) && trace[|trace| - 1].proc.Writing?
    && IsRun(w, size, longer) && trace <= longer && (OneProcess(trace) ==> OneProcess(longer))
    && var s := trace[|trace| - 1];
       && next <= |s.proc.page|
       && longer[|longer| - 1] ==
            s.(files := AfterRows(s.files, s.proc.page[..next]), proc := s.proc.(next := next, half := false))
       && forall f :: f in PageEffects(s.files, s.proc.page[..next]) ==> Passed(longer, f, s.ckpt)
  }

  lemma {:induction false} PageIsRun(w: World, size: nat, trace: seq<State>, next: nat) returns (longer: seq<State>)
    requires IsRun(w, size, trace)
    requires var p := trace[|trace| - 1].proc; p.Writing? && p.next == 0 && !p.half && next <= |p.page|
    ensures WritesOn(w, size, trace, next, longer)
  {
    var s := trace[|trace| - 1];
    if next == 0 {
      longer := trace;
    } else {
      var n, row := next - 1, s.proc.page[next - 1];
      var mid := PageIsRun(w, size, trace, n);
      AfterOneMore(s.files, s.proc.page, n);
      longer := OneRow(w, size, mid);
    }
  }

  lemma OneRow(w: World, size: nat, trace: seq<State>) returns (longer: seq<State>)
    requires IsRun(w, size, trace) && AtRow(trace[|trace| - 1], false)
    ensures IsRun(w, size, longer) && trace <= longer && (OneProcess(trace) ==> OneProcess(longer))
    ensures var s := trace[|trace| - 1]; var row := s.proc.page[s.proc.next];
      var half := s.files.(items := Appended(s.files.items, row));
      var both := half.(raw := Appended(s.files.raw, row));
      && longer[|longer| - 1] == s.(files := if row.key.Some? then both else s.files,
                                    proc := s.proc.(next := s.proc.next + 1))
      && (forall f, c :: Passed(trace, f, c) ==> Passed(longer, f, c))
      && (row.key.Some? ==> Passed(longer, half, s.ckpt) && Passed(longer, both, s.ckpt))
  {
    var s := trace[|trace| - 1];
    var row := s.proc.page[s.proc.next];
    if row.key.None? {
      var t := s.(proc := s.proc.(next := s.proc.next + 1));
      RunGrows(w, size, trace, PassRow, t);
      longer := trace + [t];
    } else {
      var a := s.(files := s.files.(items := Appended(s.files.items, row)), proc := s.proc.(half := true));
      var b := a.(files := a.files.(raw := Appended(a.files.raw, row)),
                  proc := a.proc.(half := false, next := s.proc.next + 1));
      RunGrows(w, size, trace, WriteItems, a);
      RunGrows(w, size, trace + [a], WriteRaw, b);
      longer := trace + [a] + [b];
    }
  }
}
