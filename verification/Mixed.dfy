/**
 * A resumed crawl over whatever is on disk, and what follows when a failed sync is resumed as a
 * crawl (src/spconnect/crawl.py:366-489, 683-697, 735-789).
 */
module Mixed {
  import opened Options
  import opened Landing
  import opened CrawlState
  import opened Paging
  import opened CrawlMachine
  import opened CrawlSafety
  import opened CrawlTheorems
  import CrawlRestart
  import SyncMachine
  import SyncTheorems

  // ---- files with rows in front ----

  function On(front: seq<Row>, f: File): File
    requires f.File?
  {
    File(Entries(front) + f.lines, f.tail)
  }

  ghost predicate AllUpTo(rows: seq<Row>, last: int) {
    forall i :: 0 <= i < |rows| ==> rows[i].key.Some? && rows[i].key.value <= last
  }

  lemma OnAppended(front: seq<Row>, f: File, row: Row)
    requires f.File?
    ensures Appended(On(front, f), row) == On(front, Appended(f, row))
  {
    var line := if f.tail.Clean? then Entry(row) else Junk;
    assert Entries(front) + f.lines + [line] == Entries(front) + (f.lines + [line]);
  }

  lemma OnRewritten(front: seq<Row>, f: File, last: int)
    requires f.File? && AllUpTo(front, last)
    ensures Rewritten(On(front, f), UpTo(last)) == On(front, Rewritten(f, UpTo(last)))
  {
    assert ReadLines(On(front, f)) == Entries(front) + ReadLines(f);
    KeptConcat(Entries(front), ReadLines(f), UpTo(last));
    KeptAll(Entries(front), UpTo(last));
  }

  lemma OnWhole(front: seq<Row>, rows: seq<Row>)
    ensures On(front, Whole(rows)) == Whole(front + rows)
  {
    assert Entries(front + rows) == Entries(front) + Entries(rows);
  }

  lemma FrontIsShown(front: seq<Row>, f: File, rows: seq<Row>)
    requires f.File? && On(front, f) == Whole(front + rows)
    ensures f == Whole(rows)
  {
    assert Entries(front + rows) == Entries(front) + Entries(rows);
    assert (Entries(front) + f.lines)[|front|..] == f.lines;
    assert (Entries(front) + Entries(rows))[|front|..] == Entries(rows);
  }

  // ---- the list a resumed crawl might as well be paging ----

  /** What a server holds beyond an id. */
  ghost function Rest(rows: seq<Row>, last: int): seq<Row> {
    rows[Behind(rows, last)..]
  }

  function Marker(last: int): seq<Row> {
    [Row(Some(last), "")]
  }

  /** The same beyond an id, one row up to it. */
  ghost function Stand(rows: seq<Row>, last: int): seq<Row> {
    Marker(last) + Rest(rows, last)
  }

  lemma {:induction false} StandIsValid(rows: seq<Row>, last: int)
    requires ValidList(rows) && last > 0
    ensures ValidList(Stand(rows, last)) && Behind(Stand(rows, last), last) == 1
  {
    var n, stand := Behind(rows, last), Stand(rows, last);
    SliceValid(rows, n, |rows|);
    assert rows[n..|rows|] == rows[n..];
    BehindSplits(rows, last);
    forall i, j | 0 <= i < j < |stand| ensures Ascends(stand, i, j) {
      assert stand[j] == rows[n + j - 1];
      if i > 0 {
        assert Ascends(rows[n..], i - 1, j - 1);
      }
    }
    BehindUnique(stand, last, 1);
  }

  lemma {:induction false} StandBehind(rows: seq<Row>, last: int, l: int)
    requires ValidList(rows) && 0 < last <= l
    ensures Behind(rows, last) <= Behind(rows, l)
    ensures Behind(Stand(rows, last), l) == Behind(rows, l) - Behind(rows, last) + 1
  {
    var n, stand, m := Behind(rows, last), Stand(rows, last), Behind(rows, l);
    StandIsValid(rows, last);
    if m < n {
      BehindAt(rows, last, m);
      BehindAt(rows, l, m);
    }
    BehindSplits(rows, last);
    BehindSplits(rows, l);
    forall i | 0 <= i < |stand| ensures i < m - n + 1 <==> stand[i].key.value <= l {
      if i > 0 {
        assert stand[i] == rows[n + i - 1];
      }
    }
    BehindUnique(stand, l, m - n + 1);
  }

  lemma SamePages(rows: seq<Row>, last: int, l: int, size: nat)
    requires ValidList(rows) && 0 < last <= l
    ensures PageOf(Stand(rows, last), l, size) == PageOf(rows, l, size)
  {
    StandBehind(rows, last, l);
    SameTail(rows, Marker(last), Behind(rows, last), Behind(rows, l), size);
  }

  lemma SameTail(rows: seq<Row>, front: seq<Row>, n: nat, m: nat, size: nat)
    requires n <= m <= |rows|
    ensures var other, k := front + rows[n..], m - n + |front|;
      rows[m..if m + size <= |rows| then m + size else |rows|] ==
      other[k..if k + size <= |other| then k + size else |other|]
  {
  }

  // ---- the run it might as well be ----

  /** What stays of both files in front, and how many rows were counted. */
  datatype Frame = Frame(rows: seq<Row>, size: nat, last: int, items: seq<Row>, raw: seq<Row>, count: int)

  function Shift(p: Proc, n: int): Proc {
    match p
    case Prepared(last, written) => Prepared(last, written + n)
    case Opening(last, written) => Opening(last, written + n)
    case HalfOpen(last, written) => HalfOpen(last, written + n)
    case Fetching(last, written) => Fetching(last, written + n)
    case Writing(last, written, page, next, half) => Writing(last, written + n, page, next, half)
    case Saving(last, written, short) => Saving(last, written + n, short)
    case Finishing(last, written) => Finishing(last, written + n)
    case _ => p
  }

  function Counting(c: ListState, n: int): ListState {
    c.(itemsWritten := c.itemsWritten + n)
  }

  /** The state with one row in front of each file, and counted as one. */
  function Image(q: Frame, core: Files, s: State): State
    requires core.items.File? && core.raw.File?
  {
    State(Files(On(Marker(q.last), core.items), On(Marker(q.last), core.raw)), Counting(s.ckpt, 1 - q.count),
          Shift(s.proc, 1 - q.count))
  }

  ghost predicate Over(q: Frame, core: Files, s: State) {
    core.items.File? && core.raw.File? && s.files == Files(On(q.items, core.items), On(q.raw, core.raw))
  }

  ghost predicate IsFrame(q: Frame) {
    ValidList(q.rows) && q.size > 0 && q.last > 0 && AllUpTo(q.items, q.last) && AllUpTo(q.raw, q.last)
  }

  ghost predicate UnderwayWith(q: Frame, core: Files, s: State) {
    && Over(q, core, s) && s.ckpt.lastItemId >= q.last && s.proc != Boot(false) && !s.proc.HalfReset?
    && Inv(Fixed(Stand(q.rows, q.last)), q.size, Image(q, core, s))
  }

  ghost predicate Underway(q: Frame, s: State) {
    exists core :: UnderwayWith(q, core, s)
  }

  /** What a step does to the rows behind. */
  function CoreAfter(core: Files, s: State, e: Step): Files
    requires core.items.File? && core.raw.File?
  {
    match e
    case CutItems => core.(items := Rewritten(core.items, UpTo(s.ckpt.lastItemId)))
    case CutRaw => core.(raw := Rewritten(core.raw, UpTo(s.ckpt.lastItemId)))
    case WriteItems => if AtRow(s, false) then core.(items := Appended(core.items, s.proc.page[s.proc.next])) else core
    case WriteRaw => if AtRow(s, true) then core.(raw := Appended(core.raw, s.proc.page[s.proc.next])) else core
    case BreakInItems(torn, _) =>
      if AtRow(s, false) then core.(items := CutShort(core.items, s.proc.page[s.proc.next], torn)) else core
    case BreakInRaw(torn, _) =>
      if AtRow(s, true) then core.(raw := CutShort(core.raw, s.proc.page[s.proc.next], torn)) else core
    case _ => core
  }

  ghost predicate SameStep(q: Frame, core: Files, s: State, e: Step, t: State)
    requires core.items.File? && core.raw.File?
  {
    var core' := CoreAfter(core, s, e);
    Over(q, core', t) && Takes(Fixed(Stand(q.rows, q.last)), q.size, Image(q, core, s), e, Image(q, core', t))
  }

  lemma ImageCutsItems(q: Frame, core: Files, s: State, t: State)
    requires IsFrame(q) && Over(q, core, s) && s.ckpt.lastItemId >= q.last && s.proc != Boot(false)
    requires Takes(Fixed(q.rows), q.size, s, CutItems, t)
    ensures SameStep(q, core, s, CutItems, t)
  {
    OnRewritten(Marker(q.last), core.items, s.ckpt.lastItemId);
    OnRewritten(q.items, core.items, s.ckpt.lastItemId);
  }

  lemma ImageCutsRaw(q: Frame, core: Files, s: State, t: State)
    requires IsFrame(q) && Over(q, core, s) && s.ckpt.lastItemId >= q.last
    requires Takes(Fixed(q.rows), q.size, s, CutRaw, t)
    ensures SameStep(q, core, s, CutRaw, t)
  {
    OnRewritten(Marker(q.last), core.raw, s.ckpt.lastItemId);
    OnRewritten(q.raw, core.raw, s.ckpt.lastItemId);
    var v, v' := Image(q, core, s), Image(q, CoreAfter(core, s, CutRaw), t);
    assert v'.files.raw == Rewritten(v.files.raw, UpTo(v.ckpt.lastItemId)) && v'.files.items == v.files.items;
  }

  lemma ImageWrites(q: Frame, core: Files, s: State, e: Step, t: State)
    requires Over(q, core, s) && Takes(Fixed(q.rows), q.size, s, e, t)
    requires e.WriteItems? || e.WriteRaw? || e.BreakInItems? || e.BreakInRaw?
    ensures SameStep(q, core, s, e, t)
  {
    var m, row := Marker(q.last), s.proc.page[s.proc.next];
    if e.WriteItems? {
      OnAppended(m, core.items, row);
      OnAppended(q.items, core.items, row);
    } else if e.WriteRaw? {
      OnAppended(m, core.raw, row);
      OnAppended(q.raw, core.raw, row);
    }
  }

  predicate TouchesNoFile(e: Step) {
    match e
    case Start(_) => true
    case Skip => true
    case SaveStart => true
    case OpenItems => true
    case OpenRaw => true
    case PassRow => true
    case EndPage => true
    case SavePage => true
    case SaveDone => true
    case Fail => true
    case Kill => true
    case _ => false
  }

  lemma ImageWaits(q: Frame, core: Files, s: State, e: Step, t: State)
    requires Over(q, core, s) && Takes(Fixed(q.rows), q.size, s, e, t) && TouchesNoFile(e)
    ensures SameStep(q, core, s, e, t)
  {
  }

  /** The image takes the same step. */
  lemma ImageStep(q: Frame, core: Files, s: State, e: Step, t: State)
    requires IsFrame(q) && Over(q, core, s) && s.ckpt.lastItemId >= q.last
    requires s.proc != Boot(false) && !s.proc.HalfReset? && (s.proc.Fetching? ==> s.proc.last >= q.last)
    requires Takes(Fixed(q.rows), q.size, s, e, t)
    ensures SameStep(q, core, s, e, t)
  {
    if e.CutItems? {
      ImageCutsItems(q, core, s, t);
    } else if e.CutRaw? {
      ImageCutsRaw(q, core, s, t);
    } else if e.Fetch? {
      SamePages(q.rows, q.last, s.proc.last, q.size);
    } else if TouchesNoFile(e) {
      ImageWaits(q, core, s, e, t);
    } else {
      ImageWrites(q, core, s, e, t);
    }
  }

  // ---- every state of a resumed crawl ----

  /** The last id on disk never falls. */
  lemma LastNeverFalls(rows: seq<Row>, size: nat, s: State, t: State)
    requires GoodWorld(Fixed(rows)) && Inv(Fixed(rows), size, s) && Next(Fixed(rows), size, s, t)
    ensures t.ckpt.lastItemId >= s.ckpt.lastItemId
  {
    var h :| InvWith(Fixed(rows), size, s, h);
    CheckpointTaken(Fixed(rows), size, s, t);
  }

  lemma CheckpointTaken(w: World, size: nat, s: State, t: State)
    requires Next(w, size, s, t)
    ensures t.ckpt.lastItemId == s.ckpt.lastItemId || t.ckpt.lastItemId == Volatile(s).lastItemId
  {
  }

  lemma LoopIsAtLast(w: World, size: nat, s: State)
    requires Inv(w, size, s) && (s.proc.Prepared? || s.proc.Fetching?)
    ensures s.proc.last == s.ckpt.lastItemId
  {
    var h :| InvWith(w, size, s, h);
  }

  lemma UnderwayStep(q: Frame, s: State, t: State)
    requires IsFrame(q) && Underway(q, s) && Next(Fixed(q.rows), q.size, s, t) && t.proc != Boot(false)
    ensures Underway(q, t)
  {
    var stand := Stand(q.rows, q.last);
    var core :| UnderwayWith(q, core, s);
    var e :| Takes(Fixed(q.rows), q.size, s, e, t);
    StandIsValid(q.rows, q.last);
    if s.proc.Prepared? || s.proc.Fetching? {
      LoopIsAtLast(Fixed(stand), q.size, Image(q, core, s));
    }
    ImageStep(q, core, s, e, t);
    var core' := CoreAfter(core, s, e);
    assert Next(Fixed(stand), q.size, Image(q, core, s), Image(q, core', t));
    StepKeepsInv(Fixed(stand), q.size, Image(q, core, s), Image(q, core', t));
    LastNeverFalls(stand, q.size, Image(q, core, s), Image(q, core', t));
    assert UnderwayWith(q, core', t);
  }

  /** What truncation to the stored last id keeps of both files. */
  ghost predicate Keeps(q: Frame, files: Files) {
    && Rewritten(files.items, UpTo(q.last)) == Whole(q.items)
    && Rewritten(files.raw, UpTo(q.last)) == Whole(q.raw)
  }

  /** A resume has not got through its two truncations yet. */
  ghost predicate Waiting(q: Frame, files: Files, s: State) {
    && (s.proc == Idle || s.proc == Boot(true) || s.proc == HalfCut)
    && s.ckpt.lastItemId == q.last && s.ckpt.itemsWritten == q.count && s.ckpt.status != Complete
    && s.files.raw == files.raw && (s.files.items == files.items || s.files.items == Whole(q.items))
    && (s.proc.HalfCut? ==> s.files.items == Whole(q.items))
  }

  lemma WaitingStep(q: Frame, files: Files, s: State, t: State)
    requires IsFrame(q) && Keeps(q, files) && Waiting(q, files, s)
    requires Next(Fixed(q.rows), q.size, s, t) && t.proc != Boot(false)
    ensures Waiting(q, files, t) || Underway(q, t)
  {
    match s.proc
    case Idle =>
    case Boot(_) => BootStep(q, files, s, t);
    case HalfCut => HalfCutStep(q, files, s, t);
  }

  lemma BootStep(q: Frame, files: Files, s: State, t: State)
    requires Keeps(q, files) && Waiting(q, files, s) && s.proc == Boot(true)
    requires Next(Fixed(q.rows), q.size, s, t) && q.last > 0
    ensures Waiting(q, files, t)
  {
    RewriteIdempotent(files.items, UpTo(q.last));
  }

  lemma HalfCutStep(q: Frame, files: Files, s: State, t: State)
    requires IsFrame(q) && Keeps(q, files) && Waiting(q, files, s) && s.proc.HalfCut?
    requires Next(Fixed(q.rows), q.size, s, t)
    ensures Waiting(q, files, t) || Underway(q, t)
  {
    FromHalfCut(Fixed(q.rows), q.size, s, t);
    if t.proc.Prepared? {
      BothCut(q, t);
    }
  }

  lemma FromHalfCut(w: World, size: nat, s: State, t: State)
    requires Next(w, size, s, t) && s.proc.HalfCut?
    ensures if t.proc.Prepared?
      then t == s.(files := s.files.(raw := Rewritten(s.files.raw, UpTo(s.ckpt.lastItemId))),
                   proc := Prepared(s.ckpt.lastItemId, s.ckpt.itemsWritten))
      else t == s.(proc := Idle) || t == s.(ckpt := s.ckpt.(status := Failed), proc := Idle)
  {
  }

  lemma BothCut(q: Frame, t: State)
    requires IsFrame(q) && t.files == Files(Whole(q.items), Whole(q.raw)) && t.proc == Prepared(q.last, q.count)
    requires t.ckpt.lastItemId == q.last && t.ckpt.itemsWritten == q.count && t.ckpt.status != Complete
    ensures Underway(q, t)
  {
    var none, m := Files(Whole([]), Whole([])), Marker(q.last);
    OnWhole(q.items, []);
    OnWhole(q.raw, []);
    OnWhole(m, []);
    assert q.items + [] == q.items && q.raw + [] == q.raw && m + [] == m;
    StandIsValid(q.rows, q.last);
    assert Stand(q.rows, q.last)[..1] == m;
    assert InvWith(Fixed(Stand(q.rows, q.last)), q.size, Image(q, none, t), Shape(m, [], 0, 0));
    assert UnderwayWith(q, none, t);
  }

  lemma {:induction false} ResumedRun(q: Frame, trace: seq<State>, i: nat)
    requires IsFrame(q) && IsRun(Fixed(q.rows), q.size, trace) && CrawlRestart.OnlyResumes(trace) && i < |trace|
    requires Keeps(q, trace[0].files) && Waiting(q, trace[0].files, trace[0])
    ensures Waiting(q, trace[0].files, trace[i]) || Underway(q, trace[i])
  {
    if i > 0 {
      ResumedRun(q, trace, i - 1);
      assert Next(Fixed(q.rows), q.size, trace[i - 1], trace[i]);
      if Waiting(q, trace[0].files, trace[i - 1]) {
        WaitingStep(q, trace[0].files, trace[i - 1], trace[i]);
      } else {
        UnderwayStep(q, trace[i - 1], trace[i]);
      }
    }
  }

  lemma KeptAreUpTo(rows: seq<Row>, f: File, last: int)
    requires Rewritten(f, UpTo(last)) == Whole(rows)
    ensures AllUpTo(rows, last)
  {
    RewriteIdempotent(f, UpTo(last));
    SyncMachine.NoneDroppedKeepsLines(Entries(rows), UpTo(last));
    forall i | 0 <= i < |rows| ensures rows[i].key.Some? && rows[i].key.value <= last {
      assert Landing.Keeps(UpTo(last), Entries(rows)[i]);
    }
  }

  /** Runs of the crawl that only ever resume, from a checkpoint that is not complete. */
  ghost predicate ResumedFrom(rows: seq<Row>, size: nat, trace: seq<State>) {
    && ValidList(rows) && size > 0 && IsRun(Fixed(rows), size, trace) && CrawlRestart.OnlyResumes(trace)
    && trace[0].proc.Idle? && trace[0].ckpt.lastItemId > 0 && trace[0].ckpt.status != Complete
  }

  /**
   * Whatever both files hold, and however often the resumed crawl dies on its way: when it completes,
   * each of them is what its truncation kept, followed by everything the server holds beyond the
   * stored last id.
   */
  lemma ResumeKeepsAndAdds(size: nat, trace: seq<State>, rows: seq<Row>, items: seq<Row>, raw: seq<Row>)
    requires ResumedFrom(rows, size, trace) && CrawlTheorems.IsComplete(trace[|trace| - 1])
    requires Rewritten(trace[0].files.items, UpTo(trace[0].ckpt.lastItemId)) == Whole(items)
    requires Rewritten(trace[0].files.raw, UpTo(trace[0].ckpt.lastItemId)) == Whole(raw)
    ensures var more, end := Rest(rows, trace[0].ckpt.lastItemId), trace[|trace| - 1];
      && end.files == Files(Whole(items + more), Whole(raw + more))
      && end.ckpt.itemsWritten == trace[0].ckpt.itemsWritten + |more|
      && end.ckpt.changeToken == trace[0].ckpt.changeToken
  {
    var c, end := trace[0].ckpt, trace[|trace| - 1];
    var q := Frame(rows, size, c.lastItemId, items, raw, c.itemsWritten);
    KeptAreUpTo(items, trace[0].files.items, c.lastItemId);
    KeptAreUpTo(raw, trace[0].files.raw, c.lastItemId);
    ResumedRun(q, trace, |trace| - 1);
    TokenUntouched(Fixed(rows), size, trace, |trace| - 1);
    CompleteHasRest(q, end);
  }

  lemma CompleteHasRest(q: Frame, s: State)
    requires IsFrame(q) && Underway(q, s) && CrawlTheorems.IsComplete(s)
    ensures var more := Rest(q.rows, q.last);
      && s.files == Files(Whole(q.items + more), Whole(q.raw + more)) && s.ckpt.itemsWritten == q.count + |more|
  {
    var more, stand := Rest(q.rows, q.last), Stand(q.rows, q.last);
    var core :| UnderwayWith(q, core, s);
    var h :| InvWith(Fixed(stand), q.size, Image(q, core, s), h);
    assert h.done == stand;
    FrontIsShown(Marker(q.last), core.items, more);
    FrontIsShown(Marker(q.last), core.raw, more);
    OnWhole(q.items, more);
    OnWhole(q.raw, more);
  }

  lemma SameWhole(a: seq<Row>, b: seq<Row>)
    ensures Whole(a) == Whole(b) <==> a == b
  {
    if Whole(a) == Whole(b) {
      assert |Entries(a)| == |a| && |Entries(b)| == |b|;
      forall i | 0 <= i < |a| ensures a[i] == b[i] {
        assert Entries(a)[i] == Entries(b)[i];
      }
    }
  }

  /** So it leaves the server's list in both files exactly when truncation left, in each, what the
      server holds up to the stored last id. */
  lemma {:induction false} ResumeWholeExactly(size: nat, trace: seq<State>, rows: seq<Row>, items: seq<Row>,
                                              raw: seq<Row>)
    requires ResumedFrom(rows, size, trace) && CrawlTheorems.IsComplete(trace[|trace| - 1])
    requires Rewritten(trace[0].files.items, UpTo(trace[0].ckpt.lastItemId)) == Whole(items)
    requires Rewritten(trace[0].files.raw, UpTo(trace[0].ckpt.lastItemId)) == Whole(raw)
    ensures var before := rows[..Behind(rows, trace[0].ckpt.lastItemId)];
      trace[|trace| - 1].files == Files(Whole(rows), Whole(rows)) <==> items == before && raw == before
  {
    var n, more := Behind(rows, trace[0].ckpt.lastItemId), Rest(rows, trace[0].ckpt.lastItemId);
    ResumeKeepsAndAdds(size, trace, rows, items, raw);
    assert rows == rows[..n] + more;
    SameWhole(items + more, rows);
    SameWhole(raw + more, rows);
    SameFront(items, rows[..n], more);
    SameFront(raw, rows[..n], more);
  }

  lemma SameFront<T>(a: seq<T>, b: seq<T>, c: seq<T>)
    ensures a + c == b + c <==> a == b
  {
    if a + c == b + c {
      assert |a| == |b| && (a + c)[..|a|] == a && (b + c)[..|b|] == b;
    }
  }

  // ---- behind a failed sync ----

  lemma {:induction false} KeptAreEntries(lines: seq<Line>, rule: Rule)
    ensures Entries(RowsOf(Kept(lines, rule))) == Kept(lines, rule)
  {
    if lines != [] {
      var n := |lines| - 1;
      KeptAreEntries(lines[..n], rule);
      if Landing.Keeps(rule, lines[n]) {
        var before := Kept(lines[..n], rule);
        assert (before + [lines[n]])[..|before|] == before;
        assert Entries(RowsOf(before) + [lines[n].row]) == Entries(RowsOf(before)) + [lines[n]];
      }
    }
  }

  lemma {:induction false} FiltersCommute(lines: seq<Line>, a: Rule, b: Rule)
    ensures Kept(Kept(lines, a), b) == Kept(Kept(lines, b), a)
  {
    if lines != [] {
      var n, line := |lines| - 1, [lines[|lines| - 1]];
      FiltersCommute(lines[..n], a, b);
      KeptConcat(Kept(lines[..n], a), line, b);
      KeptConcat(Kept(lines[..n], b), line, a);
      assert Kept(line, a) == if Landing.Keeps(a, lines[n]) then line else [];
      assert Kept(line, b) == if Landing.Keeps(b, lines[n]) then line else [];
    }
  }

  /** A truncation leaves a finished last line: there was one, or something else has to go. */
  predicate CutsClean(f: File, last: int) {
    f.File? && (f.tail.Unterminated? ==> Removals(f, UpTo(last)) > 0)
  }

  lemma TornGoes(f: File, last: int)
    ensures f.File? && f.tail.Torn? ==> Removals(f, UpTo(last)) > 0
  {
    if f.File? && f.tail.Torn? {
      SyncMachine.UnfinishedGoes(f, UpTo(last));
    }
  }

  /** Of a file a sync gave up on, truncation keeps the rows of the list that were not touched, in
      order, among rows that were. */
  lemma CutAfterSync(base: seq<Row>, f: File, seen: set<int>, last: int) returns (kept: seq<Row>)
    requires SyncMachine.Restorable(f, base, seen) && AllUpTo(base, last) && CutsClean(f, last)
    ensures Rewritten(f, UpTo(last)) == Whole(kept)
    ensures SyncMachine.Survivors(kept, seen) == SyncMachine.Survivors(base, seen) && (seen == {} ==> kept == base)
  {
    var lines := ReadLines(f);
    kept := RowsOf(Kept(lines, UpTo(last)));
    KeptAreEntries(lines, UpTo(last));
    TornGoes(f, last);
    if Removals(f, UpTo(last)) == 0 {
      SyncMachine.NoneDroppedKeepsLines(lines, UpTo(last));
    }
    FiltersCommute(lines, UpTo(last), Without(seen));
    SyncMachine.KeptIsSurvivors(kept, seen);
    SurvivorsUpTo(base, seen, last);
    KeptAll(Entries(SyncMachine.Survivors(base, seen)), UpTo(last));
    SameWhole(SyncMachine.Survivors(kept, seen), SyncMachine.Survivors(base, seen));
    if seen == {} {
      SyncMachine.NothingDropped(base);
      SyncMachine.NothingDropped(kept);
    }
  }

  lemma {:induction false} SurvivorsUpTo(rows: seq<Row>, ids: set<int>, last: int)
    requires AllUpTo(rows, last)
    ensures AllUpTo(SyncMachine.Survivors(rows, ids), last)
  {
    if rows != [] {
      SurvivorsUpTo(rows[..|rows| - 1], ids, last);
    }
  }

  lemma {:induction false} RestorableWithMore(base: seq<Row>, kept: seq<Row>, seen: set<int>, more: seq<Row>)
    requires SyncMachine.Survivors(kept, seen) == SyncMachine.Survivors(base, seen) && (seen == {} ==> kept == base)
    ensures SyncMachine.Restorable(Whole(kept + more), base + more, seen)
  {
    SyncMachine.KeptIsSurvivors(kept + more, seen);
    SyncMachine.SurvivorsConcat(kept, more, seen);
    SyncMachine.SurvivorsConcat(base, more, seen);
  }

  /** The state an error leaves of a sync: saved as failed, with the old last id and the old token. */
  function GivenUp(s: SyncMachine.State): State {
    State(s.files, s.ckpt.(status := Failed), Idle)
  }

  /**
   * A sync fails anywhere, and the list is resumed as a crawl, through any number of kills, until that
   * is complete: the touched rows may be missing then, but the next sync that finishes from the kept
   * token leaves both files as a sync of the old rows and the crawled ones together would have.
   */
  lemma SyncBringsBack(base: seq<Row>, s: SyncMachine.State, size: nat, trace: seq<State>, rows: seq<Row>,
                       later: seq<SyncMachine.State>, ch: SyncMachine.Changes)
    requires SyncMachine.Inv(base, s) && s.proc.Idle? && AllUpTo(base, s.ckpt.lastItemId)
    requires CutsClean(s.files.items, s.ckpt.lastItemId) && CutsClean(s.files.raw, s.ckpt.lastItemId)
    requires ResumedFrom(rows, size, trace) && CrawlTheorems.IsComplete(trace[|trace| - 1]) && trace[0] == GivenUp(s)
    requires SyncMachine.IsRun(later) && later[|later| - 1].proc == SyncMachine.Done(ch)
    requires var end := trace[|trace| - 1];
      later[0] == SyncMachine.State(end.files, end.ckpt, SyncMachine.Idle, 0, s.seen)
    ensures var all := Whole(SyncMachine.Synced(base + Rest(rows, s.ckpt.lastItemId), ch));
      later[|later| - 1].files == Files(all, all)
  {
    var last, more := s.ckpt.lastItemId, Rest(rows, s.ckpt.lastItemId);
    var items := CutAfterSync(base, s.files.items, s.seen, last);
    var raw := CutAfterSync(base, s.files.raw, s.seen, last);
    ResumeKeepsAndAdds(size, trace, rows, items, raw);
    RestorableWithMore(base, items, s.seen, more);
    RestorableWithMore(base, raw, s.seen, more);
    SyncMachine.RunKeepsInv(base + more, later, |later| - 1);
  }

  // ---- where it does not ----

  function Halted(x: Row, token: string): SyncMachine.State
    requires x.key.Some?
  {
    SyncMachine.State(Files(File([], Unterminated(x)), Whole([])), ListState(1, 1, Some(token), Complete),
                      SyncMachine.Idle, 2, {1})
  }

  ghost predicate SyncReaches(base: seq<Row>, s: SyncMachine.State) {
    exists trace: seq<SyncMachine.State> :: SyncMachine.SyncRun(base, trace) && trace[|trace| - 1] == s
  }

  lemma SyncGoesOn(base: seq<Row>, s: SyncMachine.State, e: SyncMachine.Step, t: SyncMachine.State)
    requires SyncReaches(base, s) && SyncMachine.Takes(s, e, t)
    ensures SyncReaches(base, t)
  {
    var trace: seq<SyncMachine.State> :| SyncMachine.SyncRun(base, trace) && trace[|trace| - 1] == s;
    SyncMachine.RunGrows(trace, e, t);
    assert SyncMachine.SyncRun(base, trace + [t]);
  }

  /** A sync of one changed row breaks off when all of it but the newline is written. */
  lemma SyncHalts(was: Row, x: Row, token: string)
    requires was.key == Some(1) && x.key == Some(1)
    ensures SyncReaches([was], Halted(x, token))
  {
    var base, ch, c := [was], SyncMachine.Changes([x], {}, Some(token)), ListState(1, 1, Some(token), Complete);
    assert SyncMachine.Touched(ch) == {1} by {
      SyncMachine.ChangedIdsStep([x]);
      assert [x][..0] == [] && SyncMachine.ChangedIds([]) == {};
    }
    SyncTheorems.LastLineGoes(was, {1});
    var a := SyncMachine.State(Files(Whole(base), Whole(base)), c, SyncMachine.Idle, 0, {});
    assert SyncMachine.SyncRun(base, [a]);
    var b := a.(proc := SyncMachine.Collected(ch), seen := {1});
    SyncGoesOn(base, a, SyncMachine.Begin(ch), b);
    var d := b.(files := b.files.(items := Whole([])), proc := SyncMachine.HalfFiltered(ch), removed := 1);
    SyncGoesOn(base, b, SyncMachine.DropItems, d);
    var e := d.(files := Files(Whole([]), Whole([])), proc := SyncMachine.Filtered(ch), removed := 2);
    SyncGoesOn(base, d, SyncMachine.DropRaw, e);
    SyncAppends(base, x, e, token);
  }

  lemma SyncAppends(base: seq<Row>, x: Row, s: SyncMachine.State, token: string)
    requires x.key == Some(1) && SyncReaches(base, s)
    requires s == SyncMachine.State(Files(Whole([]), Whole([])), ListState(1, 1, Some(token), Complete),
                                    SyncMachine.Filtered(SyncMachine.Changes([x], {}, Some(token))), 2, {1})
    ensures SyncReaches(base, Halted(x, token))
  {
    var f := s.(proc := SyncMachine.HalfOpened(s.proc.ch));
    SyncGoesOn(base, s, SyncMachine.OpenItems, f);
    var g := f.(proc := SyncMachine.Appending(s.proc.ch, 0, false));
    SyncGoesOn(base, f, SyncMachine.OpenRaw, g);
    assert Whole([]) == File([], Clean);
    SyncGoesOn(base, g, SyncMachine.KillInItems(false), Halted(x, token));
  }

  function Glued(y: Row): Files {
    Files(File([Junk], Clean), Whole([y]))
  }

  /** The resumed crawl keeps that row, unfinished as it is, and glues the next one onto it. */
  lemma CrawlGlues(x: Row, y: Row, token: string) returns (t: State)
    requires x.key == Some(1) && y.key == Some(2)
    ensures CrawlRestart.Leads([x, y], 2, GivenUp(Halted(x, token)), t)
    ensures CrawlTheorems.IsComplete(t) && t.files == Glued(y)
  {
    var rows, s := [x, y], GivenUp(Halted(x, token));
    var files, c := s.files, s.ckpt.(status := InProgress);
    NothingToCut(x);
    SecondRowRemains(x, y);
    WholeAppend([], y);
    assert Whole([]) == File([], Clean) && [] + [y] == [y];
    CrawlRestart.LeadsToItself(rows, 2, s);
    CrawlRestart.LeadsOn(rows, 2, s, s, Start(true), s.(proc := Boot(true)));
    CrawlRestart.LeadsOn(rows, 2, s, s.(proc := Boot(true)), CutItems, s.(proc := HalfCut));
    CrawlRestart.LeadsOn(rows, 2, s, s.(proc := HalfCut), CutRaw, s.(proc := Prepared(1, 1)));
    CrawlRestart.LeadsOn(rows, 2, s, s.(proc := Prepared(1, 1)), SaveStart, State(files, c, Opening(1, 1)));
    CrawlRestart.LeadsOn(rows, 2, s, State(files, c, Opening(1, 1)), OpenItems, State(files, c, HalfOpen(1, 1)));
    CrawlRestart.LeadsOn(rows, 2, s, State(files, c, HalfOpen(1, 1)), OpenRaw, State(files, c, Fetching(1, 1)));
    t := GluesPage(rows, s, y, c);
  }

  lemma NothingToCut(x: Row)
    requires x.key == Some(1)
    ensures var f := File([], Unterminated(x)); Rewritten(f, UpTo(1)) == f && !CutsClean(f, 1)
    ensures Rewritten(Whole([]), UpTo(1)) == Whole([])
  {
    assert ReadLines(File([], Unterminated(x))) == [Entry(x)];
    assert Dropped([Entry(x)], UpTo(1)) == 0;
  }

  lemma SecondRowRemains(x: Row, y: Row)
    requires x.key == Some(1) && y.key == Some(2)
    ensures PageOf([x, y], 1, 2) == [y] && MaxId([y]) == Some(2) && Keyed([y]) == 1
  {
    assert [x, y][1..] == [y] && Behind([y], 1) == 0;
    assert [y][..0] == [];
  }

  lemma GluesPage(rows: seq<Row>, s: State, y: Row, c: ListState) returns (t: State)
    requires s.files.items.File? && s.files.items.tail.Unterminated? && s.files.items.lines == []
    requires s.files.raw == Whole([]) && c.lastItemId == 1
    requires PageOf(rows, 1, 2) == [y] && y.key == Some(2) && MaxId([y]) == Some(2) && Keyed([y]) == 1
    requires CrawlRestart.Leads(rows, 2, s, State(s.files, c, Fetching(1, 1)))
    ensures CrawlRestart.Leads(rows, 2, s, t) && CrawlTheorems.IsComplete(t) && t.files == Glued(y)
  {
    WholeAppend([], y);
    assert Whole([]) == File([], Clean) && [] + [y] == [y];
    assert Appended(s.files.items, y) == File([Junk], Clean);
    var a := State(s.files, c, Fetching(1, 1));
    var b := a.(proc := Writing(1, 1, [y], 0, false));
    CrawlRestart.LeadsOn(rows, 2, s, a, Fetch([y]), b);
    var d := State(Files(File([Junk], Clean), s.files.raw), c, Writing(1, 1, [y], 0, true));
    CrawlRestart.LeadsOn(rows, 2, s, b, WriteItems, d);
    var e := State(Glued(y), c, Writing(1, 1, [y], 1, false));
    CrawlRestart.LeadsOn(rows, 2, s, d, WriteRaw, e);
    var f := e.(proc := Saving(2, 2, true));
    CrawlRestart.LeadsOn(rows, 2, s, e, EndPage, f);
    var g := State(Glued(y), Volatile(f), Finishing(2, 2));
    CrawlRestart.LeadsOn(rows, 2, s, f, SavePage, g);
    t := State(Glued(y), Volatile(g), Idle);
    CrawlRestart.LeadsOn(rows, 2, s, g, SaveDone, t);
  }

  /**
   * The condition is needed: a sync can fail so that truncation leaves an unfinished row; the resumed
   * crawl completes, and a row it has read is in one file alone and in no later sync's way.
   */
  lemma UnfinishedRowSwallowsNext(was: Row, x: Row, y: Row, token: string) returns (t: State)
    requires was.key == Some(1) && x.key == Some(1) && y.key == Some(2)
    ensures SyncReaches([was], Halted(x, token)) && !CutsClean(Halted(x, token).files.items, 1)
    ensures CrawlRestart.Leads([x, y], 2, GivenUp(Halted(x, token)), t) && CrawlTheorems.IsComplete(t)
    ensures t.files.raw == Whole([y]) && forall ids :: Rewritten(t.files.items, Without(ids)) == Whole([])
  {
    SyncHalts(was, x, token);
    NothingToCut(x);
    t := CrawlGlues(x, y, token);
    forall ids ensures Rewritten(t.files.items, Without(ids)) == Whole([]) {
      KeptNone([Junk], Without(ids));
    }
  }
}
