/**
 * What every run of the crawl machine keeps, over any number of processes, failures and
 * kills: the rows the checkpoint covers are always recoverable from both files.
 */
module CrawlSafety {
  import opened Landing
  import opened CrawlState
  import opened Paging
  import opened CrawlMachine

  // ---- the invariant ----

  /** `done`: rows covered by the durable checkpoint. `page`: the rows of a page that is, or
      was, being written; `n` and `m` say how many of them each file holds. */
  datatype Shape = Shape(done: seq<Row>, page: seq<Row>, n: nat, m: nat)

  ghost predicate Partly(f: File, done: seq<Row>, page: seq<Row>, n: nat) {
    && f.File? && n <= |page|
    && f.lines == Entries(done + page[..n])
    && (f.tail.Unterminated? ==> n < |page| && f.tail.row == page[n])
  }

  /** The raw file is at most one row behind the decoded one, unless a resume that was
      itself killed has already cut the decoded file back to the checkpoint. At most one
      of the two ends in an unfinished line. */
  ghost predicate Lockstep(h: Shape, items: File) {
    h.m <= h.n <= h.m + 1 || items == Whole(h.done)
  }

  ghost predicate Recoverable(s: State, h: Shape) {
    && Partly(s.files.items, h.done, h.page, h.n)
    && Partly(s.files.raw, h.done, h.page, h.m)
    && Lockstep(h, s.files.items)
    && (s.files.items.tail.Clean? || s.files.raw.tail.Clean?)
  }

  ghost predicate InvWith(w: World, size: nat, s: State, h: Shape) {
    var c := s.ckpt;
    && c.lastItemId == LastId(h.done)
    && UpToId(h.done, c.lastItemId) && Beyond(h.page, c.lastItemId)
    && Covered(w, h.done, c.lastItemId)
    && (c.lastItemId > 0 || c.status == Complete ==> c.itemsWritten == |h.done|)
    && (!s.proc.Idle? && !s.proc.Boot? ==> c.status != Complete)
    && match s.proc
       case Idle => AtRest(w, s, h)
       case Boot(resume) => AtRest(w, s, h)
       case HalfCut =>
         c.lastItemId > 0 && s.files.items == Whole(h.done) && Partly(s.files.raw, h.done, h.page, h.m)
       case HalfReset => c.lastItemId == 0 && s.files.items.Absent?
       case Prepared(last, written) =>
         && last == c.lastItemId && written == |h.done|
         && s.files == Files(Unopened(h, last), Unopened(h, last))
       case Opening(last, written) =>
         Saved(c, last, written, h) && s.files == Files(Unopened(h, last), Unopened(h, last))
       case HalfOpen(last, written) =>
         Saved(c, last, written, h) && s.files == Files(Whole(h.done), Unopened(h, last))
       case Fetching(last, written) =>
         Saved(c, last, written, h) && s.files == Files(Whole(h.done), Whole(h.done))
       case Writing(last, written, page, next, half) =>
         && Saved(c, last, written, h) && h.page == page && page != []
         && next + (if half then 1 else 0) <= |page|
         && s.files == Files(Whole(h.done + page[..next + if half then 1 else 0]), Whole(h.done + page[..next]))
         && CanAnswer(w, size, last, page)
       case Saving(last, written, short) =>
         && c.status == InProgress && h.page != [] && Saved(c, c.lastItemId, |h.done|, h)
         && s.files == Files(Whole(h.done + h.page), Whole(h.done + h.page))
         && last == h.page[|h.page| - 1].key.value && written == |h.done + h.page|
         && Covered(w, h.done + h.page, last)
         && (short ==> Everything(w, h.done + h.page))
       case Finishing(last, written) =>
         && Saved(c, last, written, h) && s.files == Files(Whole(h.done), Whole(h.done))
         && Everything(w, h.done)
  }

  /** A list that starts from nothing has no files until the writer opens them. */
  ghost function Unopened(h: Shape, last: int): File {
    if last == 0 then Absent else Whole(h.done)
  }

  ghost predicate Saved(c: ListState, last: int, written: int, h: Shape) {
    c.lastItemId == last && c.itemsWritten == written == |h.done| && c.status == InProgress
  }

  ghost predicate AtRest(w: World, s: State, h: Shape) {
    if s.ckpt.status == Complete then
      s.files == Files(Whole(h.done), Whole(h.done)) && Everything(w, h.done)
    else
      s.ckpt.lastItemId == 0 || Recoverable(s, h)
  }

  ghost predicate Inv(w: World, size: nat, s: State) {
    exists h :: InvWith(w, size, s, h)
  }

  // ---- single steps ----

  lemma WholeAppend(rows: seq<Row>, row: Row)
    ensures Appended(Whole(rows), row) == Whole(rows + [row])
  {
    assert Entries(rows) + [Entry(row)] == Entries(rows + [row]);
  }

  lemma RowAppended(done: seq<Row>, page: seq<Row>, next: nat)
    requires next < |page|
    ensures Appended(Whole(done + page[..next]), page[next]) == Whole(done + page[..next + 1])
  {
    WholeAppend(done + page[..next], page[next]);
    assert done + page[..next] + [page[next]] == done + page[..next + 1];
  }

  lemma WholeIsPartly(done: seq<Row>, page: seq<Row>, n: nat)
    requires n <= |page|
    ensures Partly(Whole(done + page[..n]), done, page, n)
  {
  }

  lemma CutIsPartly(done: seq<Row>, page: seq<Row>, n: nat, torn: bool)
    requires n < |page|
    ensures Partly(CutShort(Whole(done + page[..n]), page[n], torn), done, page, n)
  {
  }

  /** A truncation to the checkpoint undoes whatever a kill left behind it. */
  lemma CutRecovers(f: File, h: Shape, n: nat, last: int)
    requires UpToId(h.done, last) && Beyond(h.page, last) && Partly(f, h.done, h.page, n)
    ensures Rewritten(f, UpTo(last)) == Whole(h.done)
  {
    var surplus := Entries(h.page[..n]) +
      match f.tail case Clean => [] case Torn => [Junk] case Unterminated(row) => [Entry(row)];
    assert Entries(h.done + h.page[..n]) == Entries(h.done) + Entries(h.page[..n]);
    assert ReadLines(f) == Entries(h.done) + surplus;
    if surplus == [] {
      assert n == 0;
      assert h.done + h.page[..0] == h.done;
    }
    RewriteRecovers(f, h.done, surplus, UpTo(last));
  }

  lemma RestingWhole(w: World, size: nat, files: Files, c: ListState, done: seq<Row>)
    requires c.lastItemId == LastId(done) && c.status != Complete
    requires UpToId(done, c.lastItemId) && Covered(w, done, c.lastItemId)
    requires c.itemsWritten == |done| && files == Files(Whole(done), Whole(done))
    ensures InvWith(w, size, State(files, c, Idle), Shape(done, [], 0, 0))
  {
    assert done + [][..0] == done;
  }

  /** The end of the process at a point where the page is partly written. */
  lemma BrokenWhileWriting(w: World, size: nat, s: State, h: Shape, n: nat, m: nat, t: State)
    requires InvWith(w, size, s, h) && (s.proc.Writing? || s.proc.Saving?)
    requires t.proc.Idle? && SameCheckpoint(t.ckpt, s) && t.ckpt.status != Complete
    requires Recoverable(t, h.(n := n, m := m))
    ensures Inv(w, size, t)
  {
    assert InvWith(w, size, t, h.(n := n, m := m));
  }

  lemma NothingBeforeTheFirst(rows: seq<Row>)
    requires ValidList(rows)
    ensures UpToId(rows, 0) ==> rows == [] && Whole(rows) == File([], Clean)
  {
    if rows != [] {
      assert rows[0].key.value > 0;
    }
  }

  lemma CutStep(w: World, size: nat, s: State, e: Step, t: State)
    requires GoodWorld(w) && Inv(w, size, s) && (e.CutItems? || e.CutRaw?) && Takes(w, size, s, e, t)
    ensures Inv(w, size, t)
  {
    var h :| InvWith(w, size, s, h);
    if e.CutItems? {
      CutRecovers(s.files.items, h, h.n, s.ckpt.lastItemId);
    } else {
      CutRecovers(s.files.raw, h, h.m, s.ckpt.lastItemId);
    }
    assert InvWith(w, size, t, h);
  }

  lemma ResetStep(w: World, size: nat, s: State, e: Step, t: State)
    requires GoodWorld(w) && Inv(w, size, s) && (e.ResetItems? || e.ResetRaw?) && Takes(w, size, s, e, t)
    requires s.proc == Boot(false) ==> NoCheckpoint(s.ckpt)
    ensures Inv(w, size, t)
  {
    var h :| InvWith(w, size, s, h);
    NothingBeforeTheFirst(h.done);
    assert InvWith(w, size, t, h);
  }

  lemma OpenStep(w: World, size: nat, s: State, e: Step, t: State)
    requires GoodWorld(w) && Inv(w, size, s)
    requires e.SaveStart? || e.OpenItems? || e.OpenRaw? || e.SaveDone? || e.Skip? || e.Start?
    requires Takes(w, size, s, e, t)
    ensures Inv(w, size, t)
  {
    var h :| InvWith(w, size, s, h);
    if s.ckpt.lastItemId == 0 {
      NothingBeforeTheFirst(h.done);
    }
    assert InvWith(w, size, t, h);
  }

  lemma FetchStep(w: World, size: nat, s: State, page: seq<Row>, t: State)
    requires GoodWorld(w) && size > 0 && Inv(w, size, s) && Takes(w, size, s, Fetch(page), t)
    ensures Inv(w, size, t)
  {
    if page == [] {
      FetchEmptyStep(w, size, s, t);
    } else {
      FetchRowsStep(w, size, s, page, t);
    }
  }

  lemma FetchEmptyStep(w: World, size: nat, s: State, t: State)
    requires GoodWorld(w) && size > 0 && Inv(w, size, s) && Takes(w, size, s, Fetch([]), t)
    ensures Inv(w, size, t)
  {
    var h :| InvWith(w, size, s, h);
    assert Everything(w, h.done) by {
      PageCovers(w, size, h.done, s.proc.last, []);
      assert h.done + [] == h.done;
    }
    assert InvWith(w, size, t, h);
  }

  lemma FetchRowsStep(w: World, size: nat, s: State, page: seq<Row>, t: State)
    requires GoodWorld(w) && size > 0 && Inv(w, size, s) && Takes(w, size, s, Fetch(page), t) && page != []
    ensures Inv(w, size, t)
  {
    var h :| InvWith(w, size, s, h);
    assert Beyond(page, s.proc.last) by {
      PageCovers(w, size, h.done, s.proc.last, page);
    }
    assert h.done + page[..0] == h.done;
    assert InvWith(w, size, t, Shape(h.done, page, 0, 0));
  }

  lemma WriteItemsStep(w: World, size: nat, s: State, t: State)
    requires Inv(w, size, s) && Takes(w, size, s, WriteItems, t)
    ensures Inv(w, size, t)
  {
    var h :| InvWith(w, size, s, h);
    RowAppended(h.done, s.proc.page, s.proc.next);
    assert InvWith(w, size, t, h);
  }

  lemma WriteRawStep(w: World, size: nat, s: State, t: State)
    requires Inv(w, size, s) && Takes(w, size, s, WriteRaw, t)
    ensures Inv(w, size, t)
  {
    var h :| InvWith(w, size, s, h);
    RowAppended(h.done, s.proc.page, s.proc.next);
    assert InvWith(w, size, t, h);
  }

  /** An append breaks off. */
  lemma BreakInItemsStep(w: World, size: nat, s: State, torn: bool, handled: bool, t: State)
    requires Inv(w, size, s) && Takes(w, size, s, BreakInItems(torn, handled), t)
    ensures Inv(w, size, t)
  {
    var h :| InvWith(w, size, s, h);
    var page, next := s.proc.page, s.proc.next;
    CutIsPartly(h.done, page, next, torn);
    WholeIsPartly(h.done, page, next);
    assert Recoverable(t, h.(n := next, m := next));
    BrokenWhileWriting(w, size, s, h, next, next, t);
  }

  lemma BreakInRawStep(w: World, size: nat, s: State, torn: bool, handled: bool, t: State)
    requires Inv(w, size, s) && Takes(w, size, s, BreakInRaw(torn, handled), t)
    ensures Inv(w, size, t)
  {
    var h :| InvWith(w, size, s, h);
    var page, next := s.proc.page, s.proc.next;
    CutIsPartly(h.done, page, next, torn);
    WholeIsPartly(h.done, page, next + 1);
    assert Recoverable(t, h.(n := next + 1, m := next));
    BrokenWhileWriting(w, size, s, h, next + 1, next, t);
  }

  lemma EndPageStep(w: World, size: nat, s: State, t: State)
    requires GoodWorld(w) && size > 0 && Inv(w, size, s) && Takes(w, size, s, EndPage, t)
    ensures Inv(w, size, t)
  {
    var h :| InvWith(w, size, s, h);
    var page := s.proc.page;
    assert page[..|page|] == page;
    assert s.files == Files(Whole(h.done + page), Whole(h.done + page));
    assert MaxId(page) == page[|page| - 1].key && Keyed(page) == |page| by {
      MaxIdIsLast(page);
    }
    assert Covered(w, h.done + page, t.proc.last) && (t.proc.short ==> Everything(w, h.done + page)) by {
      PageCovers(w, size, h.done, s.proc.last, page);
    }
    assert InvWith(w, size, t, h);
  }

  /** Every row of a page from a good world has an id, so none is passed over. */
  lemma NoRowIsPassed(w: World, size: nat, s: State, t: State)
    requires GoodWorld(w) && Inv(w, size, s)
    ensures !Takes(w, size, s, PassRow, t)
  {
    var h :| InvWith(w, size, s, h);
  }

  lemma SaveStep(w: World, size: nat, s: State, t: State)
    requires GoodWorld(w) && Inv(w, size, s) && s.proc.Saving? && Takes(w, size, s, SavePage, t)
    ensures Inv(w, size, t)
  {
    var h :| InvWith(w, size, s, h);
    JoinValid(h.done, h.page, s.ckpt.lastItemId);
    assert InvWith(w, size, t, Shape(h.done + h.page, [], 0, 0));
  }

  /** What is left when the process ends outside the writing of a page. */
  ghost predicate SameCheckpoint(c: ListState, s: State) {
    && c.lastItemId == s.ckpt.lastItemId
    && (c.lastItemId > 0 ==> c.itemsWritten == s.ckpt.itemsWritten)
    && (c.status == Complete ==> c == s.ckpt)
  }

  lemma StopBeforeFetching(w: World, size: nat, s: State, h: Shape, c: ListState)
    requires InvWith(w, size, s, h) && SameCheckpoint(c, s)
    requires s.proc.HalfReset? || s.proc.Prepared? || s.proc.Opening? || s.proc.HalfOpen?
    ensures InvWith(w, size, State(s.files, c, Idle), h.(n := 0, m := 0))
  {
    assert h.done + h.page[..0] == h.done;
    WholeIsPartly(h.done, h.page, 0);
  }

  lemma StopHalfCut(w: World, size: nat, s: State, h: Shape, c: ListState)
    requires InvWith(w, size, s, h) && SameCheckpoint(c, s) && s.proc.HalfCut?
    ensures InvWith(w, size, State(s.files, c, Idle), h.(n := 0))
  {
    assert h.done + h.page[..0] == h.done;
    WholeIsPartly(h.done, h.page, 0);
  }

  lemma StopAtBoot(w: World, size: nat, s: State, h: Shape, c: ListState)
    requires InvWith(w, size, s, h) && SameCheckpoint(c, s) && s.proc.Boot?
    ensures Inv(w, size, State(s.files, c, Idle))
  {
    if s.ckpt.status == Complete && c.status != Complete {
      RestingDone(w, size, s, h, c);
    } else {
      assert InvWith(w, size, State(s.files, c, Idle), h);
    }
  }

  lemma RestingDone(w: World, size: nat, s: State, h: Shape, c: ListState)
    requires InvWith(w, size, s, h) && SameCheckpoint(c, s)
    requires c.status != Complete && s.files == Files(Whole(h.done), Whole(h.done))
    requires s.ckpt.lastItemId > 0 ==> s.ckpt.itemsWritten == |h.done|
    ensures Inv(w, size, State(s.files, c, Idle))
  {
    assert h.done + [][..0] == h.done;
    assert InvWith(w, size, State(s.files, c, Idle), Shape(h.done, [], 0, 0));
  }

  lemma StopOutsidePage(w: World, size: nat, s: State, c: ListState)
    requires Inv(w, size, s) && SameCheckpoint(c, s)
    requires !s.proc.Idle? && !s.proc.Writing? && !s.proc.Saving?
    ensures Inv(w, size, State(s.files, c, Idle))
  {
    var h :| InvWith(w, size, s, h);
    match s.proc
    case Boot(_) => StopAtBoot(w, size, s, h, c);
    case HalfCut => StopHalfCut(w, size, s, h, c);
    case Fetching(_, _) => RestingDone(w, size, s, h, c);
    case Finishing(_, _) => RestingDone(w, size, s, h, c);
    case _ => StopBeforeFetching(w, size, s, h, c);
  }

  lemma StopInPage(w: World, size: nat, s: State, c: ListState)
    requires Inv(w, size, s) && (s.proc.Writing? || s.proc.Saving?)
    requires SameCheckpoint(c, s) && c.status != Complete
    ensures Inv(w, size, State(s.files, c, Idle))
  {
    var h :| InvWith(w, size, s, h);
    var n := if s.proc.Saving? then |h.page| else s.proc.next + if s.proc.half then 1 else 0;
    var m := if s.proc.Saving? then |h.page| else s.proc.next;
    assert h.page[..|h.page|] == h.page;
    WholeIsPartly(h.done, h.page, n);
    WholeIsPartly(h.done, h.page, m);
    assert InvWith(w, size, State(s.files, c, Idle), h.(n := n, m := m));
  }

  /** The process dies between two effects. */
  lemma KillStep(w: World, size: nat, s: State, t: State)
    requires Inv(w, size, s) && Takes(w, size, s, Kill, t)
    ensures Inv(w, size, t)
  {
    if s.proc.Writing? || s.proc.Saving? {
      var h :| InvWith(w, size, s, h);
      StopInPage(w, size, s, s.ckpt);
    } else {
      StopOutsidePage(w, size, s, s.ckpt);
    }
  }

  lemma PageRests(w: World, size: nat, files: Files, c: ListState, h: Shape, last: int)
    requires UpToId(h.done, last) && Beyond(h.page, last) && h.page != []
    requires c.lastItemId == h.page[|h.page| - 1].key.value && c.itemsWritten == |h.done + h.page|
    requires c.status != Complete && Covered(w, h.done + h.page, c.lastItemId)
    requires files == Files(Whole(h.done + h.page), Whole(h.done + h.page))
    ensures Inv(w, size, State(files, c, Idle))
  {
    JoinValid(h.done, h.page, last);
    RestingWhole(w, size, files, c, h.done + h.page);
  }

  lemma FailWhileSaving(w: World, size: nat, s: State, t: State)
    requires Inv(w, size, s) && s.proc.Saving? && Takes(w, size, s, Fail, t)
    ensures Inv(w, size, t)
  {
    var h :| InvWith(w, size, s, h);
    PageRests(w, size, s.files, t.ckpt, h, s.ckpt.lastItemId);
  }

  /** An error reaches the per-list handler, which saves status `failed`. */
  lemma FailStep(w: World, size: nat, s: State, t: State)
    requires GoodWorld(w) && Inv(w, size, s) && Takes(w, size, s, Fail, t)
    ensures Inv(w, size, t)
  {
    match s.proc
    case Saving(_, _, _) => FailWhileSaving(w, size, s, t);
    case Writing(_, _, _, _, _) => StopInPage(w, size, s, t.ckpt);
    case Prepared(_, _) => FailWhilePrepared(w, size, s, t);
    case _ => StopOutsidePage(w, size, s, t.ckpt);
  }

  lemma FailWhilePrepared(w: World, size: nat, s: State, t: State)
    requires Inv(w, size, s) && s.proc.Prepared? && Takes(w, size, s, Fail, t)
    ensures Inv(w, size, t)
  {
    var h :| InvWith(w, size, s, h);
    StopOutsidePage(w, size, s, t.ckpt);
  }

  lemma StepKeepsInv(w: World, size: nat, s: State, t: State)
    requires GoodWorld(w) && size > 0 && Inv(w, size, s) && Next(w, size, s, t)
    requires s.proc == Boot(false) ==> NoCheckpoint(s.ckpt)
    ensures Inv(w, size, t)
  {
    var e :| Takes(w, size, s, e, t);
    match e
    case Kill => KillStep(w, size, s, t);
    case BreakInItems(torn, handled) => BreakInItemsStep(w, size, s, torn, handled, t);
    case BreakInRaw(torn, handled) => BreakInRawStep(w, size, s, torn, handled, t);
    case Fail => FailStep(w, size, s, t);
    case CutItems => CutStep(w, size, s, e, t);
    case CutRaw => CutStep(w, size, s, e, t);
    case ResetItems => ResetStep(w, size, s, e, t);
    case ResetRaw => ResetStep(w, size, s, e, t);
    case Fetch(page) => FetchStep(w, size, s, page, t);
    case PassRow => NoRowIsPassed(w, size, s, t);
    case WriteItems => WriteItemsStep(w, size, s, t);
    case WriteRaw => WriteRawStep(w, size, s, t);
    case EndPage => EndPageStep(w, size, s, t);
    case SavePage => SaveStep(w, size, s, t);
    case _ => OpenStep(w, size, s, e, t);
  }
}
