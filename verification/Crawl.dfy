/**
 * `Crawler.crawl_list`, `_write_page` and the per-list part of `Crawler.crawl`
 * (src/spconnect/crawl.py:366-521, 653-666) in the source's own shape: loops over fields and
 * local counters.
 *
 * The ghost `trace` is the run of the crawl machine that this process is. The contracts say
 * that it is one, that it ends where the process is, and that everything the disk held on
 * the way (its journal) was held by a state of the run. So whatever is proved of all states
 * of all runs holds of the disk wherever this process is killed.
 */
module Crawl {
  import opened Options
  import opened Landing
  import opened CrawlState
  import opened Storage
  import opened Paging
  import opened CrawlMachine
  import opened CrawlSafety
  import opened CrawlTheorems

  /** What one page request comes back with. */
  datatype Answer = Rows(page: seq<Row>) | Refused | Unauthorized

  /** What collecting one row's attachments comes back with. */
  datatype Collected = Stored | Broken | Denied

  datatype Outcome = Wrote(items: int) | Skipped | Raised(abort: bool)

  /** Every row that is written has its attachments collected. */
  ghost predicate Collects(rows: seq<Row>, collect: Row -> Collected) {
    forall i :: 0 <= i < |rows| ==> rows[i].key.Some? ==> collect(rows[i]) == Stored
  }

  /** A page that gets past the last id. */
  predicate Advances(page: seq<Row>, last: int) {
    MaxId(page).Some? && MaxId(page).value > last
  }

  /** An answer that lets the crawl go on. */
  ghost predicate Fine(answer: Answer, last: int, collect: Row -> Collected) {
    answer.Rows? && (answer.page != [] ==> Advances(answer.page, last) && Collects(answer.page, collect))
  }

  /** The first row whose attachments cannot be collected is one the credential is refused for. */
  ghost predicate DeniedFirst(rows: seq<Row>, collect: Row -> Collected) {
    exists i :: 0 <= i < |rows| && DeniedAt(rows, i, collect)
  }

  ghost predicate DeniedAt(rows: seq<Row>, i: nat, collect: Row -> Collected)
    requires i < |rows|
  {
    rows[i].key.Some? && collect(rows[i]) == Denied && Collects(rows[..i], collect)
  }

  lemma DeniedExactly(rows: seq<Row>, i: nat, collect: Row -> Collected)
    requires i < |rows| && rows[i].key.Some? && collect(rows[i]) != Stored && Collects(rows[..i], collect)
    ensures DeniedFirst(rows, collect) <==> collect(rows[i]) == Denied
  {
    if collect(rows[i]) == Denied {
      assert DeniedAt(rows, i, collect);
    }
  }

  /** The credential is refused: for the page itself, or on the way through its rows. */
  ghost predicate RefusesCredential(answer: Answer, last: int, collect: Row -> Collected) {
    answer.Unauthorized? || (answer.Rows? && Advances(answer.page, last) && DeniedFirst(answer.page, collect))
  }

  /** The request a crawl stopped at: the number of the page and the last id it was asked behind. */
  datatype Stop = Stop(n: nat, last: int)

  /** This answer stops a crawl, with a refused credential or without. */
  ghost predicate Stops(answer: Answer, last: int, collect: Row -> Collected, abort: bool) {
    !Fine(answer, last, collect) && (abort <==> RefusesCredential(answer, last, collect))
  }

  ghost predicate StoppedAt(ask: (nat, int) -> Answer, stop: Stop, collect: Row -> Collected, abort: bool) {
    Stops(ask(stop.n, stop.last), stop.last, collect, abort)
  }

  /** Something stands in the way of some request. */
  ghost predicate Troubled(ask: (nat, int) -> Answer, collect: Row -> Collected) {
    exists n: nat, last: int :: !Fine(ask(n, last), last, collect)
  }

  /** A list that does not change, answered and collected without fail, is no trouble. */
  lemma QuietIsFine(rows: seq<Row>, size: nat, ask: (nat, int) -> Answer, collect: Row -> Collected)
    requires ValidList(rows) && size > 0 && (forall row :: collect(row) == Stored)
    requires forall n: nat, last: int :: ask(n, last) == Rows(PageOf(rows, last, size))
    ensures !Troubled(ask, collect)
  {
    forall n: nat, last: int ensures Fine(ask(n, last), last, collect) {
      var page := PageOf(rows, last, size);
      assert ask(n, last) == Rows(page);
      PageIsStretch(rows, size, last, page);
      MaxIdIsLast(page);
    }
  }

  /** Memory and disk agree, the change token apart. */
  predicate SameButToken(a: ListState, b: ListState) {
    a == b.(changeToken := a.changeToken)
  }

  class Crawler {
    const guid: string
    const pageSize: nat
    const disk: Disk
    const writer: ListWriter
    const store: StateStore
    var listsSkipped: nat
    var itemsWritten: nat
    ghost var trace: seq<State>
    ghost var mark: nat
    ghost var token: Option<string>

    constructor (guid: string, pageSize: nat, writer: ListWriter, store: StateStore)
      requires writer.disk == store.disk
      ensures this.guid == guid && this.pageSize == pageSize && this.writer == writer && this.store == store
      ensures Wired() && listsSkipped == 0 && itemsWritten == 0
    {
      this.guid, this.pageSize, this.disk, this.writer, this.store := guid, pageSize, writer.disk, writer, store;
      listsSkipped, itemsWritten, trace, mark, token := 0, 0, [], 0, None;
    }

    ghost predicate Wired() {
      writer.disk == disk && store.disk == disk
    }

    /** A durable entry under the change token this process works with: a sync whose token was
        rejected has cleared it in memory, and the first save makes that durable. */
    ghost function Seen(c: ListState): ListState
      reads this`token
    {
      c.(changeToken := token)
    }

    ghost function Now(proc: Proc): State
      reads this`token, disk
    {
      State(disk.files, Seen(Lookup(disk.states, guid)), proc)
    }

    ghost predicate Journaled()
      reads this, disk
    {
      forall k :: mark <= k < |disk.journal| ==>
        Passed(trace, disk.journal[k].files, Seen(Lookup(disk.journal[k].states, guid)))
    }

    /** The trace is a run up to here, through everything the disk has held since it began. */
    ghost predicate Tracked(w: World, proc: Proc)
      reads this, disk
    {
      && IsRun(w, pageSize, trace) && OneProcess(trace)
      && trace[|trace| - 1] == Now(proc)
      && Journaled()
    }

    /** Memory holds what the machine says it holds. */
    ghost predicate At(w: World, proc: Proc)
      reads this, disk, store
    {
      && Tracked(w, proc)
      && Lookup(store.memory, guid) == Volatile(Now(proc))
      && (proc.Opening? || proc.Fetching? || proc.Writing? ==>
           Lookup(disk.states, guid).status == InProgress && Lookup(disk.states, guid).changeToken == token
           && Lookup(disk.states, guid).lastItemId == proc.last)
    }

    /** One machine step, into a state that is on disk now or was one effect ago. */
    ghost method Record(w: World, e: Step, t: State)
      requires IsRun(w, pageSize, trace) && OneProcess(trace) && !t.proc.Boot?
      requires Takes(w, pageSize, trace[|trace| - 1], e, t)
      modifies this`trace
      ensures trace == old(trace) + [t] && IsRun(w, pageSize, trace) && OneProcess(trace)
      ensures forall f, c :: Passed(old(trace), f, c) ==> Passed(trace, f, c)
      ensures Passed(trace, t.files, t.ckpt)
    {
      RunGrows(w, pageSize, trace, e, t);
      trace := trace + [t];
    }

    /** Saving the whole state file is one machine step for this list. */
    method SaveState(ghost w: World, ghost e: Step, ghost proc: Proc)
      requires Wired() && IsRun(w, pageSize, trace) && OneProcess(trace) && Journaled() && !proc.Boot?
      requires Takes(w, pageSize, trace[|trace| - 1], e, State(disk.files, Lookup(store.memory, guid), proc))
      requires Lookup(store.memory, guid).changeToken == token
      modifies this`trace, disk
      ensures Tracked(w, proc) && disk.states == store.memory && trace == old(trace) + [Now(proc)]
      ensures disk.files == old(disk.files)
    {
      store.Save();
      Record(w, e, Now(proc));
    }

    /** Resume: both files go back to the checkpoint. */
    method CutBack(ghost w: World, entry: ListState)
      requires Wired() && Tracked(w, Boot(true)) && entry == Seen(Lookup(disk.states, guid))
      requires entry.status != Complete && entry.lastItemId != 0
      modifies this`trace, disk
      ensures Tracked(w, Prepared(entry.lastItemId, entry.itemsWritten))
      ensures disk.states == old(disk.states) && old(trace) <= trace
    {
      ghost var was := disk.files;
      var removed := writer.TruncateAfter(entry.lastItemId);
      Record(w, CutItems, State(was.(items := disk.files.items), entry, HalfCut));
      Record(w, CutRaw, Now(Prepared(entry.lastItemId, entry.itemsWritten)));
    }

    /** No resume, or nothing to resume from: both files go. */
    method StartOver(ghost w: World, ghost resume: bool)
      requires Wired() && Tracked(w, Boot(resume)) && !(resume && Lookup(disk.states, guid).status == Complete)
      requires !Resumes(resume, Lookup(disk.states, guid))
      modifies this`trace, writer, disk
      ensures Tracked(w, Prepared(0, 0))
      ensures disk.states == old(disk.states) && old(trace) <= trace
    {
      ghost var was := disk.files;
      writer.Reset();
      Record(w, ResetItems, State(was.(items := Absent), Seen(Lookup(disk.states, guid)), HalfReset));
      Record(w, ResetRaw, Now(Prepared(0, 0)));
    }

    method OpenWriter(ghost w: World, ghost last: int, ghost written: int)
      requires Wired() && At(w, Opening(last, written))
      modifies this`trace, disk
      ensures At(w, Fetching(last, written)) && old(trace) <= trace
    {
      ghost var was := disk.files;
      writer.Open();
      Record(w, OpenItems, State(was.(items := disk.files.items), Seen(Lookup(disk.states, guid)),
                                 HalfOpen(last, written)));
      Record(w, OpenRaw, Now(Fetching(last, written)));
    }

    /** Everything before the paging loop: cut both files back or remove them, save, open. */
    method Begin(ghost w: World, resume: bool) returns (last: int, written: int)
      requires Wired() && At(w, Boot(resume)) && !(resume && Lookup(disk.states, guid).status == Complete)
      modifies this`trace, writer, store, disk
      ensures At(w, Fetching(last, written)) && old(trace) <= trace
    {
      var entry := store.Get(guid);
      if resume && entry.lastItemId != 0 {
        CutBack(w, entry);
        last, written := entry.lastItemId, entry.itemsWritten;
      } else {
        StartOver(w, resume);
        last, written := 0, 0;
      }
      store.Update(guid, entry.(lastItemId := last, itemsWritten := written, status := InProgress));
      SaveState(w, SaveStart, Opening(last, written));
      OpenWriter(w, last, written);
    }

    /** `_write_page`: rows without an id are passed over, the others go to both files. */
    method WritePage(page: seq<Row>, collect: Row -> Collected)
      returns (written: nat, trouble: Collected, ghost next: nat)
      requires Wired()
      modifies this`itemsWritten, writer, disk
      ensures next <= |page| && (trouble == Stored <==> next == |page|)
      ensures trouble != Stored ==> page[next].key.Some? && collect(page[next]) == trouble
      ensures Collects(page[..next], collect)
      ensures written == Keyed(page[..next]) && itemsWritten == old(itemsWritten) + written
      ensures disk.states == old(disk.states) && disk.files == AfterRows(old(disk.files), page[..next])
      ensures old(disk.journal) <= disk.journal
      ensures forall k :: |old(disk.journal)| <= k < |disk.journal| ==>
        disk.journal[k].states == disk.states && disk.journal[k].files in PageEffects(old(disk.files), page[..next])
    {
      written, trouble, next := 0, Stored, 0;
      ghost var start := disk.files;
      for i := 0 to |page|
        invariant next == i && trouble == Stored && Collects(page[..i], collect)
        invariant written == Keyed(page[..i]) && itemsWritten == old(itemsWritten) + written
        invariant disk.states == old(disk.states) && disk.files == AfterRows(start, page[..i])
        invariant old(disk.journal) <= disk.journal
        invariant forall k :: |old(disk.journal)| <= k < |disk.journal| ==>
          disk.journal[k].states == disk.states && disk.journal[k].files in PageEffects(start, page[..i])
      {
        assert page[..i + 1][..i] == page[..i];
        AfterOneMore(start, page, i);
        var row := page[i];
        if row.key.None? {
          next := i + 1;
          continue;
        }
        trouble := collect(row);
        if trouble != Stored {
          return;
        }
        writer.Write(row);
        next := i + 1;
        written := written + 1;
        itemsWritten := itemsWritten + 1;
      }
      assert page[..|page|] == page;
    }

    /** `_write_page` inside the crawl: the machine writes the same rows. */
    method WriteFetched(ghost w: World, page: seq<Row>, collect: Row -> Collected, ghost last: int, ghost before: int)
      returns (written: nat, trouble: Collected, ghost next: nat)
      requires Wired() && At(w, Writing(last, before, page, 0, false))
      modifies this`trace, this`itemsWritten, writer, disk
      ensures next <= |page| && (trouble == Stored <==> next == |page|)
      ensures trouble == Stored <==> Collects(page, collect)
      ensures trouble != Stored ==> (trouble == Denied <==> DeniedFirst(page, collect))
      ensures At(w, Writing(last, before, page, next, false)) && old(trace) <= trace
      ensures written == Keyed(page[..next]) && itemsWritten == old(itemsWritten) + written
    {
      ghost var run, was := trace, disk.files;
      written, trouble, next := WritePage(page, collect);
      if trouble != Stored {
        DeniedExactly(page, next, collect);
      }
      ghost var longer := PageIsRun(w, pageSize, run, next);
      PassedPrefix(run, longer);
      trace := longer;
    }

    /** The checkpoint behind a page. */
    method SaveProgress(ghost w: World, page: seq<Row>, last: int, written: int, ghost from: int, ghost before: int)
      requires Wired() && At(w, Writing(from, before, page, |page|, false))
      requires MaxId(page) == Some(last) && written == before + Keyed(page)
      modifies this`trace, store, disk
      ensures old(trace) <= trace
      ensures if |page| < pageSize then AtFinish(w, last, written) else At(w, Fetching(last, written))
    {
      var entry := store.Get(guid);
      store.Update(guid, entry.(lastItemId := last, itemsWritten := written, status := InProgress));
      Record(w, EndPage, Now(Saving(last, written, |page| < pageSize)));
      SaveState(w, SavePage, if |page| < pageSize then Finishing(last, written) else Fetching(last, written));
    }

    /** The loop is over; the final status is not in memory yet. */
    ghost predicate AtFinish(w: World, last: int, written: int)
      reads this, store, disk
    {
      && Tracked(w, Finishing(last, written)) && Lookup(store.memory, guid) == Lookup(disk.states, guid)
      && Lookup(disk.states, guid).changeToken == token
    }

    method SaveComplete(ghost w: World, last: int, written: int)
      requires Wired() && AtFinish(w, last, written)
      modifies this`trace, store, disk
      ensures At(w, Idle) && trace == old(trace) + [Now(Idle)]
      ensures Lookup(disk.states, guid).status == Complete && Lookup(disk.states, guid).itemsWritten == written
      ensures Lookup(store.memory, guid) == Lookup(disk.states, guid)
    {
      var entry := store.Get(guid);
      store.Update(guid, entry.(lastItemId := last, itemsWritten := written, status := Complete));
      SaveState(w, SaveDone, Idle);
    }

    /** A page that gets past `last`: its rows are written, then the checkpoint moves. */
    method TakePage(ghost w: World, page: seq<Row>, collect: Row -> Collected, ghost last: int, written: int, max: int)
      returns (more: bool, written': int, raised: Option<bool>, ghost at: Proc)
      requires Wired() && At(w, Fetching(last, written)) && CanAnswer(w, pageSize, last, page)
      requires page != [] && MaxId(page) == Some(max) && max > last
      modifies this`trace, this`itemsWritten, writer, store, disk
      ensures old(trace) <= trace
      ensures more ==> raised.None? && At(w, Fetching(max, written'))
      ensures !more && raised.None? ==> AtFinish(w, max, written')
      ensures raised.Some? ==> !more && At(w, at) && at.Writing?
      ensures raised.None? <==> Collects(page, collect)
      ensures raised.Some? ==> (raised.value <==> DeniedFirst(page, collect)) && at.last == last
      ensures raised.None? ==> written' == written + Keyed(page) && (more <==> |page| >= pageSize)
      ensures raised.None? ==> itemsWritten - old(itemsWritten) == written' - written
    {
      more, written', raised, at := false, written, None, Writing(last, written, page, 0, false);
      Record(w, Fetch(page), Now(at));
      var count, trouble; ghost var next;
      count, trouble, next := WriteFetched(w, page, collect, last, written);
      at := Writing(last, written, page, next, false);
      if trouble != Stored {
        raised := Some(trouble.Denied?);
        return;
      }
      assert page[..|page|] == page;
      written' := written + count;
      SaveProgress(w, page, max, written', last, written);
      more := |page| >= pageSize;
    }

    /** One pass of the paging loop: `more` when it goes on, `at` when it raised. A page that
        does not get past `last` stops it before anything is written. */
    method OnePage(ghost w: World, answer: Answer, collect: Row -> Collected, last: int, written: int)
      returns (more: bool, last': int, written': int, raised: Option<bool>, ghost at: Proc)
      requires Wired() && At(w, Fetching(last, written))
      requires answer.Rows? ==> CanAnswer(w, pageSize, last, answer.page)
      modifies this`trace, this`itemsWritten, writer, store, disk
      ensures old(trace) <= trace
      ensures more ==> raised.None? && At(w, Fetching(last', written'))
      ensures more ==> answer.Rows? && Some(last') == MaxId(answer.page) && last < last'
      ensures !more && raised.None? ==> AtFinish(w, last', written')
      ensures raised.Some? ==> At(w, at) && (at.Fetching? || at.Writing?)
      ensures raised.None? <==> Fine(answer, last, collect)
      ensures raised.None? ==> itemsWritten - old(itemsWritten) == written' - written
      ensures raised.Some? ==> Stops(answer, last, collect, raised.value) && at.last == last
      ensures answer.Rows? && answer.page != [] && !Advances(answer.page, last) ==> at == Fetching(last, written)
    {
      more, last', written', raised, at := false, last, written, None, Fetching(last, written);
      if !answer.Rows? {
        raised := Some(answer.Unauthorized?);
        return;
      }
      var page := answer.page;
      var max := MaxIdLoop(page);
      if page == [] {
        Record(w, Fetch(page), Now(Finishing(last, written)));
        return;
      }
      if max.None? || max.value <= last {
        raised := Some(false);
        return;
      }
      last' := max.value;
      more, written', raised, at := TakePage(w, page, collect, last, written, last');
    }

    /** A server that `w` allows, with bounded ids. */
    ghost predicate Serves(w: World, ask: (nat, int) -> Answer, bound: int) {
      forall n: nat, last: int :: ask(n, last).Rows? ==>
        CanAnswer(w, pageSize, last, ask(n, last).page)
        && (MaxId(ask(n, last).page).Some? ==> MaxId(ask(n, last).page).value <= bound)
    }

    /** The paging loop. */
    method PageThrough(ghost w: World, ask: (nat, int) -> Answer, collect: Row -> Collected, from: int, before: int,
                       ghost bound: int)
      returns (last: int, written: int, raised: Option<bool>, ghost at: Proc, ghost stop: Stop)
      requires Wired() && At(w, Fetching(from, before)) && Serves(w, ask, bound)
      modifies this`trace, this`itemsWritten, writer, store, disk
      ensures old(trace) <= trace
      ensures raised.None? ==> AtFinish(w, last, written) && itemsWritten - old(itemsWritten) == written - before
      ensures raised.Some? ==> At(w, at) && (at.Fetching? || at.Writing?)
      ensures raised.Some? ==> StoppedAt(ask, stop, collect, raised.value) && at.last == stop.last
    {
      last, written, raised, at, stop := from, before, None, Fetching(from, before), Stop(0, from);
      var pageNumber, more := 0, true;
      while more
        invariant trace != [] && old(trace) <= trace && raised.None?
        invariant itemsWritten - old(itemsWritten) == written - before
        invariant if more then At(w, Fetching(last, written)) else AtFinish(w, last, written)
        decreases more, bound - last
      {
        stop := Stop(pageNumber, last);
        more, last, written, raised, at := OnePage(w, ask(pageNumber, last), collect, last, written);
        if raised.Some? {
          return;
        }
        pageNumber := pageNumber + 1;
      }
    }

    /** Where the run starts. */
    ghost function First(resume: bool): State
      reads disk, store
    {
      State(disk.files, Lookup(store.memory, guid), Boot(resume))
    }

    /** Behind a run that raised nothing, from a start that can be recovered. */
    ghost method NothingMissing(w: World, skipped: bool)
      requires GoodWorld(w) && pageSize > 0 && Tracked(w, Idle) && trace[0].proc.Boot?
      requires !trace[0].proc.resume || NoCheckpoint(trace[0].ckpt) || Inv(w, pageSize, trace[0])
      requires if skipped then trace[|trace| - 1] == trace[0].(proc := Idle) && trace[0].ckpt.status == Complete
                               && trace[0].proc.resume
               else Undisturbed(w, pageSize, trace)
      ensures HasAll(w, Now(Idle))
    {
      if NoCheckpoint(trace[0].ckpt) {
        FreshListIsSafe(w, pageSize, trace[0]);
      }
      if skipped {
        SkippedHasAll(w, pageSize, trace[0]);
      } else {
        UndisturbedHasAll(w, pageSize, trace);
      }
    }

    /** The run starts here. */
    ghost method Attach(w: World, resume: bool)
      requires Wired() && SameButToken(Lookup(store.memory, guid), Lookup(disk.states, guid))
      modifies this`trace, this`mark, this`token
      ensures At(w, Boot(resume)) && mark == |disk.journal| && token == Lookup(store.memory, guid).changeToken
      ensures trace == [First(resume)]
    {
      token := Lookup(store.memory, guid).changeToken;
      trace, mark := [Now(Boot(resume))], |disk.journal|;
    }

    /** From the first effect on disk to the final save. */
    method CrawlThrough(ghost w: World, resume: bool, ask: (nat, int) -> Answer, collect: Row -> Collected,
                        ghost bound: int)
      returns (outcome: Outcome, ghost at: Proc, ghost stop: Stop)
      requires Wired() && At(w, Boot(resume)) && !(resume && Lookup(disk.states, guid).status == Complete)
      requires Serves(w, ask, bound)
      modifies this`trace, this`itemsWritten, writer, store, disk
      ensures At(w, at) && old(trace) <= trace && !outcome.Skipped?
      ensures if outcome.Raised? then (at.Fetching? || at.Writing?) && at.last == stop.last
                                      && StoppedAt(ask, stop, collect, outcome.abort)
              else at == Idle && Lookup(disk.states, guid).status == Complete
                   && outcome.items == Lookup(disk.states, guid).itemsWritten
                   && Lookup(store.memory, guid) == Lookup(disk.states, guid)
                   && Undisturbed(w, pageSize, trace)
    {
      var last, written := Begin(w, resume);
      var raised;
      last, written, raised, at, stop := PageThrough(w, ask, collect, last, written, bound);
      if raised.Some? {
        return Raised(raised.value), at, stop;
      }
      SaveComplete(w, last, written);
      return Wrote(written), Idle, stop;
    }

    /**
     * One list. `ask` is the server: any answers at all, apart from what `w` assumes and
     * from ids being bounded, which is what makes the loop end. `at` says where the
     * process stands when an exception leaves the method.
     */
    method CrawlList(ghost w: World, resume: bool, ask: (nat, int) -> Answer, collect: Row -> Collected,
                     ghost bound: int)
      returns (outcome: Outcome, ghost at: Proc, ghost stop: Stop)
      requires Wired() && SameButToken(Lookup(store.memory, guid), Lookup(disk.states, guid))
      requires Serves(w, ask, bound)
      modifies this, writer, store, disk
      ensures At(w, at) && mark == |old(disk.journal)|
      ensures trace[0] == old(First(resume))
      ensures token == old(Lookup(store.memory, guid)).changeToken
      ensures outcome.Wrote? ==> Lookup(store.memory, guid) == Lookup(disk.states, guid)
      ensures outcome.Wrote? ==> Undisturbed(w, pageSize, trace)
      ensures if outcome.Raised? then at.Fetching? || at.Writing? else at == Idle
      // What stopped it, and whether that was a refused credential.
      ensures outcome.Raised? ==> StoppedAt(ask, stop, collect, outcome.abort) && at.last == stop.last
      ensures !outcome.Raised? ==> Lookup(disk.states, guid).status == Complete
      ensures outcome.Wrote? ==> outcome.items == Lookup(disk.states, guid).itemsWritten
      ensures outcome.Skipped? <==> resume && old(Lookup(disk.states, guid)).status == Complete
      ensures listsSkipped == old(listsSkipped) + if outcome.Skipped? then 1 else 0
      ensures outcome.Skipped? ==> trace[|trace| - 1] == trace[0].(proc := Idle) && disk.files == old(disk.files)
    {
      at, stop := Idle, Stop(0, 0);
      Attach(w, resume);
      var entry := store.Get(guid);
      if resume && entry.status == Complete {
        listsSkipped := listsSkipped + 1;
        Record(w, Skip, Now(Idle));
        return Skipped, Idle, stop;
      }
      outcome, at, stop := CrawlThrough(w, resume, ask, collect, bound);
    }

    /** The handler of an ordinary exception. */
    method SaveFailed(ghost w: World, ghost at: Proc)
      requires Wired() && At(w, at) && (at.Fetching? || at.Writing?)
      modifies this`trace, store, disk
      ensures Tracked(w, Idle) && old(trace) <= trace && disk.files == old(disk.files)
      ensures Lookup(disk.states, guid) == old(Lookup(disk.states, guid)).(status := Failed)
      ensures Lookup(store.memory, guid) == Lookup(disk.states, guid)
    {
      var entry := store.Get(guid);
      store.Update(guid, entry.(status := Failed));
      SaveState(w, Fail, Idle);
    }

    /**
     * One list inside `crawl`: an ordinary exception is saved as status `failed`, a refused
     * credential ends the run without saving anything. Either way the process is done with
     * the list, and the trace is a run of the machine from its start to its end.
     */
    method CrawlGuarded(ghost w: World, resume: bool, ask: (nat, int) -> Answer, collect: Row -> Collected,
                        ghost bound: int)
      returns (outcome: Outcome, ghost stop: Stop)
      requires Wired() && SameButToken(Lookup(store.memory, guid), Lookup(disk.states, guid))
      requires Serves(w, ask, bound)
      modifies this, writer, store, disk
      ensures Tracked(w, Idle) && mark == |old(disk.journal)|
      ensures trace[0] == old(First(resume))
      ensures outcome.Skipped? <==> resume && old(Lookup(disk.states, guid)).status == Complete
      ensures listsSkipped == old(listsSkipped) + if outcome.Skipped? then 1 else 0
      ensures !outcome.Skipped? ==> Lookup(store.memory, guid) == Lookup(disk.states, guid)
      ensures !outcome.Skipped? ==> Lookup(disk.states, guid).changeToken == old(Lookup(store.memory, guid)).changeToken
      // An answer stopped it, or none did: a refused credential leaves the list in progress, any other
      // error is saved.
      ensures outcome.Raised? ==>
        StoppedAt(ask, stop, collect, outcome.abort) && Lookup(disk.states, guid).lastItemId == stop.last
      ensures Lookup(disk.states, guid).status ==
              if !outcome.Raised? then Complete
              else if RefusesCredential(ask(stop.n, stop.last), stop.last, collect) then InProgress else Failed
      ensures outcome.Wrote? ==> outcome.items == Lookup(disk.states, guid).itemsWritten
      // A crawl that raises nothing has it all: without `resume` over any files and any
      // checkpoint, with it from anything an earlier crawl of the list can have left.
      ensures GoodWorld(w) && pageSize > 0 && !outcome.Raised?
              && (!resume || NoCheckpoint(old(Lookup(disk.states, guid))) || old(Inv(w, pageSize, First(resume)))) ==>
        HasAll(w, Now(Idle)) && (w.Fixed? ==> disk.files == Files(Whole(w.rows), Whole(w.rows)))
    {
      ghost var at;
      outcome, at, stop := CrawlList(w, resume, ask, collect, bound);
      if outcome.Raised? {
        if outcome.abort {
          Record(w, Kill, Now(Idle));
        } else {
          SaveFailed(w, at);
        }
      } else if GoodWorld(w) && pageSize > 0 && (!resume || NoCheckpoint(trace[0].ckpt) || Inv(w, pageSize, trace[0])) {
        NothingMissing(w, outcome.Skipped?);
      }
    }
  }
}
