/** Main results about incremental sync: replay, the id-to-row map, and the counters. */
module SyncTheorems {
  import opened Options
  import opened Landing
  import opened CrawlState
  import opened Paging
  import opened SyncMachine
  import CrawlMachine

  /**
   * However many sync processes died before it, wherever they died, and even if they were
   * told about fewer changes: the one that finishes leaves both files exactly as if it had
   * been the only one, untouched rows first and in their old order.
   */
  lemma ReplayEqualsUninterrupted(base: seq<Row>, trace: seq<State>, ch: Changes)
    requires SyncRun(base, trace) && trace[|trace| - 1].proc == Done(ch)
    ensures trace[|trace| - 1].files == Files(Whole(Synced(base, ch)), Whole(Synced(base, ch)))
  {
    CleanStart(base, trace[0]);
    RunKeepsInv(base, trace, |trace| - 1);
  }

  /** The token moves only together with the completed files: until a process is done, the
      entry on disk is still the one the sync started from. */
  lemma {:induction false} CheckpointMovesLast(base: seq<Row>, trace: seq<State>, i: nat)
    requires SyncRun(base, trace) && i < |trace|
    requires forall k :: 0 <= k <= i ==> !trace[k].proc.Done?
    ensures trace[i].ckpt == trace[0].ckpt
  {
    if i > 0 {
      CheckpointMovesLast(base, trace, i - 1);
      assert Next(trace[i - 1], trace[i]);
    }
  }

  // ---- the id-to-row map ----

  /** Which row a reader that upserts line by line ends up with under each id. */
  function MapOf(rows: seq<Row>): map<int, Row> {
    if rows == [] then map[] else
      var before, row := MapOf(rows[..|rows| - 1]), rows[|rows| - 1];
      if row.key.None? then before else before[row.key.value := row]
  }

  lemma {:induction false} MapOfConcat(a: seq<Row>, b: seq<Row>)
    ensures MapOf(a + b) == MapOf(a) + MapOf(b)
  {
    if b == [] {
      assert a + b == a;
    } else {
      var n := |b| - 1;
      assert (a + b)[..|a + b| - 1] == a + b[..n];
      MapOfConcat(a, b[..n]);
    }
  }

  lemma {:induction false} MapOfSurvivors(rows: seq<Row>, ids: set<int>)
    ensures MapOf(Survivors(rows, ids)) == MapOf(rows) - ids
  {
    if rows != [] {
      var n := |rows| - 1;
      MapOfSurvivors(rows[..n], ids);
      var before := Survivors(rows[..n], ids);
      if Survives(rows[n], ids) {
        assert (before + [rows[n]])[..|before|] == before;
      }
    }
  }

  lemma {:induction false} MapOfKeyed(rows: seq<Row>)
    ensures MapOf(KeyedRows(rows)) == MapOf(rows)
  {
    if rows != [] {
      var n := |rows| - 1;
      MapOfKeyed(rows[..n]);
      var before := KeyedRows(rows[..n]);
      assert (before + [rows[n]])[..|before|] == before;
    }
  }

  lemma {:induction false} MapOfDomain(rows: seq<Row>)
    ensures MapOf(rows).Keys == ChangedIds(rows)
  {
    if rows != [] {
      ChangedIdsStep(rows);
      MapOfDomain(rows[..|rows| - 1]);
    }
  }

  /** The documented effect: the old map without every changed or deleted id, plus the
      changed rows; ids that were not touched keep their rows. */
  lemma {:induction false} SyncedMap(base: seq<Row>, ch: Changes)
    ensures MapOf(Synced(base, ch)) == (MapOf(base) - Touched(ch)) + MapOf(ch.rows)
    ensures forall id :: id in MapOf(base) && id !in Touched(ch) ==>
      id in MapOf(Synced(base, ch)) && MapOf(Synced(base, ch))[id] == MapOf(base)[id]
  {
    MapOfConcat(Survivors(base, Touched(ch)), KeyedRows(ch.rows));
    MapOfSurvivors(base, Touched(ch));
    MapOfKeyed(ch.rows);
    MapOfDomain(ch.rows);
  }

  /** A deleted id is gone from both files exactly when it is not reported as changed too. */
  lemma DeletedIsGoneExactly(base: seq<Row>, ch: Changes, id: int)
    requires id in ch.deleted
    ensures id !in MapOf(Synced(base, ch)) <==> id !in ChangedIds(ch.rows)
  {
    SyncedMap(base, ch);
    MapOfDomain(ch.rows);
  }

  // ---- one line per id ----

  lemma {:induction false} CountConcat(a: seq<Row>, b: seq<Row>, id: int)
    ensures CountId(a + b, id) == CountId(a, id) + CountId(b, id)
  {
    if b == [] {
      assert a + b == a;
    } else {
      assert (a + b)[..|a + b| - 1] == a + b[..|b| - 1];
      CountConcat(a, b[..|b| - 1], id);
    }
  }

  lemma {:induction false} CountSurvivors(rows: seq<Row>, ids: set<int>, id: int)
    ensures CountId(Survivors(rows, ids), id) == if id in ids then 0 else CountId(rows, id)
  {
    if rows != [] {
      var n := |rows| - 1;
      CountSurvivors(rows[..n], ids, id);
      var before := Survivors(rows[..n], ids);
      if Survives(rows[n], ids) {
        assert (before + [rows[n]])[..|before|] == before;
      }
    }
  }

  lemma {:induction false} CountKeyed(rows: seq<Row>, id: int)
    ensures CountId(KeyedRows(rows), id) == CountId(rows, id)
    ensures CountId(rows, id) > 0 <==> id in ChangedIds(rows)
  {
    if rows != [] {
      var n := |rows| - 1;
      CountKeyed(rows[..n], id);
      var before := KeyedRows(rows[..n]);
      assert (before + [rows[n]])[..|before|] == before;
      ChangedIdsStep(rows);
    }
  }

  ghost predicate DistinctIds(rows: seq<Row>) {
    forall id :: CountId(rows, id) <= 1
  }

  /** Every changed row is appended, so an id occurs once in the files exactly when no batch
      of this sync reported it twice. */
  lemma OneLinePerIdExactly(base: seq<Row>, ch: Changes)
    requires DistinctIds(base)
    ensures DistinctIds(Synced(base, ch)) <==> DistinctIds(ch.rows)
  {
    forall id
      ensures CountId(Synced(base, ch), id) ==
              (if id in Touched(ch) then 0 else CountId(base, id)) + CountId(ch.rows, id)
      ensures CountId(ch.rows, id) > 0 ==> id in Touched(ch)
    {
      CountConcat(Survivors(base, Touched(ch)), KeyedRows(ch.rows), id);
      CountSurvivors(base, Touched(ch), id);
      CountKeyed(ch.rows, id);
    }
  }

  // ---- the line counter ----

  /** What one undisturbed sync counts as removed: the dropped lines of both files. */
  function RemovedOnce(base: seq<Row>, ch: Changes): nat {
    SurvivorsShorter(base, Touched(ch));
    2 * (|base| - |Survivors(base, Touched(ch))|)
  }

  /**
   * `items_written` is not kept exact by a sync: lines removed from both files are taken
   * off a count of one. From an exact counter, an undisturbed sync leaves an exact counter
   * if and only if it dropped no line, or dropped every line and wrote none.
   */
  lemma {:induction false} CounterExactExactly(base: seq<Row>, c: ListState, ch: Changes)
    requires c.itemsWritten == |base|
    ensures SavedEntry(c, ch, RemovedOnce(base, ch)).itemsWritten == |Synced(base, ch)| <==>
            (Survivors(base, Touched(ch)) == base
             || (Survivors(base, Touched(ch)) == [] && KeyedRows(ch.rows) == []))
  {
    SurvivorsShorter(base, Touched(ch));
    if |Survivors(base, Touched(ch))| == |base| {
      NoneDroppedKeepsAll(base, Touched(ch));
    }
  }

  /** `RemovedOnce` is indeed what the machine counts when nothing was killed before. */
  lemma CountedOnce(base: seq<Row>, s: State, t: State, u: State)
    requires s.files == Files(Whole(base), Whole(base)) && s.proc.Collected?
    requires Takes(s, DropItems, t) && Takes(t, DropRaw, u)
    ensures u.removed == RemovedOnce(base, s.proc.ch)
  {
    KeptIsSurvivors(base, Touched(s.proc.ch));
  }

  // ---- a crawl behind a killed sync ----

  /** A sync leaves status `complete` on disk until it is done, so a `crawl --resume` behind a killed
      one skips the list: whatever it does, both files stay as the sync left them. */
  lemma ResumeSkipsKilledSync(base: seq<Row>, trace: seq<State>, i: nat, w: CrawlMachine.World, size: nat,
                              e: CrawlMachine.Step, t: CrawlMachine.State)
    requires SyncRun(base, trace) && i < |trace| && trace[0].ckpt.status == Complete
    requires forall k :: 0 <= k <= i ==> !trace[k].proc.Done?
    requires CrawlMachine.Takes(w, size, CrawlMachine.State(trace[i].files, trace[i].ckpt, CrawlMachine.Boot(true)),
                                e, t)
    ensures t.files == trace[i].files && t.proc.Idle?
  {
    CheckpointMovesLast(base, trace, i);
  }

  ghost predicate EndsHalfSynced(row: Row, c: ListState, trace: seq<State>) {
    && SyncRun([row], trace)
    && var s := trace[|trace| - 1];
       s.proc.Idle? && s.ckpt == c && s.files == Files(Whole([]), Whole([row]))
  }

  /** And what it left need not be whole: here one file has lost a row that the other still has. */
  lemma KilledSyncCanBeHalfDone(row: Row, c: ListState)
    requires row.key.Some? && c.status == Complete && c.changeToken.Some?
    ensures exists trace :: EndsHalfSynced(row, c, trace)
  {
    var ids := {row.key.value};
    var ch := Changes([], ids, None);
    var idle := State(Files(Whole([row]), Whole([row])), c, Idle, 0, {});
    var begun := idle.(proc := Collected(ch), seen := ids);
    var half := begun.(files := Files(Whole([]), Whole([row])), proc := HalfFiltered(ch), removed := 1);
    var dead := half.(proc := Idle);
    OnlyDeleted(ids);
    LastLineGoes(row, ids);
    RunGrows([idle], Begin(ch), begun);
    RunGrows([idle] + [begun], DropItems, half);
    RunGrows([idle] + [begun] + [half], Kill, dead);
    assert EndsHalfSynced(row, c, [idle] + [begun] + [half] + [dead]);
  }

  lemma OnlyDeleted(ids: set<int>)
    ensures Touched(Changes([], ids, None)) == ids
  {
    assert ChangedIds([]) == {};
  }

  lemma LastLineGoes(row: Row, ids: set<int>)
    requires row.key.Some? && row.key.value in ids
    ensures Rewritten(Whole([row]), Without(ids)) == Whole([]) && Removals(Whole([row]), Without(ids)) == 1
  {
    assert Entries([row]) == Entries([]) + [Entry(row)];
    RewriteRecovers(Whole([row]), [], [Entry(row)], Without(ids));
  }
}
