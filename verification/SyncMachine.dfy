/**
 * `Crawler.sync_list` (src/spconnect/crawl.py:735-789) as a machine of single disk effects:
 * collect the changes since the stored token, drop every touched id from both files, append
 * the changed rows, and only then move the token. A process killed anywhere in between is
 * followed by another one that replays from the old token.
 */
module SyncMachine {
  import opened Options
  import opened Landing
  import opened CrawlState
  import opened Paging
  import opened CrawlSafety

  /** What all batches of one sync add up to. */
  datatype Changes = Changes(rows: seq<Row>, deleted: set<int>, token: Option<string>)

  datatype Proc =
    | Idle
    | Collected(ch: Changes)
    | HalfFiltered(ch: Changes)
    | Filtered(ch: Changes)
    | HalfOpened(ch: Changes)
    | Appending(ch: Changes, next: nat, half: bool)
    | Done(ch: Changes)

  /** `removed` counts lines the deletes of this process took out, `seen` the ids that any
      process since the token was stored has touched. */
  datatype State = State(files: Files, ckpt: ListState, proc: Proc, removed: nat, seen: set<int>)

  datatype Step =
    | Begin(changes: Changes) | NoDrop | DropItems | DropRaw | OpenItems | OpenRaw
    | PassRow | AddItems | AddRaw | Save
    | Kill | KillInItems(torn: bool) | KillInRaw(torn: bool)

  // ---- the meaning of a sync, on rows ----

  function ChangedIds(rows: seq<Row>): set<int> {
    set r | r in rows && r.key.Some? :: r.key.value
  }

  function Touched(ch: Changes): set<int> {
    ChangedIds(ch.rows) + ch.deleted
  }

  predicate Survives(row: Row, ids: set<int>) {
    row.key.None? || row.key.value !in ids
  }

  function Survivors(rows: seq<Row>, ids: set<int>): seq<Row> {
    if rows == [] then [] else
      var before := Survivors(rows[..|rows| - 1], ids);
      if Survives(rows[|rows| - 1], ids) then before + [rows[|rows| - 1]] else before
  }

  /** Rows that are written: those with an id. */
  function KeyedRows(rows: seq<Row>): seq<Row> {
    if rows == [] then [] else
      var before := KeyedRows(rows[..|rows| - 1]);
      if rows[|rows| - 1].key.Some? then before + [rows[|rows| - 1]] else before
  }

  /** The rows both files hold after `base` has been brought up to date. */
  function Synced(base: seq<Row>, ch: Changes): seq<Row> {
    Survivors(base, Touched(ch)) + KeyedRows(ch.rows)
  }

  lemma ChangedIdsStep(rows: seq<Row>)
    requires rows != []
    ensures ChangedIds(rows) == ChangedIds(rows[..|rows| - 1]) +
            (if rows[|rows| - 1].key.Some? then {rows[|rows| - 1].key.value} else {})
  {
    assert rows == rows[..|rows| - 1] + [rows[|rows| - 1]];
    assert forall r :: r in rows <==> r in rows[..|rows| - 1] || r == rows[|rows| - 1];
  }

  /** The greatest of the stored last id and all changed ids. */
  function Furthest(last: int, rows: seq<Row>): (m: int)
    ensures m >= last
    ensures forall id :: id in ChangedIds(rows) ==> id <= m
    ensures m == last || m in ChangedIds(rows)
  {
    if rows == [] then last else
      var before, row := Furthest(last, rows[..|rows| - 1]), rows[|rows| - 1];
      ChangedIdsStep(rows);
      if row.key.Some? && row.key.value > before then row.key.value else before
  }

  /** The entry saved at the end. `items_written` is corrected by lines removed from both
      files, and clamped at zero. */
  function SavedEntry(c: ListState, ch: Changes, removed: nat): ListState {
    var count := c.itemsWritten - removed + |KeyedRows(ch.rows)|;
    ListState(Furthest(c.lastItemId, ch.rows), if count < 0 then 0 else count, ch.token, Complete)
  }

  // ---- steps ----

  predicate AtRow(s: State, half: bool) {
    s.proc.Appending? && s.proc.next < |s.proc.ch.rows| && s.proc.half == half
  }

  /** `Begin` assumes of the server that a replay from the same token reports every id an
      earlier attempt was told about, and maybe more. */
  ghost predicate Takes(s: State, e: Step, t: State) {
    match e
    case Begin(ch) =>
      && s.proc.Idle? && s.ckpt.status == Complete && s.ckpt.changeToken.Some? && s.seen <= Touched(ch)
      && t == s.(proc := Collected(ch), removed := 0, seen := Touched(ch))
    case NoDrop => s.proc.Collected? && Touched(s.proc.ch) == {} && t == s.(proc := Filtered(s.proc.ch))
    case DropItems =>
      && s.proc.Collected? && Touched(s.proc.ch) != {}
      && t == s.(files := s.files.(items := Rewritten(s.files.items, Without(Touched(s.proc.ch)))),
                 proc := HalfFiltered(s.proc.ch),
                 removed := Removals(s.files.items, Without(Touched(s.proc.ch))))
    case DropRaw =>
      && s.proc.HalfFiltered?
      && t == s.(files := s.files.(raw := Rewritten(s.files.raw, Without(Touched(s.proc.ch)))),
                 proc := Filtered(s.proc.ch),
                 removed := s.removed + Removals(s.files.raw, Without(Touched(s.proc.ch))))
    case OpenItems =>
      && s.proc.Filtered?
      && t == s.(files := s.files.(items := Opened(s.files.items)), proc := HalfOpened(s.proc.ch))
    case OpenRaw =>
      && s.proc.HalfOpened?
      && t == s.(files := s.files.(raw := Opened(s.files.raw)), proc := Appending(s.proc.ch, 0, false))
    case PassRow =>
      && AtRow(s, false) && s.proc.ch.rows[s.proc.next].key.None?
      && t == s.(proc := s.proc.(next := s.proc.next + 1))
    case AddItems =>
      && AtRow(s, false) && s.proc.ch.rows[s.proc.next].key.Some?
      && t == s.(files := s.files.(items := Appended(s.files.items, s.proc.ch.rows[s.proc.next])),
                 proc := s.proc.(half := true))
    case AddRaw =>
      && AtRow(s, true)
      && t == s.(files := s.files.(raw := Appended(s.files.raw, s.proc.ch.rows[s.proc.next])),
                 proc := s.proc.(half := false, next := s.proc.next + 1))
    case Save =>
      && s.proc.Appending? && s.proc.next == |s.proc.ch.rows|
      && t == s.(ckpt := SavedEntry(s.ckpt, s.proc.ch, s.removed), proc := Done(s.proc.ch))
    case Kill => !s.proc.Idle? && !s.proc.Done? && t == s.(proc := Idle)
    case KillInItems(torn) =>
      && AtRow(s, false) && s.proc.ch.rows[s.proc.next].key.Some?
      && t == s.(files := s.files.(items := CutShort(s.files.items, s.proc.ch.rows[s.proc.next], torn)),
                 proc := Idle)
    case KillInRaw(torn) =>
      && AtRow(s, true)
      && t == s.(files := s.files.(raw := CutShort(s.files.raw, s.proc.ch.rows[s.proc.next], torn)),
                 proc := Idle)
  }

  ghost predicate Next(s: State, t: State) {
    exists e :: Takes(s, e, t)
  }

  ghost predicate IsRun(trace: seq<State>) {
    trace != [] && forall i :: 0 <= i < |trace| - 1 ==> Next(trace[i], trace[i + 1])
  }

  /** Any number of sync processes over a list whose two files hold the rows of `base`. */
  ghost predicate SyncRun(base: seq<Row>, trace: seq<State>) {
    && IsRun(trace) && trace[0].proc.Idle? && trace[0].seen == {}
    && trace[0].files == Files(Whole(base), Whole(base))
  }

  // ---- rows under a filter ----

  lemma {:induction false} SurvivorsTwice(rows: seq<Row>, a: set<int>, b: set<int>)
    requires a <= b
    ensures Survivors(Survivors(rows, a), b) == Survivors(rows, b)
  {
    if rows != [] {
      var n := |rows| - 1;
      SurvivorsTwice(rows[..n], a, b);
      var before := Survivors(rows[..n], a);
      if Survives(rows[n], a) {
        assert (before + [rows[n]])[..|before|] == before;
      }
    }
  }

  lemma {:induction false} NothingDropped(rows: seq<Row>)
    ensures Survivors(rows, {}) == rows
  {
    if rows != [] {
      NothingDropped(rows[..|rows| - 1]);
    }
  }

  lemma {:induction false} KeptIsSurvivors(rows: seq<Row>, ids: set<int>)
    ensures Kept(Entries(rows), Without(ids)) == Entries(Survivors(rows, ids))
    ensures Dropped(Entries(rows), Without(ids)) == |rows| - |Survivors(rows, ids)|
  {
    if rows != [] {
      var n := |rows| - 1;
      assert Entries(rows)[..n] == Entries(rows[..n]);
      KeptIsSurvivors(rows[..n], ids);
      assert Entries(Survivors(rows[..n], ids) + [rows[n]]) == Entries(Survivors(rows[..n], ids)) + [Entry(rows[n])];
    }
  }

  lemma {:induction false} NoneDroppedKeepsAll(rows: seq<Row>, ids: set<int>)
    requires |Survivors(rows, ids)| == |rows|
    ensures Survivors(rows, ids) == rows
  {
    if rows != [] {
      SurvivorsShorter(rows[..|rows| - 1], ids);
      NoneDroppedKeepsAll(rows[..|rows| - 1], ids);
    }
  }

  lemma {:induction false} SurvivorsShorter(rows: seq<Row>, ids: set<int>)
    ensures |Survivors(rows, ids)| <= |rows|
  {
    if rows != [] {
      SurvivorsShorter(rows[..|rows| - 1], ids);
    }
  }

  // ---- the invariant ----

  /** Without the ids any attempt has touched, `f` holds what `base` holds without them, in order; and
      an unfinished end is text that a filter removes. */
  ghost predicate Leftover(f: File, base: seq<Row>, seen: set<int>) {
    && f.File? && Blank !in ReadLines(f)
    && Kept(ReadLines(f), Without(seen)) == Entries(Survivors(base, seen))
    && (f.tail.Unterminated? ==> !Survives(f.tail.row, seen))
  }

  ghost predicate Restorable(f: File, base: seq<Row>, seen: set<int>) {
    Leftover(f, base, seen) && (seen == {} ==> f == Whole(base))
  }

  /** A wider filter goes on where a narrower one stopped. */
  lemma {:induction false} KeptWider(lines: seq<Line>, a: set<int>, b: set<int>)
    requires a <= b
    ensures Kept(Kept(lines, Without(a)), Without(b)) == Kept(lines, Without(b))
  {
    if lines != [] {
      var n := |lines| - 1;
      KeptWider(lines[..n], a, b);
      if Keeps(Without(a), lines[n]) {
        KeptConcat(Kept(lines[..n], Without(a)), [lines[n]], Without(b));
        assert Kept([lines[n]], Without(b)) == if Keeps(Without(b), lines[n]) then [lines[n]] else [];
      }
    }
  }

  lemma {:induction false} NoneDroppedKeepsLines(lines: seq<Line>, rule: Rule)
    requires Blank !in lines && Dropped(lines, rule) == 0
    ensures Kept(lines, rule) == lines && forall i :: 0 <= i < |lines| ==> Keeps(rule, lines[i])
  {
    if lines != [] {
      assert lines[|lines| - 1] in lines;
      NoneDroppedKeepsLines(lines[..|lines| - 1], rule);
    }
  }

  lemma LeftoverWider(f: File, base: seq<Row>, seen: set<int>, ids: set<int>)
    requires Leftover(f, base, seen) && seen <= ids
    ensures Leftover(f, base, ids)
  {
    KeptWider(ReadLines(f), seen, ids);
    KeptIsSurvivors(Survivors(base, seen), ids);
    SurvivorsTwice(base, seen, ids);
  }

  lemma UnfinishedGoes(f: File, rule: Rule)
    requires f.File? && (f.tail.Unterminated? ==> !Keeps(rule, Entry(f.tail.row)))
    ensures !f.tail.Clean? ==> Removals(f, rule) > 0
  {
    if !f.tail.Clean? {
      assert ReadLines(f)[..|ReadLines(f)| - 1] == f.lines;
    }
  }

  /** Whatever an earlier attempt left, the filter of the next one gives the same file. */
  lemma {:induction false} FilterRestores(f: File, base: seq<Row>, seen: set<int>, ids: set<int>)
    requires Restorable(f, base, seen) && seen <= ids
    ensures Rewritten(f, Without(ids)) == Whole(Survivors(base, ids))
  {
    var lines := ReadLines(f);
    LeftoverWider(f, base, seen, ids);
    UnfinishedGoes(f, Without(ids));
    if Removals(f, Without(ids)) == 0 {
      NoneDroppedKeepsLines(lines, Without(ids));
    }
  }

  ghost predicate Inv(base: seq<Row>, s: State) {
    match s.proc
    case Idle => Restorable(s.files.items, base, s.seen) && Restorable(s.files.raw, base, s.seen)
    case Collected(ch) =>
      && s.seen == Touched(ch) && Restorable(s.files.items, base, s.seen) && Restorable(s.files.raw, base, s.seen)
      && (s.seen == {} ==> s.files == Files(Whole(base), Whole(base)))
    case HalfFiltered(ch) =>
      && s.seen == Touched(ch) && s.seen != {}
      && s.files.items == Whole(Survivors(base, s.seen)) && Restorable(s.files.raw, base, s.seen)
    case Filtered(ch) => s.seen == Touched(ch) && Exactly(s.files, Survivors(base, s.seen), [], [])
    case HalfOpened(ch) => s.seen == Touched(ch) && Exactly(s.files, Survivors(base, s.seen), [], [])
    case Appending(ch, next, half) =>
      && s.seen == Touched(ch) && next <= |ch.rows|
      && (half ==> next < |ch.rows| && ch.rows[next].key.Some?)
      && Exactly(s.files, Survivors(base, s.seen),
                 KeyedRows(ch.rows[..next]) + (if half then [ch.rows[next]] else []), KeyedRows(ch.rows[..next]))
    case Done(ch) => s.seen == Touched(ch) && s.files == Files(Whole(Synced(base, ch)), Whole(Synced(base, ch)))
  }

  ghost predicate Exactly(files: Files, keep: seq<Row>, items: seq<Row>, raw: seq<Row>) {
    files == Files(Whole(keep + items), Whole(keep + raw))
  }

  ghost predicate AllIn(rows: seq<Row>, ids: set<int>) {
    forall i :: 0 <= i < |rows| ==> rows[i].key.Some? && rows[i].key.value in ids
  }

  lemma {:induction false} KeyedAreTouched(rows: seq<Row>, n: nat)
    requires n <= |rows|
    ensures AllIn(KeyedRows(rows[..n]), ChangedIds(rows))
  {
    if n > 0 {
      assert rows[..n][..n - 1] == rows[..n - 1];
      KeyedAreTouched(rows, n - 1);
      assert rows[n - 1] in rows;
    }
  }

  lemma {:induction false} TouchedGo(rows: seq<Row>, seen: set<int>)
    requires AllIn(rows, seen)
    ensures Survivors(rows, seen) == []
  {
    if rows != [] {
      TouchedGo(rows[..|rows| - 1], seen);
    }
  }

  lemma {:induction false} SurvivorsConcat(a: seq<Row>, b: seq<Row>, ids: set<int>)
    ensures Survivors(a + b, ids) == Survivors(a, ids) + Survivors(b, ids)
  {
    if b == [] {
      assert a + b == a;
    } else {
      assert (a + b)[..|a + b| - 1] == a + b[..|b| - 1];
      SurvivorsConcat(a, b[..|b| - 1], ids);
    }
  }

  lemma {:induction false} AppendedGo(base: seq<Row>, seen: set<int>, more: seq<Row>)
    requires AllIn(more, seen)
    ensures Survivors(Survivors(base, seen) + more, seen) == Survivors(base, seen)
  {
    SurvivorsConcat(Survivors(base, seen), more, seen);
    SurvivorsTwice(base, seen, seen);
    TouchedGo(more, seen);
  }

  /** A file with some rows appended, and perhaps the next one cut short, is restorable. */
  lemma {:induction false} WholeRestorable(base: seq<Row>, seen: set<int>, more: seq<Row>)
    requires AllIn(more, seen) && (seen == {} ==> more == [])
    ensures Restorable(Whole(Survivors(base, seen) + more), base, seen)
  {
    AppendedGo(base, seen, more);
    KeptIsSurvivors(Survivors(base, seen) + more, seen);
    if seen == {} {
      NothingDropped(base);
      assert base + more == base;
    }
  }

  lemma {:induction false} CutRestorable(base: seq<Row>, seen: set<int>, more: seq<Row>, row: Row, torn: bool)
    requires AllIn(more, seen) && row.key.Some? && row.key.value in seen
    ensures Restorable(CutShort(Whole(Survivors(base, seen) + more), row, torn), base, seen)
  {
    var lines := Entries(Survivors(base, seen) + more);
    var last := if torn then Junk else Entry(row);
    AppendedGo(base, seen, more);
    KeptIsSurvivors(Survivors(base, seen) + more, seen);
    KeptConcat(lines, [last], Without(seen));
    KeptNone([last], Without(seen));
  }

  lemma {:induction false} KeyedStep(rows: seq<Row>, n: nat)
    requires n < |rows|
    ensures KeyedRows(rows[..n + 1]) ==
            KeyedRows(rows[..n]) + if rows[n].key.Some? then [rows[n]] else []
  {
    assert rows[..n + 1][..n] == rows[..n];
  }

  lemma DropStep(base: seq<Row>, s: State, e: Step, t: State)
    requires Inv(base, s) && Takes(s, e, t) && (e.Begin? || e.NoDrop? || e.DropItems? || e.DropRaw?)
    ensures Inv(base, t)
  {
    match e
    case Begin(ch) =>
      LeftoverWider(s.files.items, base, s.seen, t.seen);
      LeftoverWider(s.files.raw, base, s.seen, t.seen);
    case NoDrop =>
      NothingDropped(base);
      assert base + [] == base;
    case DropItems =>
      FilterRestores(s.files.items, base, s.seen, s.seen);
    case DropRaw =>
      FilterRestores(s.files.raw, base, s.seen, s.seen);
      assert Survivors(base, s.seen) + [] == Survivors(base, s.seen);
  }

  lemma AppendStep(base: seq<Row>, s: State, e: Step, t: State)
    requires Inv(base, s) && Takes(s, e, t)
    requires e.OpenItems? || e.OpenRaw? || e.PassRow? || e.AddItems? || e.AddRaw?
    ensures Inv(base, t)
  {
    var keep := Survivors(base, s.seen);
    if s.proc.Appending? {
      var rows, n := s.proc.ch.rows, s.proc.next;
      KeyedStep(rows, n);
      var sofar := KeyedRows(rows[..n]);
      WholeAppend(keep + sofar, rows[n]);
      assert keep + sofar + [rows[n]] == keep + (sofar + [rows[n]]);
      assert sofar + [] == sofar;
    } else if e.OpenRaw? {
      assert s.proc.ch.rows[..0] == [];
    }
  }

  lemma SaveStep(base: seq<Row>, s: State, t: State)
    requires Inv(base, s) && Takes(s, Save, t)
    ensures Inv(base, t)
  {
    var rows := s.proc.ch.rows;
    assert rows[..|rows|] == rows;
    assert KeyedRows(rows) + [] == KeyedRows(rows);
  }

  lemma KillStep(base: seq<Row>, s: State, e: Step, t: State)
    requires Inv(base, s) && Takes(s, e, t) && (e.Kill? || e.KillInItems? || e.KillInRaw?)
    ensures Inv(base, t)
  {
    var keep := Survivors(base, s.seen);
    assert keep + [] == keep;
    WholeRestorable(base, s.seen, []);
    if s.proc.Appending? {
      var rows, n := s.proc.ch.rows, s.proc.next;
      var sofar := KeyedRows(rows[..n]);
      KeyedAreTouched(rows, n);
      assert sofar != [] ==> sofar[0].key.value in s.seen;
      WholeRestorable(base, s.seen, sofar);
      assert sofar + [] == sofar;
      if n < |rows| && rows[n].key.Some? {
        assert rows[n] in rows && rows[n].key.value in s.seen;
        WholeRestorable(base, s.seen, sofar + [rows[n]]);
        if !e.Kill? {
          CutRestorable(base, s.seen, sofar, rows[n], e.torn);
        }
      }
    }
  }

  lemma StepKeepsInv(base: seq<Row>, s: State, t: State)
    requires Inv(base, s) && Next(s, t)
    ensures Inv(base, t)
  {
    var e :| Takes(s, e, t);
    match e
    case Begin(_) => DropStep(base, s, e, t);
    case NoDrop => DropStep(base, s, e, t);
    case DropItems => DropStep(base, s, e, t);
    case DropRaw => DropStep(base, s, e, t);
    case Save => SaveStep(base, s, t);
    case Kill => KillStep(base, s, e, t);
    case KillInItems(_) => KillStep(base, s, e, t);
    case KillInRaw(_) => KillStep(base, s, e, t);
    case _ => AppendStep(base, s, e, t);
  }

  /** Whatever processes came before, the invariant holds at every point of a run. */
  lemma {:induction false} RunKeepsInv(base: seq<Row>, trace: seq<State>, i: nat)
    requires IsRun(trace) && Inv(base, trace[0]) && i < |trace|
    ensures Inv(base, trace[i])
  {
    if i > 0 {
      RunKeepsInv(base, trace, i - 1);
      StepKeepsInv(base, trace[i - 1], trace[i]);
    }
  }

  lemma CleanStart(base: seq<Row>, s: State)
    requires s.proc.Idle? && s.seen == {} && s.files == Files(Whole(base), Whole(base))
    ensures Inv(base, s)
  {
    NothingDropped(base);
    assert base + [] == base;
    WholeRestorable(base, {}, []);
  }

  // ---- runs ----

  ghost predicate Passed(trace: seq<State>, files: Files, ckpt: ListState) {
    exists i :: 0 <= i < |trace| && trace[i].files == files && trace[i].ckpt == ckpt
  }

  lemma PassedPrefix(trace: seq<State>, longer: seq<State>)
    requires trace <= longer
    ensures forall f, c :: Passed(trace, f, c) ==> Passed(longer, f, c)
  {
    forall f, c | Passed(trace, f, c) ensures Passed(longer, f, c) {
      var i :| 0 <= i < |trace| && trace[i].files == f && trace[i].ckpt == c;
      assert longer[i] == trace[i];
    }
  }

  lemma RunGrows(trace: seq<State>, e: Step, t: State)
    requires IsRun(trace) && Takes(trace[|trace| - 1], e, t)
    ensures IsRun(trace + [t])
    ensures forall f, c :: Passed(trace, f, c) ==> Passed(trace + [t], f, c)
    ensures Passed(trace + [t], t.files, t.ckpt)
  {
    assert Next(trace[|trace| - 1], t);
    PassedPrefix(trace, trace + [t]);
    assert (trace + [t])[|trace|] == t;
  }

  /** `longer` continues `trace` by appending the first `next` changed rows. */
  ghost predicate AddsOn(trace: seq<State>, next: nat, longer: seq<State>) {
    && IsRun(trace) && trace[|trace| - 1].proc.Appending?
    && IsRun(longer) && trace <= longer
    && var s := trace[|trace| - 1];
       && next <= |s.proc.ch.rows|
       && longer[|longer| - 1] ==
            s.(files := AfterRows(s.files, s.proc.ch.rows[..next]), proc := s.proc.(next := next, half := false))
       && forall f :: f in PageEffects(s.files, s.proc.ch.rows[..next]) ==> Passed(longer, f, s.ckpt)
  }

  lemma {:induction false} ChangesAreRun(trace: seq<State>, next: nat) returns (longer: seq<State>)
    requires IsRun(trace)
    requires var p := trace[|trace| - 1].proc; p.Appending? && p.next == 0 && !p.half && next <= |p.ch.rows|
    ensures AddsOn(trace, next, longer)
  {
    var s := trace[|trace| - 1];
    if next == 0 {
      longer := trace;
    } else {
      var mid := ChangesAreRun(trace, next - 1);
      AfterOneMore(s.files, s.proc.ch.rows, next - 1);
      longer := OneRow(mid);
    }
  }

  lemma OneRow(trace: seq<State>) returns (longer: seq<State>)
    requires IsRun(trace) && AtRow(trace[|trace| - 1], false)
    ensures IsRun(longer) && trace <= longer
    ensures var s := trace[|trace| - 1]; var row := s.proc.ch.rows[s.proc.next];
      var half := s.files.(items := Appended(s.files.items, row));
      var both := half.(raw := Appended(s.files.raw, row));
      && longer[|longer| - 1] == s.(files := if row.key.Some? then both else s.files,
                                    proc := s.proc.(next := s.proc.next + 1))
      && (forall f, c :: Passed(trace, f, c) ==> Passed(longer, f, c))
      && (row.key.Some? ==> Passed(longer, half, s.ckpt) && Passed(longer, both, s.ckpt))
  {
    var s := trace[|trace| - 1];
    var row := s.proc.ch.rows[s.proc.next];
    if row.key.None? {
      var t := s.(proc := s.proc.(next := s.proc.next + 1));
      RunGrows(trace, PassRow, t);
      longer := trace + [t];
    } else {
      var a := s.(files := s.files.(items := Appended(s.files.items, row)), proc := s.proc.(half := true));
      var b := a.(files := a.files.(raw := Appended(a.files.raw, row)),
                  proc := a.proc.(half := false, next := s.proc.next + 1));
      RunGrows(trace, AddItems, a);
      RunGrows(trace + [a], AddRaw, b);
      longer := trace + [a] + [b];
    }
  }

  lemma {:induction false} KeyedCount(rows: seq<Row>)
    ensures Keyed(rows) == |KeyedRows(rows)|
  {
    if rows != [] {
      KeyedCount(rows[..|rows| - 1]);
    }
  }
}
