/**
 * Runs of `pull` that may also die inside a line (scripts/pull_tickets_and_comments.py:640-661,
 * 741-844): how many rows an unfinished line costs.
 */
module PullTorn {
  import opened Options
  import opened Landing
  import opened Paging
  import PullMachine
  import opened PullSafety

  // ---- the machine ----

  datatype State = State(file: File, proc: PullMachine.Proc)

  /** A step of the pager, or its end inside a line. */
  datatype Event = Does(step: PullMachine.Step) | Cut(torn: bool)

  /** The rows a run finds in the file. */
  function Found(f: File): seq<Row> {
    RowsOf(ReadLines(f))
  }

  predicate AtLine(p: PullMachine.Proc) {
    p.Writing? && p.done < |PullMachine.Fresh(p.c, p.p, p.seen, p.rows)|
  }

  function NextRow(p: PullMachine.Proc): Row
    requires AtLine(p)
  {
    PullMachine.Fresh(p.c, p.p, p.seen, p.rows)[p.done]
  }

  ghost predicate Takes(list: seq<Row>, s: State, e: Event, t: State) {
    match e
    case Does(Line) =>
      AtLine(s.proc) && t == State(Appended(s.file, NextRow(s.proc)), s.proc.(done := s.proc.done + 1))
    case Does(step) =>
      && t.file == s.file
      && PullMachine.Takes(Fixed(list), true, PullMachine.State(Found(s.file), s.proc), step,
                           PullMachine.State(Found(s.file), t.proc))
    case Cut(torn) =>
      AtLine(s.proc) && t == State(CutShort(s.file, NextRow(s.proc), torn), PullMachine.Idle)
  }

  function Fixed(list: seq<Row>): PullMachine.World {
    PullMachine.Fixed(list)
  }

  /** `events[i]` leads from `trace[i]` to `trace[i + 1]`. */
  ghost predicate IsRun(list: seq<Row>, trace: seq<State>, events: seq<Event>) {
    && |trace| == |events| + 1
    && forall i :: 0 <= i < |events| ==> Takes(list, trace[i], events[i], trace[i + 1])
  }

  function Cuts(events: seq<Event>): nat {
    if events == [] then 0 else Cuts(events[..|events| - 1]) + if events[|events| - 1].Cut? then 1 else 0
  }

  function Junks(lines: seq<Line>): nat {
    if lines == [] then 0 else Junks(lines[..|lines| - 1]) + if lines[|lines| - 1].Junk? then 1 else 0
  }

  // ---- the invariant ----

  ghost predicate AllFrom(rows: seq<Row>, list: seq<Row>, at: nat)
    requires at <= |list|
  {
    forall i :: 0 <= i < |rows| ==> rows[i] in list[..at]
  }

  /** Of the first `at` rows of the list all are there but two for every line that does not parse. */
  ghost predicate Known(list: seq<Row>, f: File, at: nat) {
    && f.File? && at <= |list| && ValidList(Found(f)) && AllFrom(Found(f), list, at)
    && at - |Found(f)| <= 2 * Junks(f.lines)
  }

  ghost predicate KnownAt(list: seq<Row>, s: State, at: nat) {
    Known(list, s.file, at) && PullSafety.Inv(list, PullMachine.State(list[..at], s.proc))
  }

  ghost predicate Inv(list: seq<Row>, s: State) {
    exists at: nat :: KnownAt(list, s, at)
  }

  // ---- what is found ----

  lemma {:induction false} FoundOneMore(lines: seq<Line>, line: Line)
    ensures RowsOf(lines + [line]) == RowsOf(lines) + (if line.Entry? then [line.row] else [])
    ensures Junks(lines + [line]) == Junks(lines) + if line.Junk? then 1 else 0
  {
    assert (lines + [line])[..|lines|] == lines;
  }

  /** What is found behind an append. */
  lemma FoundAppended(f: File, row: Row)
    requires f.File?
    ensures var g := Appended(f, row);
      && Found(g) == (if f.tail.Clean? then Found(f) + [row] else RowsOf(f.lines))
      && Junks(g.lines) == Junks(f.lines) + if f.tail.Clean? then 0 else 1
  {
    FoundOneMore(f.lines, if f.tail.Clean? then Entry(row) else Junk);
  }

  lemma FoundTail(f: File)
    requires f.File?
    ensures Found(f) == RowsOf(f.lines) + if f.tail.Unterminated? then [f.tail.row] else []
  {
    match f.tail
    case Clean =>
    case Torn => FoundOneMore(f.lines, Junk);
    case Unterminated(row) => FoundOneMore(f.lines, Entry(row));
  }

  lemma FoundCut(f: File, row: Row, torn: bool)
    requires f.File?
    ensures var g := CutShort(f, row, torn);
      && g.File? && g.lines == f.lines
      && Found(g) == if f.tail.Clean? && !torn then Found(f) + [row] else RowsOf(f.lines)
  {
    FoundTail(f);
    FoundTail(CutShort(f, row, torn));
  }

  lemma SmallerIsBefore(list: seq<Row>, j: nat, k: nat)
    requires ValidList(list) && j < |list| && k < |list| && list[j].key.value < list[k].key.value
    ensures j < k
  {
    assert k < j ==> Ascends(list, k, j);
  }

  /** The last found row's place in the list is behind all the others'. */
  lemma PlaceOfLast(list: seq<Row>, rows: seq<Row>, at: nat) returns (k: nat)
    requires ValidList(list) && at <= |list| && rows != [] && ValidList(rows) && AllFrom(rows, list, at)
    ensures k < at && list[k] == rows[|rows| - 1]
    ensures AllFrom(rows[..|rows| - 1], list, k)
  {
    var n := |rows| - 1;
    assert rows[n] in list[..at];
    k :| 0 <= k < at && list[..at][k] == rows[n];
    forall i | 0 <= i < n ensures rows[..n][i] in list[..k] {
      assert Ascends(rows, i, n) && rows[i] in list[..at];
      var j :| 0 <= j < at && list[..at][j] == rows[i];
      SmallerIsBefore(list, j, k);
      assert j < k && list[..k][j] == rows[i];
    }
  }

  lemma MoreFrom(rows: seq<Row>, list: seq<Row>, at: nat)
    requires at < |list| && AllFrom(rows, list, at)
    ensures AllFrom(rows, list, at + 1)
  {
    forall i | 0 <= i < |rows| ensures rows[i] in list[..at + 1] {
      assert rows[i] in list[..at] && list[..at + 1] == list[..at] + [list[at]];
    }
  }

  lemma NextIsValid(list: seq<Row>, rows: seq<Row>, at: nat)
    requires ValidList(list) && at < |list| && ValidList(rows) && AllFrom(rows, list, at)
    ensures ValidList(rows + [list[at]]) && AllFrom(rows + [list[at]], list, at + 1)
  {
    var all := rows + [list[at]];
    MoreFrom(rows, list, at);
    assert list[at] in list[..at + 1] by {
      assert list[..at + 1][at] == list[at];
    }
    forall i, j | 0 <= i < j < |all| ensures Ascends(all, i, j) {
      if j < |rows| {
        assert Ascends(rows, i, j);
      } else {
        assert rows[i] in list[..at];
        var k :| 0 <= k < at && list[..at][k] == rows[i];
        assert Ascends(list, k, at);
      }
    }
  }

  // ---- steps ----

  /** One more row of the list is written, behind whatever the file ends in. */
  lemma KnownAppended(list: seq<Row>, f: File, at: nat)
    requires ValidList(list) && Known(list, f, at) && at < |list|
    ensures Known(list, Appended(f, list[at]), at + 1)
  {
    FoundAppended(f, list[at]);
    FoundTail(f);
    if f.tail.Clean? {
      NextIsValid(list, Found(f), at);
    } else {
      FrontIsKnown(list, f, at);
      MoreFrom(RowsOf(f.lines), list, at);
    }
  }

  lemma FrontIsKnown(list: seq<Row>, f: File, at: nat)
    requires Known(list, f, at)
    ensures ValidList(RowsOf(f.lines)) && AllFrom(RowsOf(f.lines), list, at)
    ensures |Found(f)| == |RowsOf(f.lines)| + if f.tail.Unterminated? then 1 else 0
  {
    FoundTail(f);
    var n := |RowsOf(f.lines)|;
    SliceValid(Found(f), 0, n);
    assert Found(f)[0..n] == RowsOf(f.lines);
    forall i | 0 <= i < n ensures RowsOf(f.lines)[i] in list[..at] {
      assert Found(f)[i] == RowsOf(f.lines)[i];
    }
  }

  /** The process dies in a line. */
  lemma KnownCut(list: seq<Row>, f: File, at: nat, torn: bool) returns (at': nat)
    requires ValidList(list) && Known(list, f, at) && at < |list|
    ensures Known(list, CutShort(f, list[at], torn), at')
  {
    FoundCut(f, list[at], torn);
    FoundTail(f);
    FrontIsKnown(list, f, at);
    if f.tail.Clean? && !torn {
      NextIsValid(list, Found(f), at);
      at' := at + 1;
    } else if f.tail.Unterminated? {
      at' := PlaceOfLast(list, Found(f), at);
      assert Found(f)[..|Found(f)| - 1] == RowsOf(f.lines);
    } else {
      at' := at;
    }
  }

  /** A run starts behind the greatest id it finds. */
  lemma {:induction false} KnownAtStart(list: seq<Row>, f: File, at: nat)
    requires ValidList(list) && Known(list, f, at)
    ensures Known(list, f, Behind(list, PullMachine.Highest(Found(f))))
    ensures PullMachine.Highest(list[..Behind(list, PullMachine.Highest(Found(f)))]) == PullMachine.Highest(Found(f))
  {
    var rows := Found(f);
    HighestIsLast(rows);
    if rows == [] {
      BehindUnique(list, 0, 0);
    } else {
      var k := PlaceOfLast(list, rows, at);
      MarksBehind(list, k + 1);
      SliceValid(list, 0, k + 1);
      HighestIsLast(list[..k + 1]);
      assert rows == rows[..|rows| - 1] + [list[k]];
      MoreFrom(rows[..|rows| - 1], list, k);
      assert list[..k + 1][k] == list[k];
    }
  }

  lemma StartTorn(list: seq<Row>, s: State, c: PullMachine.Config, t: State)
    requires ValidList(list) && Inv(list, s) && Takes(list, s, Does(PullMachine.Start(c)), t)
    ensures Inv(list, t)
  {
    var at: nat :| KnownAt(list, s, at);
    KnownAtStart(list, s.file, at);
    var at' := Behind(list, PullMachine.Highest(Found(s.file)));
    var before := PullMachine.State(list[..at'], s.proc);
    assert PullSafety.Inv(list, before.(proc := PullMachine.Idle));
    var after := before.(proc := t.proc);
    assert PullMachine.Takes(Fixed(list), true, before.(proc := PullMachine.Idle), PullMachine.Start(c), after);
    StartStep(list, before.(proc := PullMachine.Idle), c, after);
    assert KnownAt(list, t, at');
  }

  lemma QuietStep(list: seq<Row>, s: State, step: PullMachine.Step, t: State)
    requires ValidList(list) && Inv(list, s) && Takes(list, s, Does(step), t)
    requires step.Ask? || step.EndPage? || step.Kill?
    ensures Inv(list, t)
  {
    var at: nat :| KnownAt(list, s, at);
    var before, after := PullMachine.State(list[..at], s.proc), PullMachine.State(list[..at], t.proc);
    assert PullMachine.Takes(Fixed(list), true, before, step, after);
    assert PullMachine.Next(Fixed(list), true, before, after);
    PullSafety.StepKeepsInv(list, before, after);
    assert KnownAt(list, t, at);
  }

  /** The row that is written next is the next one of the list. */
  lemma NextOfList(list: seq<Row>, at: nat, p: PullMachine.Proc)
    requires ValidList(list) && at <= |list| && PullSafety.Inv(list, PullMachine.State(list[..at], p)) && AtLine(p)
    ensures at < |list| && NextRow(p) == list[at]
    ensures PullSafety.Inv(list, PullMachine.State(list[..at + 1], p.(done := p.done + 1)))
  {
    var before := PullMachine.State(list[..at], p);
    var after := PullMachine.State(list[..at] + [NextRow(p)], p.(done := p.done + 1));
    assert PullMachine.Takes(Fixed(list), true, before, PullMachine.Line, after);
    LineStep(list, before, after);
    assert after.file[at] == NextRow(p) && |after.file| == at + 1;
  }

  lemma LineTorn(list: seq<Row>, s: State, t: State)
    requires ValidList(list) && Inv(list, s) && Takes(list, s, Does(PullMachine.Line), t)
    ensures Inv(list, t)
  {
    var at: nat :| KnownAt(list, s, at);
    NextOfList(list, at, s.proc);
    KnownAppended(list, s.file, at);
    assert KnownAt(list, t, at + 1);
  }

  lemma CutTorn(list: seq<Row>, s: State, torn: bool, t: State)
    requires ValidList(list) && Inv(list, s) && Takes(list, s, Cut(torn), t)
    ensures Inv(list, t)
  {
    var at: nat :| KnownAt(list, s, at);
    NextOfList(list, at, s.proc);
    var at' := KnownCut(list, s.file, at, torn);
    assert KnownAt(list, t, at');
  }

  lemma StepKeepsInv(list: seq<Row>, s: State, e: Event, t: State)
    requires ValidList(list) && Inv(list, s) && Takes(list, s, e, t)
    ensures Inv(list, t)
  {
    match e
    case Does(Start(c)) => StartTorn(list, s, c, t);
    case Does(Line) => LineTorn(list, s, t);
    case Does(step) => QuietStep(list, s, step, t);
    case Cut(torn) => CutTorn(list, s, torn, t);
  }

  /** Every run starts from a file that holds a beginning of the list. */
  ghost predicate TornRuns(list: seq<Row>, trace: seq<State>, events: seq<Event>) {
    && ValidList(list) && IsRun(list, trace, events) && trace[0].proc.Idle?
    && exists n :: 0 <= n <= |list| && trace[0].file == Whole(list[..n])
  }

  lemma {:induction false} WholeIsFound(rows: seq<Row>)
    ensures Found(Whole(rows)) == rows && Junks(Entries(rows)) == 0
  {
    if rows != [] {
      var n := |rows| - 1;
      WholeIsFound(rows[..n]);
      assert Entries(rows) == Entries(rows[..n]) + [Entry(rows[n])];
      FoundOneMore(Entries(rows[..n]), Entry(rows[n]));
    }
  }

  lemma CleanStart(list: seq<Row>, trace: seq<State>, events: seq<Event>)
    requires TornRuns(list, trace, events)
    ensures Inv(list, trace[0])
  {
    var n: nat :| n <= |list| && trace[0].file == Whole(list[..n]);
    WholeIsFound(list[..n]);
    SliceValid(list, 0, n);
    assert KnownAt(list, trace[0], n);
  }

  lemma {:induction false} RunKeepsInv(list: seq<Row>, trace: seq<State>, events: seq<Event>, i: nat)
    requires TornRuns(list, trace, events) && i < |trace|
    ensures Inv(list, trace[i])
  {
    if i == 0 {
      CleanStart(list, trace, events);
    } else {
      RunKeepsInv(list, trace, events, i - 1);
      assert Takes(list, trace[i - 1], events[i - 1], trace[i]);
      StepKeepsInv(list, trace[i - 1], events[i - 1], trace[i]);
    }
  }

  // ---- what it costs ----

  /** An unfinished line is one line that will not parse. */
  function Spoiled(f: File): nat
    requires f.File?
  {
    Junks(f.lines) + if f.tail.Clean? then 0 else 1
  }

  lemma SpoiledStep(list: seq<Row>, s: State, e: Event, t: State)
    requires s.file.File? && Takes(list, s, e, t)
    ensures t.file.File? && Spoiled(t.file) <= Spoiled(s.file) + if e.Cut? then 1 else 0
  {
    match e
    case Does(Line) => FoundAppended(s.file, NextRow(s.proc));
    case Cut(torn) => FoundCut(s.file, NextRow(s.proc), torn);
    case _ =>
  }

  lemma {:induction false} SpoiledByCuts(list: seq<Row>, trace: seq<State>, events: seq<Event>, i: nat)
    requires TornRuns(list, trace, events) && i < |trace|
    ensures trace[i].file.File? && Spoiled(trace[i].file) <= Cuts(events[..i])
  {
    if i == 0 {
      var n: nat :| n <= |list| && trace[0].file == Whole(list[..n]);
      WholeIsFound(list[..n]);
    } else {
      SpoiledByCuts(list, trace, events, i - 1);
      assert Takes(list, trace[i - 1], events[i - 1], trace[i]);
      SpoiledStep(list, trace[i - 1], events[i - 1], trace[i]);
      assert events[..i][..i - 1] == events[..i - 1];
    }
  }

  /** The rows that can be read are rows of the list, in order, none twice; and of the rows up to the
      last of them at most `missing` are not there. */
  ghost predicate LacksFew(list: seq<Row>, found: seq<Row>, missing: nat) {
    && ValidList(found) && (forall i :: 0 <= i < |found| ==> found[i] in list)
    && (forall id :: CountId(found, id) <= 1)
    && Behind(list, LastId(found)) - |found| <= missing
  }

  lemma InvLacksFew(list: seq<Row>, s: State)
    requires ValidList(list) && Inv(list, s)
    ensures s.file.File? && LacksFew(list, Found(s.file), 2 * Junks(s.file.lines))
    ensures s.proc == PullMachine.Ended(PullMachine.Exhausted) ==>
      |list| - |Found(s.file)| <= 2 * Junks(s.file.lines)
  {
    var at: nat :| KnownAt(list, s, at);
    var found := Found(s.file);
    KnownAtStart(list, s.file, at);
    HighestIsLast(found);
    forall id ensures CountId(found, id) <= 1 {
      OnceInList(found, id);
    }
    forall i | 0 <= i < |found| ensures found[i] in list {
      assert found[i] in list[..at];
    }
  }

  /**
   * Over any number of runs, killed after a line or inside one: what can be read is rows of the list,
   * in order and none twice; and of the rows up to the last of them no more are missing than two for
   * every time a run died inside a line. A run that ends by itself has all the others.
   */
  lemma FewAreLost(list: seq<Row>, trace: seq<State>, events: seq<Event>, i: nat)
    requires TornRuns(list, trace, events) && i < |trace|
    ensures LacksFew(list, Found(trace[i].file), 2 * Cuts(events[..i]))
    ensures trace[i].proc == PullMachine.Ended(PullMachine.Exhausted) ==>
      |list| - |Found(trace[i].file)| <= 2 * Cuts(events[..i])
  {
    RunKeepsInv(list, trace, events, i);
    SpoiledByCuts(list, trace, events, i);
    InvLacksFew(list, trace[i]);
  }

  // ---- the bound is met ----

  ghost predicate ReachedBy(list: seq<Row>, s: State, cuts: nat, trace: seq<State>, events: seq<Event>) {
    TornRuns(list, trace, events) && trace[|trace| - 1] == s && Cuts(events) == cuts
  }

  ghost predicate Reached(list: seq<Row>, s: State, cuts: nat) {
    exists trace, events :: ReachedBy(list, s, cuts, trace, events)
  }

  lemma GoesOn(list: seq<Row>, s: State, cuts: nat, e: Event, t: State)
    requires Reached(list, s, cuts) && Takes(list, s, e, t)
    ensures Reached(list, t, cuts + if e.Cut? then 1 else 0)
  {
    var trace, events :| ReachedBy(list, s, cuts, trace, events);
    assert (events + [e])[..|events|] == events;
    assert ReachedBy(list, t, cuts + if e.Cut? then 1 else 0, trace + [t], events + [e]);
  }

  const KEYED := PullMachine.Config(true, 50, None, [])

  function AsksBehind(last: int): PullMachine.Proc {
    PullMachine.Asking(KEYED, AskPager(last, 0, 0), last)
  }

  function AskPager(last: int, pages: nat, written: nat): PullMachine.Pager {
    PullMachine.Pager(PullMachine.KeyPage(last, 50, []), true, [], 50, last, pages, written)
  }

  lemma ListOfTwo(r1: Row, r2: Row)
    requires r1.key == Some(1) && r2.key == Some(2)
    ensures ValidList([r1, r2])
    ensures Behind([r1, r2], 0) == 0 && Behind([r1, r2], 1) == 1 && Behind([r1, r2], 2) == 2
    ensures MaxId([r2]) == Some(2)
  {
    assert [r1, r2][1..] == [r2] && [r2][1..] == [] && [r2][..0] == [];
    assert Behind([r2], 1) == 0 && Behind([r2], 2) == 1;
  }

  /** The first run dies when all of the first line but its newline is written. */
  lemma FirstRunDies(r1: Row, r2: Row)
    requires r1.key == Some(1) && r2.key == Some(2)
    ensures Reached([r1, r2], State(File([], Unterminated(r1)), PullMachine.Idle), 1)
  {
    var list, a := [r1, r2], State(Whole([]), PullMachine.Idle);
    ListOfTwo(r1, r2);
    assert Whole([]) == File([], Clean) && list[..0] == [] && a.file == Whole(list[..0]);
    assert ReachedBy(list, a, 0, [a], []);
    var b := a.(proc := AsksBehind(0));
    GoesOn(list, a, 0, Does(PullMachine.Start(KEYED)), b);
    var c := a.(proc := PullMachine.Writing(KEYED, AskPager(0, 0, 0), 0, list, None, 0));
    assert list[0..2] == list;
    GoesOn(list, b, 0, Does(PullMachine.Ask(PullMachine.Page(list, None))), c);
    GoesOn(list, c, 0, Cut(false), State(File([], Unterminated(r1)), PullMachine.Idle));
  }

  /** The next run takes the unfinished row for a row, and asks for what is behind it. */
  lemma {:induction false} SecondRunStarts(r1: Row, r2: Row)
    requires r1.key == Some(1) && r2.key == Some(2)
    ensures Reached([r1, r2], State(File([], Unterminated(r1)), AsksBehind(1)), 1)
  {
    var a := State(File([], Unterminated(r1)), PullMachine.Idle);
    FirstRunDies(r1, r2);
    FoundTail(a.file);
    assert Found(a.file) == [r1] && PullMachine.Highest([]) == 0 && [r1][..0] == [];
    GoesOn([r1, r2], a, 1, Does(PullMachine.Start(KEYED)), State(a.file, AsksBehind(1)));
  }

  lemma {:induction false} SecondRunReads(r1: Row, r2: Row)
    requires r1.key == Some(1) && r2.key == Some(2)
    ensures Reached([r1, r2], State(File([], Unterminated(r1)),
                                    PullMachine.Writing(KEYED, AskPager(1, 0, 0), 1, [r2], None, 0)), 1)
  {
    var list, f := [r1, r2], File([], Unterminated(r1));
    ListOfTwo(r1, r2);
    SecondRunStarts(r1, r2);
    assert list[1..2] == [r2];
    GoesOn(list, State(f, AsksBehind(1)), 1, Does(PullMachine.Ask(PullMachine.Page([r2], None))),
           State(f, PullMachine.Writing(KEYED, AskPager(1, 0, 0), 1, [r2], None, 0)));
  }

  /** One death inside a line can cost two rows, and no later run brings them back: the next one writes
      the second row onto the unfinished first. */
  lemma {:induction false} TwoAreLost(r1: Row, r2: Row)
    requires r1.key == Some(1) && r2.key == Some(2)
    ensures Reached([r1, r2], State(File([Junk], Clean), PullMachine.Ended(PullMachine.Exhausted)), 1)
    ensures Found(File([Junk], Clean)) == []
  {
    var p := PullMachine.Writing(KEYED, AskPager(1, 0, 0), 1, [r2], None, 0);
    SecondRunReads(r1, r2);
    assert AtLine(p) && NextRow(p) == r2;
    assert Appended(File([], Unterminated(r1)), r2) == File([Junk], Clean);
    GoesOn([r1, r2], State(File([], Unterminated(r1)), p), 1, Does(PullMachine.Line),
           State(File([Junk], Clean), p.(done := 1)));
    LastPages(r1, r2, File([Junk], Clean));
    FoundOneMore([], Junk);
  }

  lemma {:induction false} LastPages(r1: Row, r2: Row, f: File)
    requires r1.key == Some(1) && r2.key == Some(2)
    requires Reached([r1, r2], State(f, PullMachine.Writing(KEYED, AskPager(1, 0, 0), 1, [r2], None, 1)), 1)
    ensures Reached([r1, r2], State(f, PullMachine.Ended(PullMachine.Exhausted)), 1)
  {
    var list := [r1, r2];
    ListOfTwo(r1, r2);
    var d := State(f, PullMachine.Writing(KEYED, AskPager(1, 0, 0), 1, [r2], None, 1));
    var e := State(f, PullMachine.Asking(KEYED, AskPager(2, 1, 1), 1));
    GoesOn(list, d, 1, Does(PullMachine.EndPage), e);
    assert list[2..2] == [];
    GoesOn(list, e, 1, Does(PullMachine.Ask(PullMachine.Page([], None))),
           State(f, PullMachine.Ended(PullMachine.Exhausted)));
  }
}
