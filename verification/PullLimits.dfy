/** Where `pull` does not keep every row exactly once, and exactly when. */
module PullLimits {
  import opened Landing
  import opened PullMachine
  import opened PullSafety

  // ---- collections without a key ----

  /** One process from its start to its last state. */
  ghost predicate OneProcess(trace: seq<State>) {
    |trace| > 1 && forall i :: 0 < i < |trace| - 1 ==> trace[i].proc.Asking? || trace[i].proc.Writing?
  }

  ghost predicate KeylessInv(list: seq<Row>, before: seq<Row>, s: State) {
    match s.proc
    case Idle => s.file == before
    case Ended(ending) => ending == Exhausted ==> s.file == before + list
    case Asking(c, p, seen) => KeylessAt(list, before, c, p, s.file, 0)
    case Writing(c, p, seen, rows, next, done) =>
      && KeylessAt(list, before, c, p, s.file, done) && done <= |rows| && rows != []
      && CanAnswer(Fixed(list), p.url, Page(rows, next))
  }

  ghost predicate KeylessAt(list: seq<Row>, before: seq<Row>, c: Config, p: Pager, file: seq<Row>, done: nat) {
    && !c.hasKey && !p.keyed && !p.url.KeyPage? && (p.pages == 0 ==> p.url.Plain?)
    && Position(p.url) + done <= |list| && file == before + list[..Position(p.url) + done]
  }

  lemma KeylessStep(list: seq<Row>, before: seq<Row>, s: State, t: State)
    requires KeylessInv(list, before, s) && Next(Fixed(list), false, s, t)
    requires s.proc.Ended? ==> s.file == before
    requires !t.proc.Idle?
    ensures KeylessInv(list, before, t)
  {
    var e :| Takes(Fixed(list), false, s, e, t);
    assert before + list[..0] == before && list[..|list|] == list;
    if e.Line? {
      var at := Position(s.proc.p.url) + s.proc.done;
      assert s.proc.rows[s.proc.done] == list[at];
      assert list[..at] + [list[at]] == list[..at + 1];
    }
  }

  lemma {:induction false} KeylessRun(list: seq<Row>, trace: seq<State>, i: nat)
    requires IsRun(Fixed(list), false, trace) && OneProcess(trace) && trace[0].proc.Idle?
    requires i < |trace| && (i == |trace| - 1 ==> !trace[i].proc.Idle?)
    ensures KeylessInv(list, trace[0].file, trace[i])
  {
    if i > 0 {
      KeylessRun(list, trace, i - 1);
      KeylessStep(list, trace[0].file, trace[i - 1], trace[i]);
    }
  }

  /** Without a key there is nothing to resume from and nothing to skip by: a run that ends by
      itself appends the whole list, so the file holds the list once exactly when it was
      empty before. */
  lemma KeylessOnceExactly(list: seq<Row>, trace: seq<State>)
    requires IsRun(Fixed(list), false, trace) && OneProcess(trace) && trace[0].proc.Idle?
    requires trace[|trace| - 1].proc == Ended(Exhausted)
    ensures trace[|trace| - 1].file == trace[0].file + list
    ensures trace[|trace| - 1].file == list <==> trace[0].file == []
  {
    KeylessRun(list, trace, |trace| - 1);
    if trace[0].file == [] {
      assert [] + list == list;
    } else {
      assert |trace[|trace| - 1].file| > |list|;
    }
  }

  // ---- an unfinished last line ----

  /** What appending these rows makes of a file, whatever it ends in. */
  function AppendAll(f: File, rows: seq<Row>): File {
    if rows == [] then f else Appended(AppendAll(f, rows[..|rows| - 1]), rows[|rows| - 1])
  }

  lemma {:induction false} AppendAllLines(f: File, rows: seq<Row>)
    requires f.File? && rows != []
    ensures AppendAll(f, rows) ==
            File(f.lines + [if f.tail.Clean? then Entry(rows[0]) else Junk] + Entries(rows[1..]), Clean)
  {
    var n := |rows| - 1;
    if n == 0 {
      assert Entries(rows[1..]) == [];
    } else {
      AppendAllLines(f, rows[..n]);
      assert Entries(rows[1..]) == Entries(rows[..n][1..]) + [Entry(rows[n])];
    }
  }

  lemma {:induction false} FinishedKeepsAll(lines: seq<Line>, rows: seq<Row>)
    ensures AppendAll(File(lines, Clean), rows) == File(lines + Entries(rows), Clean)
  {
    if rows == [] {
      assert lines + Entries(rows) == lines;
    } else {
      var n := |rows| - 1;
      FinishedKeepsAll(lines, rows[..n]);
      assert Entries(rows) == Entries(rows[..n]) + [Entry(rows[n])];
      assert lines + Entries(rows[..n]) + [Entry(rows[n])] == lines + Entries(rows);
    }
  }

  lemma {:induction false} LineCount(f: File, rows: seq<Row>)
    requires f.File? && rows != []
    ensures |ReadLines(AppendAll(f, rows))| == |f.lines| + |rows|
  {
    AppendAllLines(f, rows);
  }

  /** `pull` does not repair an unfinished line: its first row is glued onto it and lost. All
      appended rows are readable behind what was there exactly when the file ended in a
      finished line, or nothing was appended. */
  lemma {:induction false} AppendsIntactExactly(f: File, rows: seq<Row>)
    requires f.File?
    ensures ReadLines(AppendAll(f, rows)) == ReadLines(f) + Entries(rows) <==> f.tail.Clean? || rows == []
  {
    if rows == [] {
      assert ReadLines(f) + Entries(rows) == ReadLines(f);
    } else {
      LineCount(f, rows);
      FinishedKeepsAll(f.lines, rows);
      assert f.tail.Clean? ==> f == File(f.lines, Clean);
      assert |ReadLines(f) + Entries(rows)| == |ReadLines(f)| + |rows|;
    }
  }
}
