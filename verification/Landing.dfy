/**
 * The two JSONL files of one list (src/spconnect/landing.py).
 *
 * A file is a sequence of newline-terminated lines followed by a tail, because a
 * killed process can leave two different kinds of unfinished last line: one that
 * does not parse, and one that is whole but for its newline. The second kind parses,
 * so a reader takes it for an ordinary row, while the next append is glued onto it.
 */
module Landing {
  import opened Options

  /** One server row: the id every reader finds in it (if any), and the rest. */
  datatype Row = Row(key: Option<int>, body: string)

  datatype Line = Entry(row: Row) | Junk | Blank

  datatype Tail = Clean | Torn | Unterminated(row: Row)

  datatype File = Absent | File(lines: seq<Line>, tail: Tail)

  /** Which parsed lines a rewrite keeps. */
  datatype Rule = UpTo(last: int) | Without(ids: set<int>)

  /** The on-disk content of one list directory. */
  datatype Files = Files(items: File, raw: File)

  // ---- reading ----

  /** What iterating over the open file yields; a missing file yields nothing. */
  function ReadLines(f: File): seq<Line> {
    match f
    case Absent => []
    case File(lines, Clean) => lines
    case File(lines, Torn) => lines + [Junk]
    case File(lines, Unterminated(row)) => lines + [Entry(row)]
  }

  /** The rows that can be read. */
  function RowsOf(lines: seq<Line>): seq<Row> {
    if lines == [] then [] else
      var before := RowsOf(lines[..|lines| - 1]);
      if lines[|lines| - 1].Entry? then before + [lines[|lines| - 1].row] else before
  }

  /** A row without a usable id is dropped by a truncation and kept by a delete. */
  predicate Keeps(rule: Rule, line: Line) {
    line.Entry? &&
    match rule
    case UpTo(last) => line.row.key.Some? && line.row.key.value <= last
    case Without(ids) => line.row.key.None? || line.row.key.value !in ids
  }

  function Kept(lines: seq<Line>, rule: Rule): seq<Line> {
    if lines == [] then [] else
      var before := Kept(lines[..|lines| - 1], rule);
      if Keeps(rule, lines[|lines| - 1]) then before + [lines[|lines| - 1]] else before
  }

  /** Blank lines are skipped without being counted. */
  function Dropped(lines: seq<Line>, rule: Rule): nat {
    if lines == [] then 0 else
      Dropped(lines[..|lines| - 1], rule) +
      if lines[|lines| - 1].Blank? || Keeps(rule, lines[|lines| - 1]) then 0 else 1
  }

  // ---- effects ----

  function Removals(f: File, rule: Rule): nat {
    Dropped(ReadLines(f), rule)
  }

  /** The file is replaced only when something was counted as removed. */
  function Rewritten(f: File, rule: Rule): File {
    if Removals(f, rule) == 0 then f else File(Kept(ReadLines(f), rule), Clean)
  }

  function Opened(f: File): File {
    if f.Absent? then File([], Clean) else f
  }

  /** One whole line in append mode. Behind an unfinished line the text is glued on, and
      two JSON documents on one line do not parse. */
  function Appended(f: File, row: Row): File {
    var g := Opened(f);
    File(g.lines + [if g.tail.Clean? then Entry(row) else Junk], Clean)
  }

  /** The process dies inside that append: either part of the text is there, or all of it
      but the newline. */
  function CutShort(f: File, row: Row, torn: bool): File {
    var g := Opened(f);
    File(g.lines, if torn || !g.tail.Clean? then Torn else Unterminated(row))
  }

  // ---- what the effects mean ----

  function Entries(rows: seq<Row>): (lines: seq<Line>)
    ensures |lines| == |rows|
    ensures forall i :: 0 <= i < |rows| ==> lines[i] == Entry(rows[i])
  {
    seq(|rows|, i requires 0 <= i < |rows| => Entry(rows[i]))
  }

  /** A file holding exactly these rows, every line finished. */
  function Whole(rows: seq<Row>): File {
    File(Entries(rows), Clean)
  }

  lemma {:induction false} KeptConcat(a: seq<Line>, b: seq<Line>, rule: Rule)
    ensures Kept(a + b, rule) == Kept(a, rule) + Kept(b, rule)
    ensures Dropped(a + b, rule) == Dropped(a, rule) + Dropped(b, rule)
  {
    if b == [] {
      assert a + b == a;
    } else {
      var n := |b| - 1;
      assert (a + b)[..|a + b| - 1] == a + b[..n];
      KeptConcat(a, b[..n], rule);
    }
  }

  lemma {:induction false} KeptAll(lines: seq<Line>, rule: Rule)
    requires forall i :: 0 <= i < |lines| ==> Keeps(rule, lines[i])
    ensures Kept(lines, rule) == lines && Dropped(lines, rule) == 0
  {
    if lines != [] {
      KeptAll(lines[..|lines| - 1], rule);
    }
  }

  lemma {:induction false} KeptNone(lines: seq<Line>, rule: Rule)
    requires forall i :: 0 <= i < |lines| ==> !lines[i].Blank? && !Keeps(rule, lines[i])
    ensures Kept(lines, rule) == [] && Dropped(lines, rule) == |lines|
  {
    if lines != [] {
      KeptNone(lines[..|lines| - 1], rule);
    }
  }

  /** Recovery: whatever unfinished or surplus text follows them, a rewrite brings a file
      back to exactly the lines it should keep. */
  lemma RewriteRecovers(f: File, keep: seq<Row>, surplus: seq<Line>, rule: Rule)
    requires ReadLines(f) == Entries(keep) + surplus
    requires forall i :: 0 <= i < |keep| ==> Keeps(rule, Entry(keep[i]))
    requires forall i :: 0 <= i < |surplus| ==> !surplus[i].Blank? && !Keeps(rule, surplus[i])
    requires surplus == [] ==> f == Whole(keep)
    ensures Rewritten(f, rule) == Whole(keep)
    ensures Removals(f, rule) == |surplus|
  {
    KeptConcat(Entries(keep), surplus, rule);
    KeptAll(Entries(keep), rule);
    KeptNone(surplus, rule);
    assert Entries(keep) + [] == Entries(keep);
  }

  /** A second rewrite under the same rule finds nothing to do. */
  lemma {:induction false} KeptTwice(lines: seq<Line>, rule: Rule)
    ensures Kept(Kept(lines, rule), rule) == Kept(lines, rule)
    ensures Dropped(Kept(lines, rule), rule) == 0
  {
    if lines != [] {
      var before := lines[..|lines| - 1];
      KeptTwice(before, rule);
      if Keeps(rule, lines[|lines| - 1]) {
        KeptConcat(Kept(before, rule), [lines[|lines| - 1]], rule);
        KeptAll([lines[|lines| - 1]], rule);
      }
    }
  }

  lemma RewriteIdempotent(f: File, rule: Rule)
    ensures Rewritten(Rewritten(f, rule), rule) == Rewritten(f, rule)
    ensures Removals(Rewritten(f, rule), rule) == 0
  {
    KeptTwice(ReadLines(f), rule);
  }

  // ---- the writer ----

  /** `_truncate_jsonl` and `_filter_jsonl`: one pass that collects what stays. */
  method RewriteFile(f: File, rule: Rule) returns (after: File, removed: nat)
    ensures after == Rewritten(f, rule)
    ensures removed == Removals(f, rule)
  {
    removed := 0;
    if f.Absent? {
      return f, 0;
    }
    var lines := ReadLines(f);
    var keep: seq<Line> := [];
    for i := 0 to |lines|
      invariant keep == Kept(lines[..i], rule)
      invariant removed == Dropped(lines[..i], rule)
    {
      assert lines[..i + 1][..i] == lines[..i];
      if lines[i].Blank? {
        continue;
      }
      if Keeps(rule, lines[i]) {
        keep := keep + [lines[i]];
      } else {
        removed := removed + 1;
      }
    }
    assert lines[..|lines|] == lines;
    after := if removed > 0 then File(keep, Clean) else f;
  }

  // ---- a page of rows ----

  /** Both files after these rows have been written; rows without an id are passed over. */
  function AfterRows(files: Files, rows: seq<Row>): Files {
    if rows == [] then files else
      var before, row := AfterRows(files, rows[..|rows| - 1]), rows[|rows| - 1];
      if row.key.None? then before else Files(Appended(before.items, row), Appended(before.raw, row))
  }

  /** What is on disk after each single append of such a page. */
  function PageEffects(files: Files, rows: seq<Row>): seq<Files> {
    if rows == [] then [] else
      var before, row := AfterRows(files, rows[..|rows| - 1]), rows[|rows| - 1];
      PageEffects(files, rows[..|rows| - 1]) +
      if row.key.None? then [] else [before.(items := Appended(before.items, row)), AfterRows(files, rows)]
  }

  lemma {:induction false} AfterOneMore(files: Files, rows: seq<Row>, n: nat)
    requires n < |rows|
    ensures var before, row := AfterRows(files, rows[..n]), rows[n];
      && AfterRows(files, rows[..n + 1]) ==
           (if row.key.None? then before else Files(Appended(before.items, row), Appended(before.raw, row)))
      && PageEffects(files, rows[..n + 1]) == PageEffects(files, rows[..n]) +
           (if row.key.None? then [] else
              [before.(items := Appended(before.items, row)), AfterRows(files, rows[..n + 1])])
  {
    assert rows[..n + 1][..n] == rows[..n];
  }

  // ---- what is counted ----

  /** Lines that a rule neither keeps nor passes over as blank. */
  ghost function Unwanted(lines: seq<Line>, rule: Rule): set<int> {
    set i | 0 <= i < |lines| && lines[i] != Blank && !Keeps(rule, lines[i])
  }

  /** A rewrite counts exactly the lines that are not blank and not kept; without any it leaves the file
      alone, otherwise nothing but kept lines is left, every one of them finished. */
  lemma {:induction false} DroppedExactly(lines: seq<Line>, rule: Rule)
    ensures Dropped(lines, rule) == |Unwanted(lines, rule)|
  {
    if lines != [] {
      var n := |lines| - 1;
      DroppedExactly(lines[..n], rule);
      var more: set<int> := if lines[n] != Blank && !Keeps(rule, lines[n]) then {n} else {};
      assert Unwanted(lines, rule) == Unwanted(lines[..n], rule) + more;
    }
  }

  /** Which lines a truncation and a delete keep. */
  lemma KeepsExactly(line: Line, last: int, ids: set<int>)
    ensures Keeps(UpTo(last), line) <==> exists row, id :: line == Entry(row) && row.key == Some(id) && id <= last
    ensures Keeps(Without(ids), line) <==>
              exists row :: line == Entry(row) && forall id :: id in ids ==> row.key != Some(id)
  {
    if Keeps(UpTo(last), line) {
      assert line == Entry(line.row) && line.row.key == Some(line.row.key.value);
    }
    if Keeps(Without(ids), line) {
      assert line == Entry(line.row);
    }
  }
}
