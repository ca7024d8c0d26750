/**
 * Any number of `pull` runs over one file, killed after any line, refused at any page, and
 * falling back to continuation paging wherever they do: the file is always a prefix of the
 * server's list, and a run that ends by itself has all of it.
 */
module PullSafety {
  import opened Options
  import opened Landing
  import opened Paging
  import opened PullMachine

  ghost predicate IsPrefix(file: seq<Row>, list: seq<Row>) {
    |file| <= |list| && file == list[..|file|]
  }

  function Max(a: nat, b: nat): nat {
    if a > b then a else b
  }

  /** The position a continuation URL stands for. */
  function Position(url: Url): nat {
    if url.Link? then url.token else 0
  }

  /** `id` is the checkpoint behind the first `n` rows. */
  ghost predicate Marks(list: seq<Row>, id: int, n: nat) {
    n <= |list| && Behind(list, id) == n && id == LastId(list[..n])
  }

  /** Where the rows of the next page belong: `file` ends right before them. */
  ghost predicate Ready(list: seq<Row>, p: Pager, seen: int, at: nat) {
    && p.size > 0 && Marks(list, seen, Behind(list, seen)) && at <= |list|
    && (p.pages == 0 ==> at == Behind(list, seen))
    && if p.keyed then p.url == KeyPage(p.last, p.size, p.expand) && Marks(list, p.last, at)
       else
         && !p.url.KeyPage? && Position(p.url) <= |list| && at == Max(Position(p.url), Behind(list, seen))
         && (p.pages == 0 ==> p.url.Plain?)
  }

  ghost predicate Inv(list: seq<Row>, s: State) {
    && IsPrefix(s.file, list)
    && match s.proc
       case Idle => true
       case Ended(ending) => ending != Mismatch && ending != Stalled && (ending == Exhausted ==> s.file == list)
       case Asking(c, p, seen) => c.hasKey && Ready(list, p, seen, |s.file|)
       case Writing(c, p, seen, rows, next, done) =>
         && c.hasKey && rows != [] && CanAnswer(Fixed(list), p.url, Page(rows, next))
         && done <= |Fresh(c, p, seen, rows)| && done <= |s.file|
         && Ready(list, p, seen, |s.file| - done)
  }

  // ---- rows in key order ----

  lemma {:induction false} HighestIsLast(rows: seq<Row>)
    requires ValidList(rows)
    ensures Highest(rows) == LastId(rows)
  {
    if rows != [] {
      var n := |rows| - 1;
      SliceValid(rows, 0, n);
      HighestIsLast(rows[..n]);
      if n > 0 {
        assert Ascends(rows, n - 1, n);
      }
    }
  }

  lemma PrefixMarks(list: seq<Row>, n: nat)
    requires ValidList(list) && n <= |list|
    ensures Marks(list, LastId(list[..n]), n)
  {
    if n == 0 {
      BehindUnique(list, 0, 0);
    } else {
      forall i | 0 <= i < |list| ensures i < n <==> list[i].key.value <= list[n - 1].key.value {
        if i < n - 1 {
          assert Ascends(list, i, n - 1);
        } else if i >= n {
          assert Ascends(list, n - 1, i);
        }
      }
      BehindUnique(list, list[n - 1].key.value, n);
    }
  }

  lemma {:induction false} AboveConcat(a: seq<Row>, b: seq<Row>, seen: int)
    ensures Above(a + b, seen) == Above(a, seen) + Above(b, seen)
  {
    if b == [] {
      assert a + b == a;
    } else {
      assert (a + b)[..|a + b| - 1] == a + b[..|b| - 1];
      AboveConcat(a, b[..|b| - 1], seen);
    }
  }

  lemma {:induction false} AboveNone(rows: seq<Row>, seen: int)
    requires forall i :: 0 <= i < |rows| ==> AtOrBelow(rows[i], seen)
    ensures Above(rows, seen) == []
  {
    if rows != [] {
      AboveNone(rows[..|rows| - 1], seen);
    }
  }

  lemma {:induction false} AboveAll(rows: seq<Row>, seen: int)
    requires forall i :: 0 <= i < |rows| ==> !AtOrBelow(rows[i], seen)
    ensures Above(rows, seen) == rows
  {
    if rows != [] {
      AboveAll(rows[..|rows| - 1], seen);
    }
  }

  lemma {:induction false} AllOfStretch(list: seq<Row>, from: nat, to: nat, seen: int)
    requires ValidList(list) && Behind(list, seen) <= from <= to <= |list|
    ensures Above(list[from..to], seen) == list[from..to]
  {
    forall i | from <= i < to ensures !AtOrBelow(list[i], seen) {
      BehindAt(list, seen, i);
    }
    AboveAll(list[from..to], seen);
  }

  lemma {:induction false} NoneOfStretch(list: seq<Row>, from: nat, to: nat, seen: int)
    requires ValidList(list) && from <= to <= Behind(list, seen)
    ensures Above(list[from..to], seen) == []
  {
    forall i | from <= i < to ensures AtOrBelow(list[i], seen) {
      BehindAt(list, seen, i);
    }
    AboveNone(list[from..to], seen);
  }

  lemma {:induction false} PartOfStretch(list: seq<Row>, from: nat, mid: nat, to: nat, seen: int)
    requires ValidList(list) && from <= mid <= to <= |list| && mid == Behind(list, seen)
    ensures Above(list[from..to], seen) == list[mid..to]
  {
    NoneOfStretch(list, from, mid, seen);
    AllOfStretch(list, mid, to, seen);
    AboveConcat(list[from..mid], list[mid..to], seen);
    assert list[from..to] == list[from..mid] + list[mid..to];
  }

  /** Dropping what a previous run wrote leaves the stretch behind it. */
  lemma {:induction false} AboveStretch(list: seq<Row>, from: nat, to: nat, seen: int, lo: nat, hi: nat)
    requires ValidList(list) && from <= to <= |list|
    requires lo == Max(from, Behind(list, seen)) && hi == Max(to, Behind(list, seen))
    ensures Above(list[from..to], seen) == list[lo..hi]
  {
    var s := Behind(list, seen);
    if s <= from {
      AllOfStretch(list, from, to, seen);
    } else if to <= s {
      NoneOfStretch(list, from, to, seen);
    } else {
      PartOfStretch(list, from, s, to, seen);
    }
  }

  /** The rows a page adds are exactly the next stretch of the list. */
  ghost predicate NextStretch(list: seq<Row>, p: Pager, seen: int, rows: seq<Row>, at: nat, added: seq<Row>) {
    && at + |added| <= |list| && added == list[at..at + |added|]
    && at + |added| == if p.keyed then at + |rows| else Max(Position(p.url) + |rows|, Behind(list, seen))
  }

  lemma FreshIsNext(list: seq<Row>, c: Config, p: Pager, seen: int, rows: seq<Row>, next: Option<nat>, at: nat)
    requires ValidList(list) && c.hasKey && Ready(list, p, seen, at)
    requires CanAnswer(Fixed(list), p.url, Page(rows, next))
    ensures NextStretch(list, p, seen, rows, at, Fresh(c, p, seen, rows))
  {
    if !p.keyed {
      assert Stretch(list, Position(p.url), rows);
      LinkedFresh(list, c, p, seen, rows, at, Position(p.url));
    }
  }

  lemma {:induction false} LinkedFresh(list: seq<Row>, c: Config, p: Pager, seen: int, rows: seq<Row>, at: nat,
                                       from: nat)
    requires ValidList(list) && c.hasKey && !p.keyed && Stretch(list, from, rows)
    requires at == Max(from, Behind(list, seen)) && from == Position(p.url)
    ensures NextStretch(list, p, seen, rows, at, Fresh(c, p, seen, rows))
  {
    var to := from + |rows|;
    var hi := Max(to, Behind(list, seen));
    if seen == 0 {
      BehindUnique(list, 0, 0);
      assert Fresh(c, p, seen, rows) == rows;
    } else {
      AboveStretch(list, from, to, seen, at, hi);
      var added := Above(rows, seen);
      assert Fresh(c, p, seen, rows) == added && added == list[at..hi] && |added| == hi - at;
    }
  }

  // ---- steps ----

  lemma StartStep(list: seq<Row>, s: State, c: Config, t: State)
    requires ValidList(list) && Inv(list, s) && Takes(Fixed(list), true, s, Start(c), t)
    ensures Inv(list, t)
  {
    SliceValid(list, 0, |s.file|);
    HighestIsLast(s.file);
    PrefixMarks(list, |s.file|);
  }

  lemma AskStep(list: seq<Row>, s: State, answer: Response, t: State)
    requires ValidList(list) && Inv(list, s) && Takes(Fixed(list), true, s, Ask(answer), t)
    ensures Inv(list, t)
  {
    if answer.Page? && answer.rows == [] {
      assert |s.file| == |list|;
    }
  }

  lemma PrefixGrows(list: seq<Row>, file: seq<Row>, p: Pager, seen: int, rows: seq<Row>, added: seq<Row>, done: nat)
    requires IsPrefix(file, list) && done < |added| && done <= |file|
    requires NextStretch(list, p, seen, rows, |file| - done, added)
    ensures IsPrefix(file + [added[done]], list)
  {
    assert added[done] == list[|file|];
  }

  lemma LineGrows(list: seq<Row>, file: seq<Row>, c: Config, p: Pager, seen: int, rows: seq<Row>,
                  next: Option<nat>, done: nat)
    requires ValidList(list) && c.hasKey && IsPrefix(file, list) && done <= |file|
    requires Ready(list, p, seen, |file| - done) && CanAnswer(Fixed(list), p.url, Page(rows, next))
    requires done < |Fresh(c, p, seen, rows)|
    ensures IsPrefix(file + [Fresh(c, p, seen, rows)[done]], list)
  {
    FreshIsNext(list, c, p, seen, rows, next, |file| - done);
    PrefixGrows(list, file, p, seen, rows, Fresh(c, p, seen, rows), done);
  }

  lemma LineStep(list: seq<Row>, s: State, t: State)
    requires ValidList(list) && Inv(list, s) && Takes(Fixed(list), true, s, Line, t)
    ensures Inv(list, t)
  {
    var p := s.proc;
    LineGrows(list, s.file, p.c, p.p, p.seen, p.rows, p.next, p.done);
    assert |t.file| - t.proc.done == |s.file| - p.done;
  }

  lemma EndPageStep(list: seq<Row>, s: State, t: State)
    requires ValidList(list) && Inv(list, s) && Takes(Fixed(list), true, s, EndPage, t)
    ensures Inv(list, t)
  {
    if s.proc.p.keyed {
      EndKeyedPage(list, s, t);
    } else {
      EndLinkedPage(list, s, t);
    }
  }

  lemma EndKeyedPage(list: seq<Row>, s: State, t: State)
    requires ValidList(list) && Inv(list, s) && Takes(Fixed(list), true, s, EndPage, t) && s.proc.p.keyed
    ensures Inv(list, t)
  {
    var p, at := s.proc, |s.file| - s.proc.done;
    KeyedPageAdvances(list, p.p, p.rows, at);
  }

  lemma EndLinkedPage(list: seq<Row>, s: State, t: State)
    requires ValidList(list) && Inv(list, s) && Takes(Fixed(list), true, s, EndPage, t) && !s.proc.p.keyed
    ensures Inv(list, t)
  {
    var p, at := s.proc, |s.file| - s.proc.done;
    assert |s.file| == Max(Position(p.p.url) + |p.rows|, Behind(list, p.seen)) by {
      FreshIsNext(list, p.c, p.p, p.seen, p.rows, p.next, at);
    }
  }

  lemma StretchMax(list: seq<Row>, from: nat, to: nat)
    requires ValidList(list) && from < to <= |list|
    ensures MaxId(list[from..to]) == list[to - 1].key
    ensures LastId(list[..to]) == list[to - 1].key.value
  {
    SliceValid(list, from, to);
    MaxIdIsLast(list[from..to]);
  }

  lemma {:induction false} KeyedPageAdvances(list: seq<Row>, p: Pager, rows: seq<Row>, at: nat)
    requires ValidList(list) && Marks(list, p.last, at) && Stretch(list, at, rows) && rows != []
    ensures MaxId(rows).Some? && MaxId(rows).value > p.last
    ensures Marks(list, MaxId(rows).value, at + |rows|)
  {
    var to := at + |rows|;
    StretchMax(list, at, to);
    MarksBehind(list, to);
    LastIsBeyond(list, p.last, at, to);
  }

  lemma MarksBehind(list: seq<Row>, to: nat)
    requires ValidList(list) && 0 < to <= |list|
    ensures Marks(list, list[to - 1].key.value, to)
  {
    PrefixMarks(list, to);
    StretchMax(list, 0, to);
  }

  lemma LastIsBeyond(list: seq<Row>, last: int, at: nat, to: nat)
    requires ValidList(list) && Marks(list, last, at) && at < to <= |list|
    ensures list[to - 1].key.value > last
  {
    BehindAt(list, last, to - 1);
  }

  lemma StepKeepsInv(list: seq<Row>, s: State, t: State)
    requires ValidList(list) && Inv(list, s) && Next(Fixed(list), true, s, t)
    ensures Inv(list, t)
  {
    var e :| Takes(Fixed(list), true, s, e, t);
    match e
    case Start(c) => StartStep(list, s, c, t);
    case Ask(answer) => AskStep(list, s, answer, t);
    case Line => LineStep(list, s, t);
    case EndPage => EndPageStep(list, s, t);
    case Kill =>
  }

  lemma {:induction false} RunKeepsInv(list: seq<Row>, trace: seq<State>, i: nat)
    requires ValidList(list) && IsRun(Fixed(list), true, trace) && Inv(list, trace[0]) && i < |trace|
    ensures Inv(list, trace[i])
  {
    if i > 0 {
      RunKeepsInv(list, trace, i - 1);
      StepKeepsInv(list, trace[i - 1], trace[i]);
    }
  }

  // ---- results ----

  /** Runs over a file that is empty or already a prefix of the list. */
  ghost predicate PullRuns(list: seq<Row>, trace: seq<State>) {
    && ValidList(list) && IsRun(Fixed(list), true, trace)
    && trace[0].proc.Idle? && IsPrefix(trace[0].file, list)
  }

  /** After any number of kills, refusals and fallbacks: no gap, no duplicate, no row out of
      order; and every row once when the last run ends by itself. */
  lemma EveryRowOnce(list: seq<Row>, trace: seq<State>, i: nat)
    requires PullRuns(list, trace) && i < |trace|
    ensures IsPrefix(trace[i].file, list)
    ensures trace[i].proc == Ended(Exhausted) ==> trace[i].file == list
    ensures trace[i].proc != Ended(Stalled) && trace[i].proc != Ended(Mismatch)
    ensures forall id :: CountId(trace[i].file, id) <= 1
  {
    RunKeepsInv(list, trace, i);
    SliceValid(list, 0, |trace[i].file|);
    forall id ensures CountId(trace[i].file, id) <= 1 {
      OnceInList(trace[i].file, id);
    }
  }

  /** A later run never loses a row an earlier one wrote. */
  lemma {:induction false} FileOnlyGrows(w: World, hasKey: bool, trace: seq<State>, i: nat)
    requires IsRun(w, hasKey, trace) && i < |trace|
    ensures trace[0].file <= trace[i].file
  {
    if i > 0 {
      FileOnlyGrows(w, hasKey, trace, i - 1);
      assert Next(w, hasKey, trace[i - 1], trace[i]);
    }
  }
}
