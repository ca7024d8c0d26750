/**
 * `pull` and `highest_id_on_disk` (scripts/pull_tickets_and_comments.py:640-661, 679-844)
 * in the source's own shape: one loop over the pager's variables. The ghost `trace` is the
 * run of the pull machine that this process is.
 */
module Pull {
  import opened Options
  import opened Landing
  import opened Paging
  import opened PullMachine
  import opened PullSafety

  /** The JSONL file, with what it held after every line. */
  class RowFile {
    var rows: seq<Row>
    ghost var journal: seq<seq<Row>>

    constructor (rows: seq<Row>)
      ensures this.rows == rows && journal == []
    {
      this.rows, journal := rows, [];
    }

    method Append(row: Row)
      modifies this
      ensures rows == old(rows) + [row] && journal == old(journal) + [rows]
    {
      rows := rows + [row];
      journal := journal + [rows];
    }
  }

  method HighestIdOnDisk(rows: seq<Row>) returns (best: int)
    ensures best == Highest(rows)
    ensures IsResumePoint(rows, best)
  {
    best := 0;
    HighestIsResumePoint(rows);
    for i := 0 to |rows|
      invariant best == Highest(rows[..i])
    {
      assert rows[..i + 1][..i] == rows[..i];
      if rows[i].key.Some? && rows[i].key.value > best {
        best := rows[i].key.value;
      }
    }
    assert rows[..|rows|] == rows;
  }

  method DropAtOrBelow(rows: seq<Row>, ceiling: int) returns (kept: seq<Row>)
    ensures kept == Above(rows, ceiling)
  {
    kept := [];
    for i := 0 to |rows|
      invariant kept == Above(rows[..i], ceiling)
    {
      assert rows[..i + 1][..i] == rows[..i];
      if !AtOrBelow(rows[i], ceiling) {
        kept := kept + [rows[i]];
      }
    }
    assert rows[..|rows|] == rows;
  }

  /** Exactly the rows that have no id, or one beyond the ceiling. */
  lemma {:induction false} AboveExactly(rows: seq<Row>, ceiling: int, row: Row)
    ensures multiset(Above(rows, ceiling))[row] ==
            if row.key.None? || row.key.value > ceiling then multiset(rows)[row] else 0
  {
    if rows != [] {
      AboveExactly(rows[..|rows| - 1], ceiling, row);
      assert rows == rows[..|rows| - 1] + [rows[|rows| - 1]];
    }
  }

  /** A key-paged page is appended whole; of a continuation of a keyed collection, what an earlier run may
      have written is left out. */
  lemma FreshExactly(c: Config, p: Pager, seen: int, rows: seq<Row>, row: Row)
    ensures multiset(Fresh(c, p, seen, rows))[row] ==
            if !p.keyed && c.hasKey && seen != 0 && row.key.Some? && row.key.value <= seen then 0
            else multiset(rows)[row]
    ensures p.keyed || !c.hasKey || seen == 0 ==> Fresh(c, p, seen, rows) == rows
  {
    AboveExactly(rows, seen, row);
  }

  ghost predicate Went(trace: seq<State>, file: seq<Row>) {
    exists i :: 0 <= i < |trace| && trace[i].file == file
  }

  lemma Extend(w: World, hasKey: bool, trace: seq<State>, e: Step, t: State)
    requires IsRun(w, hasKey, trace) && Takes(w, hasKey, trace[|trace| - 1], e, t)
    ensures IsRun(w, hasKey, trace + [t])
    ensures forall f :: Went(trace, f) ==> Went(trace + [t], f)
    ensures Went(trace + [t], t.file)
  {
    assert Next(w, hasKey, trace[|trace| - 1], t);
    forall f | Went(trace, f) ensures Went(trace + [t], f) {
      var i :| 0 <= i < |trace| && trace[i].file == f;
      assert (trace + [t])[i] == trace[i];
    }
    assert (trace + [t])[|trace|] == t;
  }

  /** What is assumed of the server for the loop to end: ids are bounded, and every chain of
      continuations is finite, because each link has a lower rank than the one before it. */
  ghost predicate Tame(ask: (nat, Url) -> Response, bound: int, rank: nat -> nat) {
    forall n: nat, url: Url :: TameAnswer(url, ask(n, url), bound, rank)
  }

  /** Where the loop goes after a page whose rows are written. */
  method Turn(c: Config, p: Pager, rows: seq<Row>, count: nat, next: Option<nat>) returns (q: Pager,
              end: Option<Ending>)
    ensures (q, end) == OnWritten(c, p, rows, count, next)
  {
    q := p.(written := p.written + count, pages := p.pages + 1);
    end := None;
    if c.limit.Some? && q.written >= c.limit.value {
      end := Some(Limited);
    } else if p.keyed {
      var highest := MaxIdLoop(rows);
      if highest.None? || highest.value <= p.last {
        end := Some(Stalled);
      } else {
        q := q.(last := highest.value, url := PageUrl(true, highest.value, p.size, p.expand));
      }
    } else if next.None? {
      end := Some(Exhausted);
    } else {
      q := q.(url := Link(next.value));
    }
  }

  /** One request and its answer: where the loop goes. */
  function After(c: Config, p: Pager, seen: int, answer: Response): (Pager, Option<Ending>) {
    match answer
    case Garbled => (p, Some(Raised))
    case Failed(status) =>
      var retry := OnFailure(p, status);
      if retry.Some? then (retry.value, None) else (p, Some(Raised))
    case Page(rows, next) =>
      if rows == [] then (p, Some(Exhausted)) else OnWritten(c, p, rows, |Fresh(c, p, seen, rows)|, next)
  }

  /** Shape of the pager at every turn of the loop. */
  ghost predicate Sound(c: Config, p: Pager) {
    && (p.size == c.size || MIN_PAGE_SIZE <= p.size < c.size)
    && (if p.keyed then p.url == KeyPage(p.last, p.size, p.expand) else !p.url.KeyPage?)
  }

  /** What a server that ends may answer to one request. */
  ghost predicate TameAnswer(url: Url, answer: Response, bound: int, rank: nat -> nat) {
    answer.Page? ==>
      && (MaxId(answer.rows).Some? ==> MaxId(answer.rows).value <= bound)
      && (url.Link? && answer.next.Some? ==> rank(answer.next.value) < rank(url.token))
  }

  /** The measure of the loop: key mode, expansions, page size, ids to come, length of the
      chain of continuations. */
  ghost predicate Down(q: Pager, p: Pager, bound: int, rank: nat -> nat) {
    || (p.keyed && !q.keyed)
    || (p.keyed == q.keyed && |q.expand| < |p.expand|)
    || (p.keyed == q.keyed && |q.expand| == |p.expand| && q.size < p.size)
    || (p.keyed == q.keyed && |q.expand| == |p.expand| && q.size == p.size
        && if p.keyed then q.last > p.last && p.last < bound
           else q.url.Link? && (p.url.Link? ==> rank(q.url.token) < rank(p.url.token)))
  }

  lemma RoundsEnd(c: Config, p: Pager, seen: int, answer: Response, bound: int, rank: nat -> nat)
    requires Sound(c, p) && TameAnswer(p.url, answer, bound, rank) && After(c, p, seen, answer).1.None?
    ensures var q := After(c, p, seen, answer).0; Sound(c, q) && Down(q, p, bound, rank)
  {
  }

  // ---- the requests of a run ----

  /** One request: the pager it was made with, and what came back. */
  datatype Request = Request(pager: Pager, answer: Response)

  /** These are the requests of a run, or of its beginning: the first one is the start of the run
      over `file`, the server answers each, and each but the first is where its predecessor's
      answer leads. */
  ghost predicate AreRequests(c: Config, file: seq<Row>, ask: (nat, Url) -> Response, log: seq<Request>) {
    && (log != [] ==> log[0].pager == Begin(c, file) && !Mismatched(c, file))
    && (forall i :: 0 <= i < |log| ==> log[i].answer == ask(i, log[i].pager.url))
    && (forall i :: 0 < i < |log| ==> Follows(c, Begin(c, file).last, log[i - 1], log[i].pager))
  }

  ghost predicate Follows(c: Config, seen: int, r: Request, q: Pager) {
    After(c, r.pager, seen, r.answer) == (q, None)
  }

  /** Where the run stands behind these requests. */
  function Standing(c: Config, file: seq<Row>, log: seq<Request>): (Pager, Option<Ending>) {
    if log == [] then (Begin(c, file), if Mismatched(c, file) then Some(Mismatch) else None)
    else After(c, log[|log| - 1].pager, Begin(c, file).last, log[|log| - 1].answer)
  }

  /** How many failed requests were survived: those that another request came after. */
  function Survivals(log: seq<Request>): nat {
    if |log| < 2 then 0
    else Survivals(log[..|log| - 1]) + if log[|log| - 2].answer.Failed? then 1 else 0
  }

  /** The rows these requests add to the file. */
  function Added(c: Config, seen: int, log: seq<Request>): seq<Row> {
    if log == [] then [] else
      var r := log[|log| - 1];
      Added(c, seen, log[..|log| - 1]) + if r.answer.Page? then Fresh(c, r.pager, seen, r.answer.rows) else []
  }

  lemma RequestsFront(c: Config, file: seq<Row>, ask: (nat, Url) -> Response, log: seq<Request>)
    requires AreRequests(c, file, ask, log) && log != []
    ensures AreRequests(c, file, ask, log[..|log| - 1])
  {
    var front := log[..|log| - 1];
    forall i | 0 < i < |front| ensures Follows(c, Begin(c, file).last, front[i - 1], front[i].pager) {
      assert Follows(c, Begin(c, file).last, log[i - 1], log[i].pager);
    }
  }

  /** Against any server: a run, wherever it stops, has survived at most h + 2 failed requests, h
      being how often its page size can be halved, and its last request is for a page of the
      initial size, or of a smaller one that is not below the minimum. */
  lemma {:induction false} FewAreSurvived(c: Config, file: seq<Row>, ask: (nat, Url) -> Response, log: seq<Request>)
    requires AreRequests(c, file, ask, log) && log != []
    ensures Survivals(log) + Budget(log[|log| - 1].pager) <= Budget(Begin(c, file)) <= Halvings(c.size) + 2
    ensures Sound(c, log[|log| - 1].pager)
  {
    StartBudget(c, file);
    var n := |log| - 1;
    if n > 0 {
      RequestsFront(c, file, ask, log);
      FewAreSurvived(c, file, ask, log[..n]);
      assert Follows(c, Begin(c, file).last, log[n - 1], log[n].pager);
      if log[n - 1].answer.Failed? {
        FailureCosts(log[n - 1].pager, log[n - 1].answer.status);
      }
    }
  }

  /** The loop's variables and the file are where these requests lead. */
  ghost predicate Logged(c: Config, start: seq<Row>, ask: (nat, Url) -> Response, log: seq<Request>,
                         p: Pager, end: Option<Ending>, rows: seq<Row>) {
    var added := Added(c, Begin(c, start).last, log);
    && AreRequests(c, start, ask, log) && Standing(c, start, log) == (p, end)
    && rows == start + added && p.written == |added|
  }

  lemma LoggedFirst(c: Config, start: seq<Row>, ask: (nat, Url) -> Response)
    ensures Logged(c, start, ask, [], Begin(c, start), if Mismatched(c, start) then Some(Mismatch) else None, start)
  {
    assert start + [] == start;
  }

  lemma LoggedOneMore(c: Config, start: seq<Row>, ask: (nat, Url) -> Response, log: seq<Request>, p: Pager,
                      rows: seq<Row>)
    requires Logged(c, start, ask, log, p, None, rows)
    ensures var seen, answer := Begin(c, start).last, ask(|log|, p.url);
      var (q, end) := After(c, p, seen, answer);
      Logged(c, start, ask, log + [Request(p, answer)], q, end,
             rows + if answer.Page? then Fresh(c, p, seen, answer.rows) else [])
  {
    var answer := ask(|log|, p.url);
    var longer := log + [Request(p, answer)];
    assert longer[..|log|] == log;
    forall i | 0 < i < |longer| ensures Follows(c, Begin(c, start).last, longer[i - 1], longer[i].pager) {
      if i < |log| {
        assert Follows(c, Begin(c, start).last, log[i - 1], log[i].pager);
      }
    }
  }

  /** Every key-paged request asks for the initial page size, or for a smaller one that is not below
      the minimum. */
  ghost predicate AsksEnough(size: nat, log: seq<Request>) {
    forall i :: 0 <= i < |log| && log[i].pager.url.KeyPage? ==>
      log[i].pager.url.size == size || MIN_PAGE_SIZE <= log[i].pager.url.size < size
  }

  lemma {:induction false} RequestsBounded(c: Config, file: seq<Row>, ask: (nat, Url) -> Response, log: seq<Request>)
    requires AreRequests(c, file, ask, log)
    ensures Survivals(log) <= Halvings(c.size) + 2 && AsksEnough(c.size, log)
    decreases |log|
  {
    if log != [] {
      FewAreSurvived(c, file, ask, log);
      RequestsFront(c, file, ask, log);
      RequestsBounded(c, file, ask, log[..|log| - 1]);
      assert forall i :: 0 <= i < |log| - 1 ==> log[i] == log[..|log| - 1][i];
    }
  }

  // ---- what a run asks for, said by its requests and their answers alone ----

  predicate HasRows(r: Request) {
    r.answer.Page? && r.answer.rows != []
  }

  predicate NoRowsYet(log: seq<Request>) {
    forall i :: 0 <= i < |log| ==> !HasRows(log[i])
  }

  function Expansions(url: Url): seq<string> {
    if url.Link? then [] else url.expand
  }

  /** The greatest id on a page, if one is beyond `last`. */
  ghost predicate IsNewHighest(rows: seq<Row>, last: int, m: int) {
    m > last && HasId(rows, m) && forall i :: 0 <= i < |rows| && rows[i].key.Some? ==> rows[i].key.value <= m
  }

  ghost predicate GetsPast(rows: seq<Row>, last: int) {
    exists i :: 0 <= i < |rows| && rows[i].key.Some? && rows[i].key.value > last
  }

  /** A request for this URL that did not complete is made again for half the rows. */
  predicate CanHalve(url: Url, status: int) {
    status == 0 && url.KeyPage? && url.size >= 50
  }

  /** Before any row came, a refused request is made again without its expansions, then without its key. */
  predicate CanDrop(url: Url, early: bool) {
    early && (Expansions(url) != [] || url.KeyPage?)
  }

  /** What is asked for behind a failed request. */
  predicate Retries(url: Url, status: int, early: bool, next: Url) {
    if CanHalve(url, status) then next == KeyPage(url.last, url.size / 2, url.expand)
    else
      && CanDrop(url, early)
      && next == if Expansions(url) == [] then Plain([])
                 else if url.KeyPage? then KeyPage(url.last, url.size, []) else Plain([])
  }

  /** As many rows as the run was called for. */
  predicate HasEnough(c: Config, added: int) {
    c.limit.Some? && added >= c.limit.value
  }

  /** What is asked for behind a page. */
  ghost predicate Continues(url: Url, rows: seq<Row>, link: Option<nat>, next: Url) {
    if url.KeyPage? then
      next.KeyPage? && next.size == url.size && next.expand == url.expand && IsNewHighest(rows, url.last, next.last)
    else link.Some? && next == Link(link.value)
  }

  /** The next request behind these. */
  ghost predicate LeadsTo(c: Config, seen: int, log: seq<Request>, next: Url)
    requires log != []
  {
    var url, answer := log[|log| - 1].pager.url, log[|log| - 1].answer;
    match answer
    case Garbled => false
    case Failed(status) => Retries(url, status, NoRowsYet(log), next)
    case Page(rows, link) =>
      rows != [] && !HasEnough(c, |Added(c, seen, log)|) && Continues(url, rows, link, next)
  }

  /** Why a run ends behind these requests. */
  ghost predicate EndsAs(c: Config, seen: int, log: seq<Request>, ending: Ending)
    requires log != []
  {
    var url, answer := log[|log| - 1].pager.url, log[|log| - 1].answer;
    match ending
    case Limited => HasRows(log[|log| - 1]) && HasEnough(c, |Added(c, seen, log)|)
    case Exhausted =>
      answer.Page? && (answer.rows == [] ||
        (!HasEnough(c, |Added(c, seen, log)|) && !url.KeyPage? && answer.next.None?))
    case Stalled =>
      && HasRows(log[|log| - 1]) && !HasEnough(c, |Added(c, seen, log)|)
      && url.KeyPage? && !GetsPast(answer.rows, url.last)
    case Raised =>
      answer.Garbled? || (answer.Failed? && !CanHalve(url, answer.status) && !CanDrop(url, NoRowsYet(log)))
    case Mismatch => false
  }

  /** The resume point: the greatest id in the file, or zero. */
  ghost predicate IsResumePoint(file: seq<Row>, m: int) {
    && m >= 0 && (m == 0 || HasId(file, m))
    && forall i :: 0 <= i < |file| && file[i].key.Some? ==> file[i].key.value <= m
  }

  ghost predicate StartsWith(c: Config, file: seq<Row>, url: Url) {
    if c.hasKey then url.KeyPage? && url.size == c.size && url.expand == c.expand && IsResumePoint(file, url.last)
    else url == Plain(c.expand)
  }

  /** A whole run, by its requests: where it starts, where each answer leads, why it ends. */
  ghost predicate IsSession(c: Config, file: seq<Row>, log: seq<Request>, ending: Ending) {
    var seen := Begin(c, file).last;
    && (log != [] ==> StartsWith(c, file, log[0].pager.url))
    && (forall i :: 0 < i < |log| ==> LeadsTo(c, seen, log[..i], log[i].pager.url))
    && if log == [] then ending == Mismatch && c.hasKey && file != [] && file[0].key.None?
       else EndsAs(c, seen, log, ending)
  }

  /** The pager counts what the requests brought, and its URL is made of its fields. */
  ghost predicate Accounts(c: Config, seen: int, before: seq<Request>, p: Pager) {
    && p.written == |Added(c, seen, before)| && (p.pages == 0 <==> NoRowsYet(before))
    && (if p.keyed then p.url == KeyPage(p.last, p.size, p.expand)
        else !p.url.KeyPage? && (p.pages == 0 ==> p.url == Plain(p.expand)))
  }

  lemma {:induction false} RequestsAccount(c: Config, file: seq<Row>, ask: (nat, Url) -> Response, log: seq<Request>)
    requires AreRequests(c, file, ask, log) && log != []
    ensures Accounts(c, Begin(c, file).last, log[..|log| - 1], log[|log| - 1].pager)
    decreases |log|
  {
    var n := |log| - 1;
    if n > 0 {
      RequestsFront(c, file, ask, log);
      RequestsAccount(c, file, ask, log[..n]);
      assert Follows(c, Begin(c, file).last, log[n - 1], log[n].pager);
      AccountsNext(c, Begin(c, file).last, log[..n], log[n].pager);
    }
  }

  lemma AccountsNext(c: Config, seen: int, log: seq<Request>, q: Pager)
    requires log != [] && Accounts(c, seen, log[..|log| - 1], log[|log| - 1].pager)
    requires Follows(c, seen, log[|log| - 1], q)
    ensures Accounts(c, seen, log, q)
  {
    RowsSoFar(log);
  }

  lemma RowsSoFar(log: seq<Request>)
    requires log != []
    ensures NoRowsYet(log) <==> NoRowsYet(log[..|log| - 1]) && !HasRows(log[|log| - 1])
  {
    assert forall i :: 0 <= i < |log| - 1 ==> log[i] == log[..|log| - 1][i];
  }

  /** What the pager does about an answer is what the requests say. */
  lemma TurnIsSaid(c: Config, seen: int, log: seq<Request>)
    requires log != [] && Accounts(c, seen, log[..|log| - 1], log[|log| - 1].pager)
    ensures var (q, end) := After(c, log[|log| - 1].pager, seen, log[|log| - 1].answer);
      if end.Some? then EndsAs(c, seen, log, end.value) else LeadsTo(c, seen, log, q.url)
  {
    var r := log[|log| - 1];
    RowsSoFar(log);
    if r.answer.Page? {
      NewHighest(r.answer.rows, r.pager.last);
    }
  }

  lemma {:induction false} NewHighest(rows: seq<Row>, last: int)
    ensures GetsPast(rows, last) <==> MaxId(rows).Some? && MaxId(rows).value > last
    ensures GetsPast(rows, last) ==> IsNewHighest(rows, last, MaxId(rows).value)
  {
    MaxIdBounds(rows);
    if GetsPast(rows, last) {
      var i :| 0 <= i < |rows| && rows[i].key.Some? && rows[i].key.value > last;
    }
  }

  lemma {:induction false} HighestIsResumePoint(rows: seq<Row>)
    ensures IsResumePoint(rows, Highest(rows))
  {
    if rows != [] {
      var n := |rows| - 1;
      HighestIsResumePoint(rows[..n]);
      assert forall i :: 0 <= i < n ==> rows[i] == rows[..n][i];
      if HasId(rows[..n], Highest(rows[..n])) {
        var i :| 0 <= i < n && rows[..n][i].key == Some(Highest(rows[..n]));
        assert rows[i].key == Some(Highest(rows[..n]));
      }
      if Highest(rows) != Highest(rows[..n]) {
        assert rows[n].key == Some(Highest(rows));
      }
    }
  }

  /** The requests of a run are a session. */
  lemma RequestsAreSession(c: Config, file: seq<Row>, ask: (nat, Url) -> Response, log: seq<Request>, ending: Ending)
    requires AreRequests(c, file, ask, log) && Standing(c, file, log).1 == Some(ending)
    ensures IsSession(c, file, log, ending)
  {
    var seen := Begin(c, file).last;
    HighestIsResumePoint(file);
    forall i | 0 < i < |log| ensures LeadsTo(c, seen, log[..i], log[i].pager.url) {
      BeginningAccounts(c, file, ask, log, i);
      assert Follows(c, seen, log[i - 1], log[i].pager);
      TurnIsSaid(c, seen, log[..i]);
    }
    if log != [] {
      RequestsAccount(c, file, ask, log);
      TurnIsSaid(c, seen, log);
    }
  }

  lemma BeginningAccounts(c: Config, file: seq<Row>, ask: (nat, Url) -> Response, log: seq<Request>, i: nat)
    requires AreRequests(c, file, ask, log) && 0 < i <= |log|
    ensures Accounts(c, Begin(c, file).last, log[..i][..i - 1], log[i - 1].pager)
  {
    var front := log[..i];
    forall j | 0 < j < i ensures Follows(c, Begin(c, file).last, front[j - 1], front[j].pager) {
      assert Follows(c, Begin(c, file).last, log[j - 1], log[j].pager);
    }
    RequestsAccount(c, file, ask, front);
  }

  class Puller {
    const file: RowFile
    ghost var trace: seq<State>
    ghost var mark: nat

    constructor (file: RowFile)
      ensures this.file == file
    {
      this.file, trace, mark := file, [], 0;
    }

    ghost predicate Tracked(w: World, hasKey: bool, proc: Proc)
      reads this, file
    {
      && IsRun(w, hasKey, trace) && trace[|trace| - 1] == State(file.rows, proc)
      && forall k :: mark <= k < |file.journal| ==> Went(trace, file.journal[k])
    }

    ghost method Record(w: World, hasKey: bool, e: Step, t: State)
      requires IsRun(w, hasKey, trace) && Takes(w, hasKey, trace[|trace| - 1], e, t)
      modifies this`trace
      ensures trace == old(trace) + [t] && IsRun(w, hasKey, trace)
      ensures forall f :: Went(old(trace), f) ==> Went(trace, f)
      ensures Went(trace, t.file)
    {
      Extend(w, hasKey, trace, e, t);
      trace := trace + [t];
    }

    /** Writes a page's rows, one line at a time. */
    method WriteRows(ghost w: World, c: Config, ghost p: Pager, ghost seen: int, ghost rows: seq<Row>,
                     ghost next: Option<nat>, lines: seq<Row>)
      requires Tracked(w, c.hasKey, Writing(c, p, seen, rows, next, 0))
      requires lines == Fresh(c, p, seen, rows)
      modifies this`trace, file
      ensures Tracked(w, c.hasKey, Writing(c, p, seen, rows, next, |lines|))
      ensures file.rows == old(file.rows) + lines && old(trace) <= trace
    {
      for i := 0 to |lines|
        invariant Tracked(w, c.hasKey, Writing(c, p, seen, rows, next, i))
        invariant file.rows == old(file.rows) + lines[..i] && old(trace) <= trace
      {
        file.Append(lines[i]);
        Record(w, c.hasKey, Line, State(file.rows, Writing(c, p, seen, rows, next, i + 1)));
      }
    }

    /** The body of the loop for a page that came back with rows. */
    method TakePage(ghost w: World, c: Config, p: Pager, seen: int, rows: seq<Row>, next: Option<nat>)
      returns (q: Pager, end: Option<Ending>)
      requires Tracked(w, c.hasKey, Writing(c, p, seen, rows, next, 0))
      modifies this`trace, file
      ensures (q, end) == OnWritten(c, p, rows, |Fresh(c, p, seen, rows)|, next)
      // It stops with enough rows, with a page that gets no further, or with the last page.
      ensures end == Some(Limited) <==> HasEnough(c, p.written + |file.rows| - |old(file.rows)|)
      ensures end == Some(Stalled) <==> end != Some(Limited) && p.keyed && !GetsPast(rows, p.last)
      ensures end == Some(Exhausted) <==> end != Some(Limited) && !p.keyed && next.None?
      ensures end.None? && p.keyed ==>
        q.url.KeyPage? && q.url.size == p.size && q.url.expand == p.expand && IsNewHighest(rows, p.last, q.url.last)
      ensures end.None? && !p.keyed ==> next.Some? && q.url == Link(next.value)
      ensures Tracked(w, c.hasKey, if end.Some? then Ended(end.value) else Asking(c, q, seen))
      ensures file.rows == old(file.rows) + Fresh(c, p, seen, rows) && old(trace) <= trace
    {
      var lines := rows;
      if !p.keyed && seen != 0 && c.hasKey {
        lines := DropAtOrBelow(rows, seen);
      }
      WriteRows(w, c, p, seen, rows, next, lines);
      q, end := Turn(c, p, rows, |lines|, next);
      NewHighest(rows, p.last);
      Record(w, c.hasKey, EndPage, State(file.rows, if end.Some? then Ended(end.value) else Asking(c, q, seen)));
    }

    /** One request and what is done about its answer. */
    method Round(ghost w: World, c: Config, p: Pager, seen: int, answer: Response)
      returns (q: Pager, end: Option<Ending>)
      requires Tracked(w, c.hasKey, Asking(c, p, seen)) && CanAnswer(w, p.url, answer)
      modifies this`trace, file
      ensures Tracked(w, c.hasKey, if end.Some? then Ended(end.value) else Asking(c, q, seen)) && old(trace) <= trace
      ensures (q, end) == After(c, p, seen, answer)
      ensures file.rows == old(file.rows) + if answer.Page? then Fresh(c, p, seen, answer.rows) else []
    {
      q, end := p, None;
      match answer
      case Garbled =>
        end := Some(Raised);
        Record(w, c.hasKey, Ask(answer), State(file.rows, Ended(Raised)));
      case Failed(status) =>
        var retry := OnFailure(p, status);
        if retry.None? {
          end := Some(Raised);
          Record(w, c.hasKey, Ask(answer), State(file.rows, Ended(Raised)));
        } else {
          q := retry.value;
          Record(w, c.hasKey, Ask(answer), State(file.rows, Asking(c, q, seen)));
        }
      case Page(rows, next) =>
        if rows == [] {
          end := Some(Exhausted);
          Record(w, c.hasKey, Ask(answer), State(file.rows, Ended(Exhausted)));
        } else {
          Record(w, c.hasKey, Ask(answer), State(file.rows, Writing(c, p, seen, rows, next, 0)));
          q, end := TakePage(w, c, p, seen, rows, next);
        }
    }

    method Open(ghost w: World, c: Config) returns (p: Pager, end: Option<Ending>)
      requires c.size > 0
      modifies this
      ensures trace != [] && trace[0] == State(file.rows, Idle) && mark == |file.journal|
      ensures file.rows == old(file.rows)
      ensures p == Begin(c, file.rows) && (end == if Mismatched(c, file.rows) then Some(Mismatch) else None)
      ensures Tracked(w, c.hasKey, if end.Some? then Ended(end.value) else Asking(c, p, p.last))
    {
      trace, mark := [State(file.rows, Idle)], |file.journal|;
      var last := 0;
      if c.hasKey {
        last := HighestIdOnDisk(file.rows);
      }
      p := Pager(PageUrl(c.hasKey, last, c.size, c.expand), c.hasKey, c.expand, c.size, last, 0, 0);
      end := None;
      if c.hasKey && file.rows != [] && file.rows[0].key.None? {
        end := Some(Mismatch);
      }
      Record(w, c.hasKey, Start(c), State(file.rows, if end.Some? then Ended(Mismatch) else Asking(c, p, last)));
    }

    /** One round, entered in the log. */
    method LoggedRound(ghost w: World, c: Config, p: Pager, seen: int, answer: Response,
                       ghost ask: (nat, Url) -> Response, ghost bound: int, ghost rank: nat -> nat,
                       ghost start: seq<Row>, ghost log: seq<Request>)
      returns (q: Pager, end: Option<Ending>, ghost log': seq<Request>)
      requires Tracked(w, c.hasKey, Asking(c, p, seen)) && CanAnswer(w, p.url, answer)
      requires Logged(c, start, ask, log, p, None, file.rows) && Sound(c, p) && seen == Begin(c, start).last
      requires answer == ask(|log|, p.url) && TameAnswer(p.url, answer, bound, rank)
      modifies this`trace, file
      ensures Tracked(w, c.hasKey, if end.Some? then Ended(end.value) else Asking(c, q, seen)) && old(trace) <= trace
      ensures Logged(c, start, ask, log', q, end, file.rows) && |log'| == |log| + 1
      ensures end.None? ==> Sound(c, q) && Down(q, p, bound, rank)
    {
      LoggedOneMore(c, start, ask, log, p, file.rows);
      if After(c, p, seen, answer).1.None? {
        RoundsEnd(c, p, seen, answer, bound, rank);
      }
      log' := log + [Request(p, answer)];
      q, end := Round(w, c, p, seen, answer);
    }

    /** The loop, from its first request to its end. */
    method Loop(ghost w: World, c: Config, ask: (nat, Url) -> Response, ghost bound: int, ghost rank: nat -> nat,
                ghost start: seq<Row>, first: Pager, atOnce: Option<Ending>)
      returns (ending: Ending, written: nat, ghost log: seq<Request>)
      requires Tame(ask, bound, rank) && forall n: nat, url: Url :: CanAnswer(w, url, ask(n, url))
      requires Tracked(w, c.hasKey, if atOnce.Some? then Ended(atOnce.value) else Asking(c, first, first.last))
      requires Logged(c, start, ask, [], first, atOnce, file.rows) && Sound(c, first)
      modifies this`trace, file
      ensures Tracked(w, c.hasKey, Ended(ending)) && old(trace) <= trace
      ensures AreRequests(c, start, ask, log) && Standing(c, start, log).1 == Some(ending)
      ensures file.rows == start + Added(c, Begin(c, start).last, log) && written == |file.rows| - |start|
    {
      log := [];
      var p, end, seenOnDisk, requests := first, atOnce, first.last, 0;
      while end.None?
        invariant old(trace) <= trace && seenOnDisk == Begin(c, start).last && requests == |log|
        invariant Tracked(w, c.hasKey, if end.Some? then Ended(end.value) else Asking(c, p, seenOnDisk))
        invariant Logged(c, start, ask, log, p, end, file.rows) && (end.None? ==> Sound(c, p))
        decreases end.None?, p.keyed, |p.expand|, p.size, if p.keyed then bound - p.last else 0, !p.url.Link?,
                  if p.url.Link? then rank(p.url.token) else 0
      {
        var answer := ask(requests, p.url);
        p, end, log := LoggedRound(w, c, p, seenOnDisk, answer, ask, bound, rank, start, log);
        requests := requests + 1;
      }
      ending, written := end.value, p.written;
    }

    /**
     * One run. It ends for every server with bounded ids and finite continuations. `log` is all
     * its requests: at most h + 2 of them failed and were survived, and none asks for fewer rows
     * than the minimum, unless the run was called so. What they brought is in the file.
     */
    method Run(ghost w: World, c: Config, ask: (nat, Url) -> Response, ghost bound: int, ghost rank: nat -> nat)
      returns (ending: Ending, written: nat, ghost log: seq<Request>)
      requires c.size > 0 && Tame(ask, bound, rank)
      requires forall n: nat, url: Url :: CanAnswer(w, url, ask(n, url))
      modifies this, file
      ensures Tracked(w, c.hasKey, Ended(ending)) && trace[0] == State(old(file.rows), Idle)
      ensures mark == |old(file.journal)|
      ensures AreRequests(c, old(file.rows), ask, log) && IsSession(c, old(file.rows), log, ending)
      ensures Survivals(log) <= Halvings(c.size) + 2 && AsksEnough(c.size, log)
      ensures file.rows == old(file.rows) + Added(c, Begin(c, old(file.rows)).last, log)
      ensures written == |file.rows| - |old(file.rows)|
      // A server that pages a fixed list in key order, and a file that is a prefix of it.
      ensures w.Fixed? && ValidList(w.list) && c.hasKey && IsPrefix(old(file.rows), w.list) ==>
        IsPrefix(file.rows, w.list) && (ending == Exhausted ==> file.rows == w.list)
    {
      ghost var start := file.rows;
      var p, end := Open(w, c);
      LoggedFirst(c, start, ask);
      ending, written, log := Loop(w, c, ask, bound, rank, start, p, end);
      RequestsBounded(c, start, ask, log);
      RequestsAreSession(c, start, ask, log, ending);
      Conclude(w, c.hasKey);
    }

    ghost method Conclude(w: World, hasKey: bool)
      requires IsRun(w, hasKey, trace) && trace[0].proc.Idle?
      ensures w.Fixed? && ValidList(w.list) && hasKey && IsPrefix(trace[0].file, w.list) ==>
        var s := trace[|trace| - 1];
        IsPrefix(s.file, w.list) && (s.proc == Ended(Exhausted) ==> s.file == w.list)
    {
      if w.Fixed? && ValidList(w.list) && hasKey && IsPrefix(trace[0].file, w.list) {
        EveryRowOnce(w.list, trace, |trace| - 1);
      }
    }
  }
}
