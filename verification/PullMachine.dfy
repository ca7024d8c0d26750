/**
 * The fallback pager `pull` (scripts/pull_tickets_and_comments.py:640-844): its decisions as
 * functions, and the machine of its runs over one growing JSONL file, where a process may be
 * killed after any line.
 */
module PullMachine {
  import opened Options
  import opened Landing
  import opened Paging

  const MIN_PAGE_SIZE := 25

  /** `page_url`: key paging names the key, a last id and a page size; without a key only the
      expansions remain. `Link` is a continuation the server minted. */
  datatype Url = KeyPage(last: int, size: nat, expand: seq<string>) | Plain(expand: seq<string>) | Link(token: nat)

  /** `status` 0: the request never completed. `Garbled` is any exception but an ODataError. */
  datatype Response = Page(rows: seq<Row>, next: Option<nat>) | Failed(status: int) | Garbled

  /** What one run is called with. `hasKey`: the collection has an integer key property. */
  datatype Config = Config(hasKey: bool, size: nat, limit: Option<nat>, expand: seq<string>)

  /** The loop variables. */
  datatype Pager = Pager(url: Url, keyed: bool, expand: seq<string>, size: nat, last: int, pages: nat, written: nat)

  datatype Ending = Exhausted | Limited | Stalled | Raised | Mismatch

  function PageUrl(keyed: bool, last: int, size: nat, expand: seq<string>): Url {
    if keyed then KeyPage(last, size, expand) else Plain(expand)
  }

  /** `highest_id_on_disk`: a scan of every line, starting from zero. */
  function Highest(rows: seq<Row>): int {
    if rows == [] then 0 else
      var best, key := Highest(rows[..|rows| - 1]), rows[|rows| - 1].key;
      if key.Some? && key.value > best then key.value else best
  }

  function Begin(c: Config, file: seq<Row>): Pager {
    var last := if c.hasKey then Highest(file) else 0;
    Pager(PageUrl(c.hasKey, last, c.size, c.expand), c.hasKey, c.expand, c.size, last, 0, 0)
  }

  /** Rows on disk were written under another key name. */
  predicate Mismatched(c: Config, file: seq<Row>) {
    c.hasKey && file != [] && file[0].key.None?
  }

  /** The reaction to a failed page: halve, drop the expansions, drop the key, or give up. */
  function OnFailure(p: Pager, status: int): Option<Pager> {
    if status == 0 && p.keyed && p.size / 2 >= MIN_PAGE_SIZE then
      Some(p.(size := p.size / 2, url := PageUrl(true, p.last, p.size / 2, p.expand)))
    else if p.pages == 0 && p.expand != [] then
      Some(p.(expand := [], url := PageUrl(p.keyed, p.last, p.size, [])))
    else if p.pages == 0 && p.keyed then
      Some(p.(keyed := false, url := PageUrl(false, 0, p.size, p.expand)))
    else None
  }

  predicate AtOrBelow(row: Row, ceiling: int) {
    row.key.Some? && row.key.value <= ceiling
  }

  function Above(rows: seq<Row>, ceiling: int): seq<Row> {
    if rows == [] then [] else
      var before := Above(rows[..|rows| - 1], ceiling);
      if AtOrBelow(rows[|rows| - 1], ceiling) then before else before + [rows[|rows| - 1]]
  }

  /** Continuation paging restarts at the top: rows a previous run wrote are dropped. */
  function Fresh(c: Config, p: Pager, seen: int, rows: seq<Row>): seq<Row> {
    if !p.keyed && seen != 0 && c.hasKey then Above(rows, seen) else rows
  }

  /** After a page has been written: where to go next, or how the run ends. */
  function OnWritten(c: Config, p: Pager, rows: seq<Row>, added: nat, next: Option<nat>): (Pager, Option<Ending>) {
    var q := p.(written := p.written + added, pages := p.pages + 1);
    if c.limit.Some? && q.written >= c.limit.value then (q, Some(Limited))
    else if p.keyed then
      var highest := MaxId(rows);
      if highest.None? || highest.value <= p.last then (q, Some(Stalled))
      else (q.(last := highest.value, url := PageUrl(true, highest.value, p.size, p.expand)), None)
    else if next.None? then (q, Some(Exhausted))
    else (q.(url := Link(next.value)), None)
  }

  // ---- the machine ----

  datatype Proc =
    | Idle
    | Asking(c: Config, p: Pager, seen: int)
    | Writing(c: Config, p: Pager, seen: int, rows: seq<Row>, next: Option<nat>, done: nat)
    | Ended(ending: Ending)

  datatype State = State(file: seq<Row>, proc: Proc)

  datatype Step = Start(config: Config) | Ask(answer: Response) | Line | EndPage | Kill

  /** A relation between requests and answers: what is assumed of the server. */
  datatype World = Anything | Fixed(list: seq<Row>)

  /** A server that pages a fixed list in key order. It may refuse any request, and its pages
      may be shorter than asked for, though not empty while rows remain. Its continuations
      are positions in the list. */
  ghost predicate Stretch(list: seq<Row>, from: nat, rows: seq<Row>) {
    from + |rows| <= |list| && rows == list[from..from + |rows|] && (rows == [] ==> from == |list|)
  }

  ghost predicate CanAnswer(w: World, url: Url, answer: Response) {
    w.Fixed? && answer.Page? ==>
      match url
      case KeyPage(last, size, _) =>
        Stretch(w.list, Behind(w.list, last), answer.rows) && |answer.rows| <= size
      case Plain(_) => Continues(w.list, 0, answer)
      case Link(token) => token <= |w.list| && Continues(w.list, token, answer)
  }

  ghost predicate Continues(list: seq<Row>, from: nat, answer: Response)
    requires answer.Page?
  {
    && Stretch(list, from, answer.rows)
    && (answer.next.Some? ==> answer.next.value == from + |answer.rows|)
    && (answer.next.None? ==> from + |answer.rows| == |list|)
  }

  /** Every run of one collection agrees on whether it has a key. */
  ghost predicate Takes(w: World, hasKey: bool, s: State, e: Step, t: State) {
    match e
    case Start(c) =>
      && (s.proc.Idle? || s.proc.Ended?) && c.hasKey == hasKey && c.size > 0
      && t == s.(proc := if Mismatched(c, s.file) then Ended(Mismatch)
                         else Asking(c, Begin(c, s.file), Begin(c, s.file).last))
    case Ask(answer) =>
      && s.proc.Asking? && CanAnswer(w, s.proc.p.url, answer)
      && t == s.(proc :=
           match answer
           case Garbled => Ended(Raised)
           case Failed(status) =>
             (match OnFailure(s.proc.p, status)
              case None => Ended(Raised)
              case Some(q) => Asking(s.proc.c, q, s.proc.seen))
           case Page(rows, next) =>
             if rows == [] then Ended(Exhausted)
             else Writing(s.proc.c, s.proc.p, s.proc.seen, rows, next, 0))
    case Line =>
      && s.proc.Writing?
      && var added := Fresh(s.proc.c, s.proc.p, s.proc.seen, s.proc.rows);
         && s.proc.done < |added|
         && t == State(s.file + [added[s.proc.done]], s.proc.(done := s.proc.done + 1))
    case EndPage =>
      && s.proc.Writing?
      && var added := Fresh(s.proc.c, s.proc.p, s.proc.seen, s.proc.rows);
         && s.proc.done == |added|
         && var (q, end) := OnWritten(s.proc.c, s.proc.p, s.proc.rows, |added|, s.proc.next);
            t == s.(proc := if end.Some? then Ended(end.value) else Asking(s.proc.c, q, s.proc.seen))
    case Kill => !s.proc.Idle? && t == s.(proc := Idle)
  }

  ghost predicate Next(w: World, hasKey: bool, s: State, t: State) {
    exists e :: Takes(w, hasKey, s, e, t)
  }

  ghost predicate IsRun(w: World, hasKey: bool, trace: seq<State>) {
    trace != [] && forall i :: 0 <= i < |trace| - 1 ==> Next(w, hasKey, trace[i], trace[i + 1])
  }

  // ---- how often a page request can fail and be tried again ----

  /** How often a page size can be halved without going below the minimum. */
  function Halvings(size: nat): nat {
    if size / 2 >= MIN_PAGE_SIZE then 1 + Halvings(size / 2) else 0
  }

  function Pow2(n: nat): nat {
    if n == 0 then 1 else 2 * Pow2(n - 1)
  }

  /** That is the h with 25 * 2^h <= size < 25 * 2^(h+1): a logarithm. */
  lemma {:induction false} HalvingsIsLog(size: nat)
    requires size >= MIN_PAGE_SIZE
    ensures MIN_PAGE_SIZE * Pow2(Halvings(size)) <= size < MIN_PAGE_SIZE * Pow2(Halvings(size) + 1)
  {
    if size / 2 >= MIN_PAGE_SIZE {
      HalvingsIsLog(size / 2);
    }
  }

  /** Failures a pager can still survive. */
  function Budget(p: Pager): nat {
    (if p.keyed then Halvings(p.size) else 0) +
    (if p.pages == 0 then (if p.expand != [] then 1 else 0) + (if p.keyed then 1 else 0) else 0)
  }

  /** Every failure that is survived costs at least one, and never makes the page smaller than
      the minimum. */
  lemma FailureCosts(p: Pager, status: int)
    ensures OnFailure(p, status).Some? ==> Budget(OnFailure(p, status).value) < Budget(p)
    ensures OnFailure(p, status).Some? ==>
      OnFailure(p, status).value.size == p.size || OnFailure(p, status).value.size >= MIN_PAGE_SIZE
  {
  }

  /** How many failures in a row are survived when no request ever completes. */
  function Survived(p: Pager): nat
    decreases Budget(p)
  {
    FailureCosts(p, 0);
    match OnFailure(p, 0)
    case None => 0
    case Some(q) => 1 + Survived(q)
  }

  /** The budget is exact: against a server that never completes a request, every bit of it
      is spent. From the start of a keyed run with expansions that is h + 2. */
  lemma {:induction false} BudgetIsSpent(p: Pager)
    ensures Survived(p) == Budget(p)
    decreases Budget(p)
  {
    FailureCosts(p, 0);
    if OnFailure(p, 0).Some? {
      BudgetIsSpent(OnFailure(p, 0).value);
    }
  }

  lemma StartBudget(c: Config, file: seq<Row>)
    ensures Budget(Begin(c, file)) <= Halvings(c.size) + 2
    ensures c.hasKey && c.expand != [] ==> Budget(Begin(c, file)) == Halvings(c.size) + 2
  {
  }
}
