/**
 * `Crawler.sync_list` and `_prime_change_token` (src/spconnect/crawl.py:708-813) in the
 * source's own shape. As with the crawl, the ghost `trace` is the run of the sync machine
 * that this process is.
 */
module Sync {
  import opened Options
  import opened Landing
  import opened CrawlState
  import opened Storage
  import Paging
  import CrawlMachine
  import opened Crawl
  import opened SyncMachine

  const MAX_SYNC_PAGES := 500

  /** One `GetListItemChangesSinceToken` call. */
  datatype Reply =
    | Batch(rows: seq<Row>, deleted: seq<int>, lastToken: Option<string>, invalid: bool, more: bool)
    | SoapFault
    | Lost(abort: bool)

  datatype Gathering = All(ch: Changes) | Rejected | GaveUp(abort: bool)

  /** `FullCrawl` says whether the stored token had been rejected. */
  datatype SyncOutcome = Applied(written: int) | FullCrawl(rejected: bool, crawl: Outcome) | SyncRaised(abort: bool)

  predicate Truthy(token: Option<string>) {
    token.Some? && token.value != ""
  }

  function SetOf(ids: seq<int>): set<int> {
    set id | id in ids
  }

  /** All batches from request `n` on: rows in order, deletes as a set, the last token. */
  function Gather(ask: (nat, Option<string>) -> Reply, n: nat, token: Option<string>): Gathering
    decreases MAX_SYNC_PAGES - n
  {
    if n >= MAX_SYNC_PAGES then All(Changes([], {}, token)) else
      match ask(n, token)
      case SoapFault => Rejected
      case Lost(abort) => GaveUp(abort)
      case Batch(rows, deleted, lastToken, invalid, more) =>
        if invalid then Rejected else
          var next := if Truthy(lastToken) then lastToken else token;
          Prepend(rows, SetOf(deleted), if more then Gather(ask, n + 1, next) else All(Changes([], {}, next)))
  }

  function Prepend(rows: seq<Row>, deleted: set<int>, rest: Gathering): Gathering {
    match rest
    case All(ch) => All(ch.(rows := rows + ch.rows, deleted := deleted + ch.deleted))
    case _ => rest
  }

  lemma PrependTwice(rows: seq<Row>, deleted: set<int>, rows2: seq<Row>, deleted2: set<int>, rest: Gathering)
    ensures Prepend(rows, deleted, Prepend(rows2, deleted2, rest)) == Prepend(rows + rows2, deleted + deleted2, rest)
  {
    if rest.All? {
      assert rows + (rows2 + rest.ch.rows) == rows + rows2 + rest.ch.rows;
      assert deleted + (deleted2 + rest.ch.deleted) == deleted + deleted2 + rest.ch.deleted;
    }
  }

  /** The batch loop. */
  method GatherChanges(ask: (nat, Option<string>) -> Reply, token: Option<string>) returns (r: Gathering)
    ensures r == Gather(ask, 0, token)
    ensures r.All? ==> r.ch.token == token || Truthy(r.ch.token)
  {
    var current := token;
    var rows: seq<Row> := [];
    var deleted: set<int> := {};
    for n := 0 to MAX_SYNC_PAGES
      invariant Prepend(rows, deleted, Gather(ask, n, current)) == Gather(ask, 0, token)
      invariant current == token || Truthy(current)
    {
      var reply := ask(n, current);
      if reply.SoapFault? {
        return Rejected;
      }
      if reply.Lost? {
        return GaveUp(reply.abort);
      }
      if reply.invalid {
        return Rejected;
      }
      PrependTwice(rows, deleted, reply.rows, SetOf(reply.deleted),
                   if reply.more then Gather(ask, n + 1, if Truthy(reply.lastToken) then reply.lastToken else current)
                   else All(Changes([], {}, if Truthy(reply.lastToken) then reply.lastToken else current)));
      rows := rows + reply.rows;
      deleted := deleted + SetOf(reply.deleted);
      if Truthy(reply.lastToken) {
        current := reply.lastToken;
      }
      if !reply.more {
        return All(Changes(rows, deleted, current));
      }
    }
    return All(Changes(rows, deleted, current));
  }

  // ---- what was said ----

  predicate IsBatch(reply: Reply) {
    reply.Batch? && !reply.invalid
  }

  /** The server refuses the token. */
  predicate IsRefusal(reply: Reply) {
    reply.SoapFault? || (reply.Batch? && reply.invalid)
  }

  predicate GoesOn(reply: Reply) {
    IsBatch(reply) && reply.more
  }

  function NextToken(token: Option<string>, reply: Reply): Option<string> {
    if reply.Batch? && reply.lastToken.Some? && reply.lastToken.value != "" then reply.lastToken else token
  }

  function TokenAfter(token: Option<string>, replies: seq<Reply>): Option<string>
    decreases |replies|
  {
    if replies == [] then token else TokenAfter(NextToken(token, replies[0]), replies[1..])
  }

  function RowsIn(replies: seq<Reply>): seq<Row> {
    if replies == [] then [] else (if replies[0].Batch? then replies[0].rows else []) + RowsIn(replies[1..])
  }

  function DeletedIn(replies: seq<Reply>): set<int> {
    if replies == [] then {}
    else (if replies[0].Batch? then SetOf(replies[0].deleted) else {}) + DeletedIn(replies[1..])
  }

  /** Every reply answers the request made with the last token before it. */
  ghost predicate Answers(ask: (nat, Option<string>) -> Reply, n: nat, token: Option<string>, replies: seq<Reply>)
    decreases |replies|
  {
    replies == [] ||
    (replies[0] == ask(n, token) && Answers(ask, n + 1, NextToken(token, replies[0]), replies[1..]))
  }

  /** How a conversation ends: with the last batch, or the limit; with a refused token; or with a
      request that never came back. */
  ghost predicate EndsAs(n: nat, token: Option<string>, replies: seq<Reply>, r: Gathering) {
    match r
    case All(ch) =>
      && (forall i :: 0 <= i < |replies| ==> IsBatch(replies[i]))
      && (n + |replies| == 500 || (replies != [] && !GoesOn(replies[|replies| - 1])))
      && ch == Changes(RowsIn(replies), DeletedIn(replies), TokenAfter(token, replies))
    case Rejected => replies != [] && IsRefusal(replies[|replies| - 1])
    case GaveUp(abort) => replies != [] && replies[|replies| - 1] == Lost(abort)
  }

  ghost predicate Conversation(ask: (nat, Option<string>) -> Reply, n: nat, token: Option<string>,
                               replies: seq<Reply>, r: Gathering) {
    && n + |replies| <= 500 && Answers(ask, n, token, replies)
    && (forall i :: 0 <= i < |replies| - 1 ==> GoesOn(replies[i]))
    && EndsAs(n, token, replies, r)
  }

  lemma OneReplyMore(ask: (nat, Option<string>) -> Reply, n: nat, token: Option<string>, rest: seq<Reply>, r: Gathering)
    requires n < MAX_SYNC_PAGES && GoesOn(ask(n, token))
    requires Conversation(ask, n + 1, NextToken(token, ask(n, token)), rest, r)
    ensures var reply := ask(n, token);
      Conversation(ask, n, token, [reply] + rest, Prepend(reply.rows, SetOf(reply.deleted), r))
  {
    var replies := [ask(n, token)] + rest;
    assert replies[1..] == rest;
    forall i | 0 <= i < |replies| - 1 ensures GoesOn(replies[i]) {
      assert i > 0 ==> replies[i] == rest[i - 1];
    }
    assert rest != [] ==> replies[|replies| - 1] == rest[|rest| - 1];
  }

  lemma {:induction false} GatherIsSaid(ask: (nat, Option<string>) -> Reply, n: nat, token: Option<string>)
      returns (replies: seq<Reply>)
    requires n <= MAX_SYNC_PAGES
    ensures Conversation(ask, n, token, replies, Gather(ask, n, token))
    decreases MAX_SYNC_PAGES - n
  {
    if n == MAX_SYNC_PAGES {
      replies := [];
    } else if GoesOn(ask(n, token)) {
      var rest := GatherIsSaid(ask, n + 1, NextToken(token, ask(n, token)));
      OneReplyMore(ask, n, token, rest, Gather(ask, n + 1, NextToken(token, ask(n, token))));
      replies := [ask(n, token)] + rest;
    } else {
      replies := [ask(n, token)];
      assert replies[1..] == [] && RowsIn([]) == [] && DeletedIn([]) == {};
      assert ask(n, token).Batch? ==> ask(n, token).rows + [] == ask(n, token).rows;
    }
  }

  lemma {:induction false} SaidIsGathered(ask: (nat, Option<string>) -> Reply, n: nat, token: Option<string>,
                                          replies: seq<Reply>, r: Gathering)
    requires Conversation(ask, n, token, replies, r)
    ensures r == Gather(ask, n, token)
    decreases |replies|
  {
    if |replies| > 1 {
      var rest, next := replies[1..], NextToken(token, replies[0]);
      var tail := if r.All? then All(Changes(RowsIn(rest), DeletedIn(rest), TokenAfter(next, rest))) else r;
      assert GoesOn(replies[0]) && rest[|rest| - 1] == replies[|replies| - 1];
      forall i | 0 <= i < |rest| - 1 ensures GoesOn(rest[i]) {
        assert rest[i] == replies[i + 1];
      }
      SaidIsGathered(ask, n + 1, next, rest, tail);
    } else if |replies| == 1 {
      OneReply(token, replies[0]);
      assert replies == [replies[0]];
      if GoesOn(replies[0]) {
        LastReplyWithin(ask, n, token, replies[0]);
      }
    }
  }

  lemma {:induction false} OneReply(token: Option<string>, reply: Reply)
    ensures TokenAfter(token, [reply]) == NextToken(token, reply)
    ensures IsBatch(reply) ==> RowsIn([reply]) == reply.rows && DeletedIn([reply]) == SetOf(reply.deleted)
  {
    assert [reply][1..] == [] && RowsIn([]) == [] && DeletedIn([]) == {};
    if IsBatch(reply) {
      assert reply.rows + [] == reply.rows && SetOf(reply.deleted) + {} == SetOf(reply.deleted);
    }
  }

  /** The limit is reached: nothing is asked behind this reply. */
  lemma {:induction false} LastReplyWithin(ask: (nat, Option<string>) -> Reply, n: nat, token: Option<string>,
                                           reply: Reply)
    requires n + 1 == MAX_SYNC_PAGES && reply == ask(n, token) && GoesOn(reply)
    ensures Gather(ask, n, token) == All(Changes(reply.rows, SetOf(reply.deleted), NextToken(token, reply)))
  {
    var next := NextToken(token, reply);
    assert Gather(ask, n + 1, next) == All(Changes([], {}, next));
    assert Gather(ask, n, token) == Prepend(reply.rows, SetOf(reply.deleted), Gather(ask, n + 1, next));
    assert reply.rows + [] == reply.rows && SetOf(reply.deleted) + {} == SetOf(reply.deleted);
  }

  /** What is gathered is what was said: the rows of at most 500 batches in order, each asked for with
      the last token before it, and their deletes; the last one said there is no more, or the limit is
      reached. A refused token, or a request that never came back, ends it without either. */
  lemma {:induction false} GatheredExactly(ask: (nat, Option<string>) -> Reply, token: Option<string>, r: Gathering)
    ensures r == Gather(ask, 0, token) <==> exists replies :: Conversation(ask, 0, token, replies, r)
  {
    var said := GatherIsSaid(ask, 0, token);
    assert Conversation(ask, 0, token, said, Gather(ask, 0, token));
    forall replies | Conversation(ask, 0, token, replies, r) ensures r == Gather(ask, 0, token) {
      SaidIsGathered(ask, 0, token, replies, r);
    }
  }

  /** `max([entry.last_item_id, *changed_ids])`. */
  method FurthestLoop(last: int, rows: seq<Row>) returns (m: int)
    ensures m == Furthest(last, rows)
  {
    m := last;
    for i := 0 to |rows|
      invariant m == Furthest(last, rows[..i])
    {
      assert rows[..i + 1][..i] == rows[..i];
      if rows[i].key.Some? && rows[i].key.value > m {
        m := rows[i].key.value;
      }
    }
    assert rows[..|rows|] == rows;
  }

  /** A list that can be synced from its token; any other is crawled in full. */
  predicate Syncable(c: ListState) {
    c.status == Complete && Truthy(c.changeToken)
  }

  class Syncer {
    const crawler: Crawler
    const disk: Disk
    var itemsDeleted: nat
    ghost var trace: seq<State>
    ghost var mark: nat

    constructor (crawler: Crawler)
      requires crawler.Wired()
      ensures this.crawler == crawler && Wired() && itemsDeleted == 0
    {
      this.crawler, this.disk, itemsDeleted, trace, mark := crawler, crawler.disk, 0, [], 0;
    }

    ghost predicate Wired() {
      crawler.Wired() && disk == crawler.disk
    }

    ghost function Now(proc: Proc, removed: nat, seen: set<int>): State
      reads disk
    {
      State(disk.files, Lookup(disk.states, crawler.guid), proc, removed, seen)
    }

    ghost predicate Tracked(proc: Proc, removed: nat, seen: set<int>)
      reads this, disk
    {
      && IsRun(trace) && trace[|trace| - 1] == Now(proc, removed, seen)
      && forall k :: mark <= k < |disk.journal| ==>
           Passed(trace, disk.journal[k].files, Lookup(disk.journal[k].states, crawler.guid))
    }

    ghost method Record(e: Step, t: State)
      requires IsRun(trace) && Takes(trace[|trace| - 1], e, t)
      modifies this`trace
      ensures trace == old(trace) + [t] && IsRun(trace)
      ensures forall f, c :: Passed(old(trace), f, c) ==> Passed(trace, f, c)
      ensures Passed(trace, t.files, t.ckpt)
    {
      RunGrows(trace, e, t);
      trace := trace + [t];
    }

    /** Every touched id leaves both files, before anything is appended. */
    method DropTouched(ch: Changes) returns (removed: nat)
      requires Wired() && Tracked(Collected(ch), 0, Touched(ch))
      modifies this`trace, disk
      ensures Tracked(Filtered(ch), removed, Touched(ch))
      ensures disk.states == old(disk.states) && old(trace) <= trace
    {
      ghost var was := disk.files;
      removed := crawler.writer.DeleteItems(ChangedIds(ch.rows) + ch.deleted);
      if Touched(ch) == {} {
        Record(NoDrop, Now(Filtered(ch), 0, Touched(ch)));
      } else {
        ghost var half := Removals(was.items, Without(Touched(ch)));
        Record(DropItems, State(was.(items := disk.files.items), Lookup(disk.states, crawler.guid),
                                HalfFiltered(ch), half, Touched(ch)));
        Record(DropRaw, Now(Filtered(ch), removed, Touched(ch)));
      }
    }

    method OpenWriter(ghost ch: Changes, ghost removed: nat)
      requires Wired() && Tracked(Filtered(ch), removed, Touched(ch))
      modifies this`trace, disk
      ensures Tracked(Appending(ch, 0, false), removed, Touched(ch))
      ensures disk.states == old(disk.states) && old(trace) <= trace
    {
      ghost var was := disk.files;
      crawler.writer.Open();
      Record(OpenItems, State(was.(items := disk.files.items), Lookup(disk.states, crawler.guid),
                              HalfOpened(ch), removed, Touched(ch)));
      Record(OpenRaw, Now(Appending(ch, 0, false), removed, Touched(ch)));
    }

    method AppendChanged(ch: Changes, collect: Row -> Collected, ghost removed: nat)
      returns (written: nat, trouble: Collected, ghost next: nat)
      requires Wired() && Tracked(Appending(ch, 0, false), removed, Touched(ch))
      modifies this`trace, crawler`itemsWritten, crawler.writer, disk
      ensures next <= |ch.rows| && (trouble == Stored <==> next == |ch.rows|)
      ensures Tracked(Appending(ch, next, false), removed, Touched(ch))
      ensures trouble == Stored ==> written == |KeyedRows(ch.rows)|
      ensures trouble == Stored <==> Collects(ch.rows, collect)
      ensures trouble == Denied <==> DeniedFirst(ch.rows, collect)
      ensures disk.states == old(disk.states) && old(trace) <= trace
    {
      ghost var run := trace;
      written, trouble, next := crawler.WritePage(ch.rows, collect);
      if trouble != Stored {
        DeniedExactly(ch.rows, next, collect);
      }
      ghost var longer := ChangesAreRun(run, next);
      PassedPrefix(run, longer);
      trace := longer;
      KeyedCount(ch.rows);
      assert ch.rows[..|ch.rows|] == ch.rows;
    }

    method Rewrite(ch: Changes, collect: Row -> Collected)
      returns (removed: nat, written: nat, trouble: Collected, ghost next: nat)
      requires Wired() && Tracked(Collected(ch), 0, Touched(ch))
      modifies this`trace, this`itemsDeleted, crawler`itemsWritten, crawler.writer, disk
      ensures next <= |ch.rows| && (trouble == Stored <==> next == |ch.rows|)
      ensures Tracked(Appending(ch, next, false), removed, Touched(ch))
      ensures trouble == Stored ==> written == |KeyedRows(ch.rows)|
      ensures trouble == Stored <==> Collects(ch.rows, collect)
      ensures trouble == Denied <==> DeniedFirst(ch.rows, collect)
      ensures disk.states == old(disk.states) && old(trace) <= trace
      ensures itemsDeleted == old(itemsDeleted) + |ch.deleted|
    {
      removed := DropTouched(ch);
      itemsDeleted := itemsDeleted + |ch.deleted|;
      OpenWriter(ch, removed);
      written, trouble, next := AppendChanged(ch, collect, removed);
    }

    /**
     * The part of a sync that touches the disk. `base` and `seen` describe what earlier
     * processes left: both files can be brought back to the rows of `base` by any filter that
     * takes out the ids in `seen`. With `seen == {}` they simply hold `base`.
     */
    method ApplyChanges(ch: Changes, collect: Row -> Collected, ghost base: seq<Row>, ghost seen: set<int>)
      returns (written: nat, trouble: Collected, ghost removed: nat)
      requires Wired() && seen <= Touched(ch)
      requires Lookup(crawler.store.memory, crawler.guid) == Lookup(disk.states, crawler.guid)
      requires Syncable(Lookup(disk.states, crawler.guid))
      requires Inv(base, Now(Idle, 0, seen))
      modifies this, crawler`itemsWritten, crawler.writer, crawler.store, disk
      ensures IsRun(trace) && trace[0] == old(Now(Idle, 0, seen)) && mark == |old(disk.journal)|
      ensures itemsDeleted == old(itemsDeleted) + |ch.deleted|
      ensures trouble == Stored <==> Collects(ch.rows, collect)
      ensures trouble == Denied <==> DeniedFirst(ch.rows, collect)
      ensures trouble == Stored ==>
        && Tracked(Done(ch), removed, Touched(ch))
        && disk.files == Files(Whole(Synced(base, ch)), Whole(Synced(base, ch)))
        && Lookup(disk.states, crawler.guid) == SavedEntry(old(Lookup(disk.states, crawler.guid)), ch, removed)
        && Lookup(disk.states, crawler.guid).status == Complete
        && Lookup(disk.states, crawler.guid).changeToken == ch.token
        && written == |KeyedRows(ch.rows)|
      ensures Lookup(crawler.store.memory, crawler.guid) == Lookup(disk.states, crawler.guid)
      // Stopped by an error: nothing is saved yet, and the files are fit for a replay.
      ensures trouble != Stored ==>
        disk.states == old(disk.states) && Inv(base, Now(Idle, 0, Touched(ch)))
    {
      trace, mark := [Now(Idle, 0, seen)], |disk.journal|;
      Record(Begin(ch), Now(Collected(ch), 0, Touched(ch)));
      var count; ghost var next;
      count, written, trouble, next := Rewrite(ch, collect);
      removed := count;
      if trouble == Stored {
        SaveSynced(ch, written, count);
        RunKeepsInv(base, trace, |trace| - 1);
      } else {
        RunKeepsInv(base, trace, |trace| - 1);
        StoppedIsReplayable(base, trace[|trace| - 1]);
      }
    }

    method SaveSynced(ch: Changes, written: nat, removed: nat)
      requires Wired() && Tracked(Appending(ch, |ch.rows|, false), removed, Touched(ch))
      requires Lookup(crawler.store.memory, crawler.guid) == Lookup(disk.states, crawler.guid)
      requires written == |KeyedRows(ch.rows)|
      modifies this`trace, crawler.store, disk
      ensures Tracked(Done(ch), removed, Touched(ch)) && old(trace) <= trace
      ensures Lookup(disk.states, crawler.guid) == SavedEntry(old(Lookup(disk.states, crawler.guid)), ch, removed)
      ensures Lookup(crawler.store.memory, crawler.guid) == Lookup(disk.states, crawler.guid)
      ensures disk.files == old(disk.files)
    {
      var entry := crawler.store.Get(crawler.guid);
      var last := FurthestLoop(entry.lastItemId, ch.rows);
      var total := entry.itemsWritten - removed + written;
      crawler.store.Update(crawler.guid, ListState(last, if total < 0 then 0 else total, ch.token, Complete));
      crawler.store.Save();
      Record(Save, Now(Done(ch), removed, Touched(ch)));
    }

    /** After a full crawl: store a token, if the server gives one, so that the next sync can
        start from it. */
    method PrimeChangeToken(reply: Reply)
      requires Wired()
      requires Lookup(crawler.store.memory, crawler.guid) == Lookup(disk.states, crawler.guid)
      modifies crawler.store, disk
      ensures disk.files == old(disk.files)
      ensures Lookup(crawler.store.memory, crawler.guid) == Lookup(disk.states, crawler.guid)
      ensures Lookup(disk.states, crawler.guid) ==
              if reply.Batch? && reply.lastToken.Some? && reply.lastToken.value != ""
              then old(Lookup(disk.states, crawler.guid)).(changeToken := reply.lastToken)
              else old(Lookup(disk.states, crawler.guid))
    {
      if reply.Batch? && Truthy(reply.lastToken) {
        var entry := crawler.store.Get(crawler.guid);
        crawler.store.Update(crawler.guid, entry.(changeToken := reply.lastToken));
        crawler.store.Save();
      }
    }

    /** What an incremental sync starts from: files that hold the rows of `base`, or what syncs that
        died over them left, having touched the ids in `seen`, all of which are reported again. */
    ghost predicate Replayable(ask: (nat, Option<string>) -> Reply, base: seq<Row>, seen: set<int>)
      reads this, crawler, disk
    {
      var g := Gather(ask, 0, Lookup(disk.states, crawler.guid).changeToken);
      Inv(base, Now(Idle, 0, seen)) && (g.All? ==> seen <= Touched(g.ch))
    }

    /** The way back to a full crawl, and a token for the next sync. */
    method CrawlInstead(hasTokens: bool, collect: Row -> Collected, askPage: (nat, int) -> Answer, prime: Reply,
                        ghost w: CrawlMachine.World, ghost bound: int)
      returns (crawl: Outcome, ghost stop: Stop)
      requires Wired() && crawler.Serves(w, askPage, bound)
      requires SameButToken(Lookup(crawler.store.memory, crawler.guid), Lookup(disk.states, crawler.guid))
      modifies crawler, crawler.writer, crawler.store, disk
      ensures !crawl.Skipped? && (crawl.Raised? ==> StoppedAt(askPage, stop, collect, crawl.abort))
      ensures Lookup(disk.states, crawler.guid).status ==
              if !crawl.Raised? then Complete
              else if RefusesCredential(askPage(stop.n, stop.last), stop.last, collect) then InProgress else Failed
      ensures Lookup(disk.states, crawler.guid).changeToken ==
              if hasTokens && !crawl.Raised? && prime.Batch? && Truthy(prime.lastToken) then prime.lastToken
              else old(Lookup(crawler.store.memory, crawler.guid)).changeToken
      ensures Lookup(crawler.store.memory, crawler.guid) == Lookup(disk.states, crawler.guid)
      // Over any files and any checkpoint, a crawl that raises nothing has the whole list.
      ensures !crawl.Raised? && w.Fixed? && Paging.ValidList(w.rows) && crawler.pageSize > 0 ==>
        disk.files == Files(Whole(w.rows), Whole(w.rows))
    {
      crawl, stop := crawler.CrawlGuarded(w, false, askPage, collect, bound);
      if hasTokens && !crawl.Raised? {
        PrimeChangeToken(prime);
      }
    }

    /**
     * One list of a sync. Without change tokens on the server, without a stored token, behind an
     * unfinished crawl, or when the token is rejected it is a full crawl; otherwise the changes
     * since the token are collected and applied.
     */
    method SyncList(hasTokens: bool, ask: (nat, Option<string>) -> Reply, collect: Row -> Collected,
                    askPage: (nat, int) -> Answer, prime: Reply,
                    ghost w: CrawlMachine.World, ghost bound: int, ghost base: seq<Row>, ghost seen: set<int>)
      returns (outcome: SyncOutcome, ghost stop: Stop)
      requires Wired() && crawler.Serves(w, askPage, bound)
      requires Lookup(crawler.store.memory, crawler.guid) == Lookup(disk.states, crawler.guid)
      requires hasTokens && Syncable(Lookup(disk.states, crawler.guid)) ==> Replayable(ask, base, seen)
      modifies this, crawler, crawler.writer, crawler.store, disk
      ensures var c := old(Lookup(disk.states, crawler.guid));
        var usable := c.status == Complete && c.changeToken.Some? && c.changeToken.value != "";
        && (outcome.FullCrawl? <==> !hasTokens || !usable || Gather(ask, 0, c.changeToken).Rejected?)
        && (outcome.FullCrawl? ==> (outcome.rejected <==> hasTokens && usable))
      // Otherwise it raises exactly when the changes or an attachment cannot be had.
      ensures var g := Gather(ask, 0, old(Lookup(disk.states, crawler.guid)).changeToken);
        outcome.SyncRaised? <==>
          hasTokens && Syncable(old(Lookup(disk.states, crawler.guid)))
          && (g.GaveUp? || (g.All? && !Collects(g.ch.rows, collect)))
      ensures outcome.Applied? ==>
        var c := old(Lookup(disk.states, crawler.guid));
        var g := Gather(ask, 0, c.changeToken);
        && g.All? && disk.files == Files(Whole(Synced(base, g.ch)), Whole(Synced(base, g.ch)))
        && Lookup(disk.states, crawler.guid).changeToken == g.ch.token
        && Lookup(disk.states, crawler.guid).lastItemId == Furthest(c.lastItemId, g.ch.rows)
        && outcome.written == |KeyedRows(g.ch.rows)| && itemsDeleted == old(itemsDeleted) + |g.ch.deleted|
      // The list stays one that can be synced from its token.
      ensures outcome.Applied? ==> Syncable(Lookup(disk.states, crawler.guid))
      // A refused credential: the changes were lost to it, or the first attachment that was.
      ensures outcome.SyncRaised? ==>
        var g := Gather(ask, 0, old(Lookup(disk.states, crawler.guid)).changeToken);
        && disk.states == old(disk.states)
        && (outcome.abort <==> g == GaveUp(true) || (g.All? && DeniedFirst(g.ch.rows, collect)))
      ensures outcome.FullCrawl? ==>
        && (outcome.crawl.Raised? ==> StoppedAt(askPage, stop, collect, outcome.crawl.abort))
        && Lookup(disk.states, crawler.guid).status ==
             if !outcome.crawl.Raised? then Complete
             else if RefusesCredential(askPage(stop.n, stop.last), stop.last, collect) then InProgress else Failed
      ensures Lookup(crawler.store.memory, crawler.guid) == Lookup(disk.states, crawler.guid)
      // A full crawl that raises nothing leaves a token from the server or none, never the
      // rejected one.
      ensures outcome.FullCrawl? && outcome.rejected && !outcome.crawl.Raised? ==>
        Lookup(disk.states, crawler.guid).changeToken ==
          if prime.Batch? && Truthy(prime.lastToken) then prime.lastToken else None
      ensures outcome.FullCrawl? && !outcome.crawl.Raised? && w.Fixed? && Paging.ValidList(w.rows)
              && crawler.pageSize > 0 ==>
        disk.files == Files(Whole(w.rows), Whole(w.rows))
    {
      stop := Stop(0, 0);
      var entry := crawler.store.Get(crawler.guid);
      if !hasTokens || !Truthy(entry.changeToken) || entry.status != Complete {
        var crawl;
        crawl, stop := CrawlInstead(hasTokens, collect, askPage, prime, w, bound);
        return FullCrawl(false, crawl), stop;
      }
      var g := GatherChanges(ask, entry.changeToken);
      match g
      case Rejected =>
        crawler.store.Update(crawler.guid, entry.(changeToken := None));
        var crawl;
        crawl, stop := CrawlInstead(hasTokens, collect, askPage, prime, w, bound);
        return FullCrawl(true, crawl), stop;
      case GaveUp(abort) =>
        return SyncRaised(abort), stop;
      case All(ch) =>
        var written, trouble; ghost var removed;
        written, trouble, removed := ApplyChanges(ch, collect, base, seen);
        if trouble != Stored {
          return SyncRaised(trouble.Denied?), stop;
        }
        return Applied(written), stop;
    }

    /** One list inside `sync`: an error that reaches the handler is saved as status `failed`, so
        the next sync of this list is a full crawl; a refused credential saves nothing, so the
        next sync replays from the old token. */
    method SyncGuarded(hasTokens: bool, ask: (nat, Option<string>) -> Reply, collect: Row -> Collected,
                       askPage: (nat, int) -> Answer, prime: Reply,
                       ghost w: CrawlMachine.World, ghost bound: int, ghost base: seq<Row>, ghost seen: set<int>)
      returns (outcome: SyncOutcome, ghost stop: Stop)
      requires Wired() && crawler.Serves(w, askPage, bound)
      requires Lookup(crawler.store.memory, crawler.guid) == Lookup(disk.states, crawler.guid)
      requires hasTokens && Syncable(Lookup(disk.states, crawler.guid)) ==> Replayable(ask, base, seen)
      modifies this, crawler, crawler.writer, crawler.store, disk
      ensures outcome.SyncRaised? ==>
        var was := old(Lookup(disk.states, crawler.guid));
        var g := Gather(ask, 0, was.changeToken);
        var refused := g == GaveUp(true) || (g.All? && DeniedFirst(g.ch.rows, collect));
        && outcome.abort == refused
        && Lookup(disk.states, crawler.guid) == (if refused then was else was.(status := Failed))
        && (Syncable(Lookup(disk.states, crawler.guid)) <==> refused)
      ensures outcome.Applied? ==> Syncable(Lookup(disk.states, crawler.guid))
      // A full crawl has its own handler: complete, or stopped by an answer.
      ensures outcome.FullCrawl? ==>
        && (outcome.crawl.Raised? ==> StoppedAt(askPage, stop, collect, outcome.crawl.abort))
        && Lookup(disk.states, crawler.guid).status ==
             if !outcome.crawl.Raised? then Complete
             else if RefusesCredential(askPage(stop.n, stop.last), stop.last, collect) then InProgress else Failed
      ensures Lookup(crawler.store.memory, crawler.guid) == Lookup(disk.states, crawler.guid)
    {
      outcome, stop := SyncList(hasTokens, ask, collect, askPage, prime, w, bound, base, seen);
      if outcome.SyncRaised? && !outcome.abort {
        var entry := crawler.store.Get(crawler.guid);
        crawler.store.Update(crawler.guid, entry.(status := Failed));
        crawler.store.Save();
      }
    }
  }

  /** A process that stops while appending leaves what a replay can start from. */
  lemma StoppedIsReplayable(base: seq<Row>, s: State)
    requires Inv(base, s) && s.proc.Appending?
    ensures Inv(base, s.(proc := Idle, removed := 0))
  {
    KillStep(base, s, Kill, s.(proc := Idle));
  }
}
