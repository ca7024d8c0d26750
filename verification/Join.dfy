/**
 * Attaching comments to tickets (`join` and `sort_key`,
 * scripts/pull_tickets_and_comments.py:1255-1333), the parent property being known. A comment
 * carries what `parent_value` and `sort_key` read from it.
 */
module Join {
  import opened Options

  /** `written` is the instant it was written, if that is known; undated comments sort first. */
  datatype Comment = Comment(parent: Option<int>, written: Option<real>, id: int, body: string)

  datatype Ticket = Ticket(id: Option<int>, body: string)

  datatype JoinedTicket = JoinedTicket(ticket: Ticket, comments: seq<Comment>)

  // ---- the order of a thread ----

  /** `sort_key(a) <= sort_key(b)`. */
  predicate NotAfter(a: Comment, b: Comment) {
    if a.written == b.written then a.id <= b.id
    else a.written.None? || (b.written.Some? && a.written.value < b.written.value)
  }

  predicate SameKey(a: Comment, b: Comment) {
    a.written == b.written && a.id == b.id
  }

  /** Undated comments first, then by the date they were written, and on one date by id. */
  ghost predicate InOrder(s: seq<Comment>) {
    forall i, j :: 0 <= i < j < |s| ==> ComesFirst(s[i], s[j])
  }

  ghost predicate ComesFirst(a: Comment, b: Comment) {
    && (b.written.None? ==> a.written.None?)
    && (a.written.Some? && b.written.Some? ==> a.written.value <= b.written.value)
    && (a.written == b.written ==> a.id <= b.id)
  }

  lemma NotAfterComesFirst(a: Comment, b: Comment)
    ensures NotAfter(a, b) <==> ComesFirst(a, b)
  {
  }

  /** Behind everything that is not after it. */
  function Insert(s: seq<Comment>, c: Comment): seq<Comment> {
    if s == [] || NotAfter(s[|s| - 1], c) then s + [c] else Insert(s[..|s| - 1], c) + [s[|s| - 1]]
  }

  /** `list.sort(key=sort_key)`. */
  function Sorted(s: seq<Comment>): seq<Comment> {
    if s == [] then [] else Insert(Sorted(s[..|s| - 1]), s[|s| - 1])
  }

  /** The comments with one sort key, in order. */
  function WithKey(s: seq<Comment>, key: Comment): seq<Comment> {
    if s == [] then [] else WithKey(s[..|s| - 1], key) + if SameKey(s[|s| - 1], key) then [s[|s| - 1]] else []
  }

  lemma {:induction false} WithKeyOneMore(s: seq<Comment>, c: Comment, key: Comment)
    ensures WithKey(s + [c], key) == WithKey(s, key) + if SameKey(c, key) then [c] else []
  {
    assert (s + [c])[..|s|] == s;
  }

  lemma {:induction false} InsertAdds(s: seq<Comment>, c: Comment)
    ensures multiset(Insert(s, c)) == multiset(s) + multiset{c}
  {
    if s != [] && !NotAfter(s[|s| - 1], c) {
      assert s == s[..|s| - 1] + [s[|s| - 1]];
      InsertAdds(s[..|s| - 1], c);
    }
  }

  /** Only a comment with another key is overtaken. */
  lemma {:induction false} InsertKeepsKey(s: seq<Comment>, c: Comment, key: Comment)
    ensures WithKey(Insert(s, c), key) == WithKey(s, key) + if SameKey(c, key) then [c] else []
  {
    if s == [] || NotAfter(s[|s| - 1], c) {
      WithKeyOneMore(s, c, key);
    } else {
      var front, last := s[..|s| - 1], s[|s| - 1];
      InsertKeepsKey(front, c, key);
      WithKeyOneMore(Insert(front, c), last, key);
      assert !SameKey(last, c);
    }
  }

  lemma {:induction false} InsertIsInOrder(s: seq<Comment>, c: Comment)
    requires InOrder(s)
    ensures InOrder(Insert(s, c))
  {
    if s != [] && !NotAfter(s[|s| - 1], c) {
      var front, last := s[..|s| - 1], s[|s| - 1];
      InsertIsInOrder(front, c);
      forall i | 0 <= i < |Insert(front, c)| ensures NotAfter(Insert(front, c)[i], last) {
        InsertHolds(front, c, i);
      }
    }
  }

  lemma {:induction false} InsertHolds(s: seq<Comment>, c: Comment, i: nat)
    requires i < |Insert(s, c)|
    ensures Insert(s, c)[i] == c || Insert(s, c)[i] in s
  {
    if s != [] && !NotAfter(s[|s| - 1], c) && i < |Insert(s[..|s| - 1], c)| {
      InsertHolds(s[..|s| - 1], c, i);
    }
  }

  /** A thread is sorted, holds the same comments, and comments with one key keep their order. */
  lemma {:induction false} SortIsStable(s: seq<Comment>, key: Comment)
    ensures InOrder(Sorted(s)) && multiset(Sorted(s)) == multiset(s)
    ensures WithKey(Sorted(s), key) == WithKey(s, key)
  {
    if s != [] {
      var front, last := s[..|s| - 1], s[|s| - 1];
      assert s == front + [last];
      SortIsStable(front, key);
      InsertAdds(Sorted(front), last);
      InsertKeepsKey(Sorted(front), last, key);
      InsertIsInOrder(Sorted(front), last);
    }
  }

  // ---- joining ----

  /** The comments on one ticket, in the order they were read. */
  function On(comments: seq<Comment>, id: int): seq<Comment> {
    if comments == [] then [] else
      var last := comments[|comments| - 1];
      On(comments[..|comments| - 1], id) + if last.parent == Some(id) then [last] else []
  }

  function Thread(comments: seq<Comment>, ticket: Ticket): seq<Comment> {
    if ticket.id.None? then [] else Sorted(On(comments, ticket.id.value))
  }

  function Orphans(comments: seq<Comment>): nat {
    if comments == [] then 0
    else Orphans(comments[..|comments| - 1]) + if comments[|comments| - 1].parent.None? then 1 else 0
  }

  /** The comments by parent; no group is empty. */
  ghost predicate Groups(grouped: map<int, seq<Comment>>, comments: seq<Comment>) {
    forall id :: On(comments, id) == Group(grouped, id) && (id in grouped ==> grouped[id] != [])
  }

  function Group(grouped: map<int, seq<Comment>>, id: int): seq<Comment> {
    if id in grouped then grouped[id] else []
  }

  /** `grouped[parent].append(comment)`. */
  function AddTo(grouped: map<int, seq<Comment>>, parent: int, c: Comment): map<int, seq<Comment>> {
    grouped[parent := Group(grouped, parent) + [c]]
  }

  lemma {:induction false} OnOneMore(comments: seq<Comment>, c: Comment, id: int)
    ensures On(comments + [c], id) == On(comments, id) + if c.parent == Some(id) then [c] else []
  {
    assert (comments + [c])[..|comments|] == comments;
  }

  lemma GroupOneMore(grouped: map<int, seq<Comment>>, comments: seq<Comment>, c: Comment)
    requires Groups(grouped, comments)
    ensures Groups(if c.parent.None? then grouped else AddTo(grouped, c.parent.value, c), comments + [c])
  {
    var grouped' := if c.parent.None? then grouped else AddTo(grouped, c.parent.value, c);
    forall id ensures On(comments + [c], id) == Group(grouped', id) && (id in grouped' ==> grouped'[id] != []) {
      OnOneMore(comments, c, id);
      assert On(comments, id) == Group(grouped, id);
    }
  }

  method GroupByParent(comments: seq<Comment>) returns (grouped: map<int, seq<Comment>>, orphans: nat)
    ensures Groups(grouped, comments) && orphans == Orphans(comments)
  {
    grouped, orphans := map[], 0;
    var k := 0;
    while k < |comments|
      invariant 0 <= k <= |comments|
      invariant Groups(grouped, comments[..k]) && orphans == Orphans(comments[..k])
    {
      var comment := comments[k];
      GroupOneMore(grouped, comments[..k], comment);
      assert comments[..k + 1] == comments[..k] + [comment];
      assert comments[..k + 1][..k] == comments[..k];
      if comment.parent.None? {
        orphans := orphans + 1;
      } else {
        grouped := AddTo(grouped, comment.parent.value, comment);
      }
      k := k + 1;
    }
    assert comments[..k] == comments;
  }

  lemma ThreadIsGroup(grouped: map<int, seq<Comment>>, comments: seq<Comment>, ticket: Ticket)
    requires Groups(grouped, comments)
    ensures Thread(comments, ticket) == if ticket.id.Some? then Sorted(Group(grouped, ticket.id.value)) else []
  {
  }

  /** One line per ticket, in the tickets' order, with its sorted thread; nothing at all without
      comments. */
  method JoinRows(tickets: seq<Ticket>, comments: seq<Comment>)
    returns (lines: seq<JoinedTicket>, orphans: nat, unmatched: set<int>)
    ensures comments == [] ==> lines == []
    ensures comments != [] ==> |lines| == |tickets|
    ensures comments != [] ==>
      forall i :: 0 <= i < |tickets| ==> lines[i] == JoinedTicket(tickets[i], Thread(comments, tickets[i]))
    ensures orphans == Orphans(comments)
    ensures forall id :: id in unmatched <==> On(comments, id) != [] && Times(tickets, id) == 0
  {
    lines, orphans, unmatched := [], 0, {};
    if comments == [] {
      return;
    }
    var grouped;
    grouped, orphans := GroupByParent(comments);
    var k := 0;
    while k < |tickets|
      invariant 0 <= k <= |tickets| && |lines| == k
      invariant forall i :: 0 <= i < k ==> lines[i] == JoinedTicket(tickets[i], Thread(comments, tickets[i]))
    {
      var id := tickets[k].id;
      var thread := if id.Some? then Sorted(Group(grouped, id.value)) else [];
      ThreadIsGroup(grouped, comments, tickets[k]);
      lines := lines + [JoinedTicket(tickets[k], thread)];
      k := k + 1;
    }
    unmatched := Unmatched(grouped, comments, tickets);
  }

  function Ids(tickets: seq<Ticket>): set<int> {
    set t | t in tickets && t.id.Some? :: t.id.value
  }

  function Unmatched(grouped: map<int, seq<Comment>>, comments: seq<Comment>, tickets: seq<Ticket>): (ids: set<int>)
    requires Groups(grouped, comments)
    ensures forall id :: id in ids <==> On(comments, id) != [] && Times(tickets, id) == 0
  {
    IdsAreTimes(tickets);
    grouped.Keys - Ids(tickets)
  }

  lemma {:induction false} IdsAreTimes(tickets: seq<Ticket>)
    ensures forall id :: id in Ids(tickets) <==> Times(tickets, id) != 0
  {
    forall id ensures id in Ids(tickets) <==> Times(tickets, id) != 0 {
      TimesIsNone(tickets, id);
    }
  }

  // ---- conservation ----

  /** How many tickets have an id. */
  function Times(tickets: seq<Ticket>, id: int): nat {
    if tickets == [] then 0
    else Times(tickets[..|tickets| - 1], id) + if tickets[|tickets| - 1].id == Some(id) then 1 else 0
  }

  lemma {:induction false} TimesIsNone(tickets: seq<Ticket>, id: int)
    ensures Times(tickets, id) == 0 <==> forall t :: t in tickets ==> t.id != Some(id)
  {
    if tickets != [] {
      assert tickets == tickets[..|tickets| - 1] + [tickets[|tickets| - 1]];
      TimesIsNone(tickets[..|tickets| - 1], id);
    }
  }

  /** The comments written out, over all tickets. */
  function Attached(tickets: seq<Ticket>, comments: seq<Comment>): nat {
    if tickets == [] then 0
    else Attached(tickets[..|tickets| - 1], comments) + |Thread(comments, tickets[|tickets| - 1])|
  }

  /** The comments whose parent is no ticket at hand. */
  function Strays(tickets: seq<Ticket>, comments: seq<Comment>): nat {
    if comments == [] then 0 else
      var parent := comments[|comments| - 1].parent;
      Strays(tickets, comments[..|comments| - 1])
      + if parent.Some? && Times(tickets, parent.value) == 0 then 1 else 0
  }

  /** How often one comment is written out. */
  function Copies(tickets: seq<Ticket>, c: Comment): nat {
    if c.parent.None? then 0 else Times(tickets, c.parent.value)
  }

  lemma {:induction false} AttachedOneMore(tickets: seq<Ticket>, comments: seq<Comment>, c: Comment)
    ensures Attached(tickets, comments + [c]) == Attached(tickets, comments) + Copies(tickets, c)
  {
    if tickets != [] {
      var last := tickets[|tickets| - 1];
      AttachedOneMore(tickets[..|tickets| - 1], comments, c);
      ThreadOneMore(comments, c, last);
    }
  }

  lemma ThreadOneMore(comments: seq<Comment>, c: Comment, t: Ticket)
    ensures |Thread(comments + [c], t)| == |Thread(comments, t)| + if t.id.Some? && c.parent == t.id then 1 else 0
  {
    assert (comments + [c])[..|comments|] == comments;
    if t.id.Some? {
      SortKeepsLength(On(comments, t.id.value));
      SortKeepsLength(On(comments + [c], t.id.value));
    }
  }

  lemma {:induction false} SortKeepsLength(s: seq<Comment>)
    ensures |Sorted(s)| == |s|
  {
    SortIsStable(s, Comment(None, None, 0, ""));
    assert |multiset(Sorted(s))| == |multiset(s)|;
  }

  lemma {:induction false} AttachedToNothing(tickets: seq<Ticket>)
    ensures Attached(tickets, []) == 0
  {
    if tickets != [] {
      AttachedToNothing(tickets[..|tickets| - 1]);
      SortKeepsLength([]);
    }
  }

  /** No ticket that has comments is there twice. */
  ghost predicate OncePerParent(tickets: seq<Ticket>, comments: seq<Comment>) {
    forall i :: 0 <= i < |comments| ==> Copies(tickets, comments[i]) <= 1
  }

  /** Nothing is lost and nothing written twice exactly when no ticket with comments repeats:
      attached, orphaned and stray comments are then all comments. It is never fewer. */
  lemma {:induction false} JoinConservesExactly(tickets: seq<Ticket>, comments: seq<Comment>)
    ensures var all := Attached(tickets, comments) + Orphans(comments) + Strays(tickets, comments);
      all >= |comments| && (all == |comments| <==> OncePerParent(tickets, comments))
  {
    if comments == [] {
      AttachedToNothing(tickets);
    } else {
      var front, last := comments[..|comments| - 1], comments[|comments| - 1];
      assert comments == front + [last];
      JoinConservesExactly(tickets, front);
      AttachedOneMore(tickets, front, last);
      assert OncePerParent(tickets, comments) <==> OncePerParent(tickets, front) && Copies(tickets, last) <= 1 by {
        forall i | 0 <= i < |front| ensures comments[i] == front[i] {}
      }
    }
  }

  lemma {:induction false} DistinctTimes(tickets: seq<Ticket>, id: int)
    requires forall i, j :: 0 <= i < j < |tickets| ==> tickets[i].id.None? || tickets[i].id != tickets[j].id
    ensures Times(tickets, id) <= 1
  {
    if tickets != [] {
      var front, last := tickets[..|tickets| - 1], tickets[|tickets| - 1];
      DistinctTimes(front, id);
      if last.id == Some(id) {
        TimesIsNone(front, id);
      }
    }
  }

  /** With distinct ticket ids every comment is conserved: written out once, or an orphan, or a
      stray. */
  lemma {:induction false} DistinctTicketsConserve(tickets: seq<Ticket>, comments: seq<Comment>)
    requires forall i, j :: 0 <= i < j < |tickets| ==> tickets[i].id.None? || tickets[i].id != tickets[j].id
    ensures Attached(tickets, comments) + Orphans(comments) + Strays(tickets, comments) == |comments|
    ensures forall i :: 0 <= i < |comments| ==> Copies(tickets, comments[i]) <= 1
  {
    forall i | 0 <= i < |comments| && comments[i].parent.Some? ensures Copies(tickets, comments[i]) <= 1 {
      DistinctTimes(tickets, comments[i].parent.value);
    }
    JoinConservesExactly(tickets, comments);
  }
}
