/**
 * `WebsService._walk` (src/spconnect/services/webs.py:134-184): the breadth-first walk over
 * webs, with a depth limit, on a graph that may be cyclic or infinite. A web's children are
 * known only by reading it.
 */
module Webs {
  datatype WebRef = WebRef(title: string, url: string)

  datatype Reading = Children(webs: seq<WebRef>) | Unreadable | Unauthorized

  datatype Visit = Visit(url: string, depth: nat)

  /** `RootUnreadable` and `Denied` are the two exceptions that leave the walk. */
  datatype Discovery =
    | Found(webs: map<string, WebRef>, depthReached: nat, unreadable: seq<string>, cutOff: seq<string>)
    | RootUnreadable
    | Denied

  // ---- distance ----

  ghost function ChildUrls(read: string -> Reading, urls: set<string>): set<string> {
    set u, i | u in urls && read(u).Children? && 0 <= i < |read(u).webs| :: read(u).webs[i].url
  }

  /** The webs at most `k` readable steps away from the root. */
  ghost function Reach(read: string -> Reading, root: string, k: nat): set<string> {
    if k == 0 then {root} else Reach(read, root, k - 1) + ChildUrls(read, Reach(read, root, k - 1))
  }

  /** An independent reading of the same: a chain of webs, each named by the one before it. */
  ghost predicate IsChain(read: string -> Reading, root: string, chain: seq<string>) {
    && chain != [] && chain[0] == root
    && forall i :: 0 < i < |chain| ==> Names(read, chain[i - 1], chain[i])
  }

  ghost predicate Names(read: string -> Reading, parent: string, child: string) {
    read(parent).Children? && exists i :: 0 <= i < |read(parent).webs| && read(parent).webs[i].url == child
  }

  lemma {:induction false} ReachGrows(read: string -> Reading, root: string, j: nat, k: nat)
    requires j <= k
    ensures Reach(read, root, j) <= Reach(read, root, k)
  {
    if j < k {
      ReachGrows(read, root, j, k - 1);
    }
  }

  /** No web in it names one that is not. */
  ghost predicate Closed(read: string -> Reading, urls: set<string>) {
    forall parent, child :: parent in urls && Names(read, parent, child) ==> child in urls
  }

  lemma NamedWithin(read: string -> Reading, urls: set<string>, r: set<string>)
    requires Closed(read, r) && urls <= r
    ensures ChildUrls(read, urls) <= r
  {
    forall child | child in ChildUrls(read, urls) ensures child in r {
      var parent, i :| parent in urls && read(parent).Children? && 0 <= i < |read(parent).webs|
                       && read(parent).webs[i].url == child;
      assert Names(read, parent, child);
    }
  }

  /** Nothing outside a closed set is reached from inside. */
  lemma {:induction false} ReachWithin(read: string -> Reading, root: string, k: nat, r: set<string>)
    requires Closed(read, r) && root in r
    ensures Reach(read, root, k) <= r
  {
    if k > 0 {
      ReachWithin(read, root, k - 1, r);
      NamedWithin(read, Reach(read, root, k - 1), r);
    }
  }

  lemma {:induction false} ReachFixpoint(read: string -> Reading, root: string, j: nat, k: nat)
    requires j <= k && Closed(read, Reach(read, root, j))
    ensures Reach(read, root, k) == Reach(read, root, j)
  {
    ReachGrows(read, root, 0, j);
    ReachWithin(read, root, k, Reach(read, root, j));
    ReachGrows(read, root, j, k);
  }

  lemma {:induction false} ChainReaches(read: string -> Reading, root: string, chain: seq<string>)
    requires IsChain(read, root, chain)
    ensures chain[|chain| - 1] in Reach(read, root, |chain| - 1)
  {
    var n := |chain| - 1;
    if n > 0 {
      ChainReaches(read, root, chain[..n]);
      assert Names(read, chain[n - 1], chain[n]);
    }
  }

  lemma {:induction false} ReachedByChain(read: string -> Reading, root: string, k: nat,
                                          url: string) returns (chain: seq<string>)
    requires url in Reach(read, root, k)
    ensures IsChain(read, root, chain) && |chain| <= k + 1 && chain[|chain| - 1] == url
  {
    if k == 0 {
      chain := [root];
    } else if url in Reach(read, root, k - 1) {
      chain := ReachedByChain(read, root, k - 1, url);
    } else {
      var u, i :| u in Reach(read, root, k - 1) && read(u).Children? && 0 <= i < |read(u).webs|
                  && read(u).webs[i].url == url;
      var before := ReachedByChain(read, root, k - 1, u);
      chain := before + [url];
      assert Names(read, u, url);
    }
  }

  /** A web is within reach exactly when a chain that short leads to it. */
  lemma {:induction false} ReachIsDistance(read: string -> Reading, root: string, k: nat, url: string)
    ensures url in Reach(read, root, k) <==>
            exists chain :: IsChain(read, root, chain) && |chain| <= k + 1 && chain[|chain| - 1] == url
  {
    if url in Reach(read, root, k) {
      var chain := ReachedByChain(read, root, k, url);
    }
    forall chain | IsChain(read, root, chain) && |chain| <= k + 1 && chain[|chain| - 1] == url
      ensures url in Reach(read, root, k)
    {
      ChainReaches(read, root, chain);
      ReachGrows(read, root, |chain| - 1, k);
    }
  }

  // ---- titles ----

  /** Some web in `urls` mentions `url` under this title. */
  ghost predicate Mentions(read: string -> Reading, urls: set<string>, ref: WebRef) {
    exists u, i :: u in urls && read(u).Children? && 0 <= i < |read(u).webs| && read(u).webs[i] == ref
  }

  /** A web keeps a title once it has one, and has none only if nobody gave it one. */
  ghost predicate Titled(read: string -> Reading, urls: set<string>, webs: map<string, WebRef>) {
    && (forall ref :: Mentions(read, urls, ref) ==> ref.url in webs && (ref.title != "" ==> webs[ref.url].title != ""))
    && (forall u :: u in webs ==> webs[u].url == u && (webs[u].title != "" ==> Mentions(read, urls, webs[u])))
  }

  // ---- the walk ----

  function Urls(queue: seq<Visit>): set<string> {
    set v | v in queue :: v.url
  }

  ghost predicate Distinct(queue: seq<Visit>) {
    forall i, j :: 0 <= i < j < |queue| ==> Apart(queue, i, j)
  }

  ghost predicate Apart(queue: seq<Visit>, i: nat, j: nat)
    requires i < |queue| && j < |queue|
  {
    queue[i].url != queue[j].url
  }

  lemma DistinctGrows(queue: seq<Visit>, v: Visit)
    requires Distinct(queue) && v.url !in Urls(queue)
    ensures Distinct(queue + [v])
  {
    forall i, j | 0 <= i < j < |queue| + 1 ensures Apart(queue + [v], i, j) {
      assert queue[i] in queue;
      assert j < |queue| ==> Apart(queue, i, j);
    }
  }

  /** Depths in the queue: `near` visits at depth `d`, all others one deeper. */
  ghost predicate Layered(queue: seq<Visit>, d: nat, near: nat) {
    && near <= |queue|
    && (forall i :: 0 <= i < near ==> queue[i].depth == d)
    && (forall i :: near <= i < |queue| ==> queue[i].depth == d + 1)
  }

  /** State of the walk below the depth limit: `done` have been read, the first `near` queued
      webs complete the current layer, the others are the next one as far as it is known. */
  ghost predicate Walking(read: string -> Reading, root: string, seen: set<string>, done: set<string>,
                          queue: seq<Visit>, d: nat, near: nat) {
    && Layered(queue, d, near) && Distinct(queue) && done !! Urls(queue)
    && seen == done + Urls(queue)
    && done + Urls(queue[..near]) == Reach(read, root, d)
    && Urls(queue[near..]) == ChildUrls(read, done) - Reach(read, root, d)
  }

  /** A child enters the record, or lends its title to an entry that has none. */
  function TakeIn(webs: map<string, WebRef>, child: WebRef): map<string, WebRef> {
    if child.url !in webs then webs[child.url := child]
    else if webs[child.url].title == "" && child.title != "" then webs[child.url := WebRef(child.title, child.url)]
    else webs
  }

  /** No entry goes, and none loses or changes a title it has. */
  ghost predicate KeepsTitles(webs: map<string, WebRef>, webs': map<string, WebRef>) {
    forall u :: u in webs ==> u in webs' && (webs[u].title != "" ==> webs'[u] == webs[u])
  }

  /** The title an entry has: its own, or the first that one of these children lends it, or none. */
  ghost predicate FirstTitle(webs: map<string, WebRef>, children: seq<WebRef>, url: string, title: string) {
    if url in webs && webs[url].title != "" then title == webs[url].title
    else if i :| 0 <= i < |children| && Lends(children, url, i) then
      exists i :: 0 <= i < |children| && Lends(children, url, i) && title == children[i].title
    else title == ""
  }

  /** The first of these children that has a title for this web. */
  ghost predicate Lends(children: seq<WebRef>, url: string, i: nat)
    requires i < |children|
  {
    && children[i].url == url && children[i].title != ""
    && forall j :: 0 <= j < i ==> children[j].url != url || children[j].title == ""
  }

  lemma LendsOneMore(children: seq<WebRef>, n: nat, url: string, i: nat)
    requires n < |children| && i <= n
    ensures Lends(children[..n + 1], url, i) <==>
            if i < n then Lends(children[..n], url, i)
            else children[n].url == url && children[n].title != ""
                 && forall j :: 0 <= j < n ==> children[j].url != url || children[j].title == ""
  {
    assert forall j :: 0 <= j < n ==> children[..n + 1][j] == children[j] == children[..n][j];
  }

  lemma {:induction false} SomebodyLends(children: seq<WebRef>, url: string, j: nat) returns (i: nat)
    requires j < |children| && children[j].url == url && children[j].title != ""
    ensures i <= j && Lends(children, url, i)
    decreases j
  {
    if k :| 0 <= k < j && children[k].url == url && children[k].title != "" {
      i := SomebodyLends(children, url, k);
    } else {
      i := j;
    }
  }

  lemma NobodyLends(children: seq<WebRef>, url: string)
    ensures (forall j :: 0 <= j < |children| ==> children[j].url != url || children[j].title == "") <==>
            forall i :: 0 <= i < |children| ==> !Lends(children, url, i)
  {
    if j :| 0 <= j < |children| && children[j].url == url && children[j].title != "" {
      var i := SomebodyLends(children, url, j);
    }
  }

  lemma TitlesStep(webs: map<string, WebRef>, children: seq<WebRef>, n: nat, webs': map<string, WebRef>)
    requires n < |children| && KeepsTitles(webs, webs')
    requires forall u :: u in webs' ==> webs'[u].url == u
    requires forall u :: u in webs' ==> FirstTitle(webs, children[..n], u, webs'[u].title)
    requires forall i :: 0 <= i < n ==> children[i].url in webs'
    ensures KeepsTitles(webs, TakeIn(webs', children[n]))
    ensures forall u :: u in TakeIn(webs', children[n]) ==>
      FirstTitle(webs, children[..n + 1], u, TakeIn(webs', children[n])[u].title)
  {
    var webs'' := TakeIn(webs', children[n]);
    forall u | u in webs'' ensures FirstTitle(webs, children[..n + 1], u, webs''[u].title) {
      TitleOf(webs, children, n, webs', u);
    }
  }

  lemma TitleOf(webs: map<string, WebRef>, children: seq<WebRef>, n: nat, webs': map<string, WebRef>, u: string)
    requires n < |children| && KeepsTitles(webs, webs') && u in TakeIn(webs', children[n])
    requires u in webs' ==> webs'[u].url == u && FirstTitle(webs, children[..n], u, webs'[u].title)
    requires forall i :: 0 <= i < n ==> children[i].url in webs'
    ensures FirstTitle(webs, children[..n + 1], u, TakeIn(webs', children[n])[u].title)
  {
    var front, longer := children[..n], children[..n + 1];
    NobodyLends(front, u);
    assert forall j :: 0 <= j < n ==> front[j] == children[j] == longer[j];
    forall i | 0 <= i <= n
      ensures Lends(longer, u, i) <==>
              if i < n then Lends(front, u, i)
              else children[n].url == u && children[n].title != ""
                   && forall j :: 0 <= j < n ==> children[j].url != u || children[j].title == ""
    {
      LendsOneMore(children, n, u, i);
    }
    if !(u in webs && webs[u].title != "") {
      if i :| 0 <= i < n && Lends(front, u, i) {
        assert Lends(longer, u, i);
      } else if children[n].url == u && children[n].title != "" {
        assert Lends(longer, u, n);
      }
    }
  }

  /** Adds one web's children to the record and to the queue's end. */
  method AddChildren(read: string -> Reading, parent: string, children: seq<WebRef>, depth: nat,
                     webs: map<string, WebRef>, queue: seq<Visit>, ghost before: set<string>)
    returns (webs': map<string, WebRef>, queue': seq<Visit>)
    requires read(parent) == Children(children)
    requires Titled(read, before, webs) && Distinct(queue) && Urls(queue) <= webs.Keys
    ensures webs'.Keys == webs.Keys + ChildUrls(read, {parent})
    ensures |queue| <= |queue'| && queue'[..|queue|] == queue
    ensures forall i :: |queue| <= i < |queue'| ==> queue'[i].depth == depth + 1
    ensures Urls(queue'[|queue|..]) == ChildUrls(read, {parent}) - webs.Keys
    ensures Distinct(queue')
    ensures Titled(read, before + {parent}, webs')
    ensures KeepsTitles(webs, webs') && forall u :: u in webs' ==> FirstTitle(webs, children, u, webs'[u].title)
  {
    webs', queue' := webs, queue;
    assert queue[|queue|..] == [];
    for i := 0 to |children|
      invariant Queued(children[..i], depth, webs, queue, webs', queue')
      invariant TitledSoFar(read, before, children, i, webs')
      invariant KeepsTitles(webs, webs')
      invariant forall u :: u in webs' ==> FirstTitle(webs, children[..i], u, webs'[u].title)
    {
      assert children[..i + 1] == children[..i] + [children[i]];
      TitlesStep(webs, children, i, webs');
      TitleStep(read, before, children, i, webs');
      QueuedStep(children, i, depth, webs, queue, webs', queue');
      if children[i].url !in webs' {
        queue' := queue' + [Visit(children[i].url, depth + 1)];
      }
      webs' := TakeIn(webs', children[i]);
    }
    assert children[..|children|] == children;
    assert Named(children) == ChildUrls(read, {parent});
    TitledDone(read, before, parent, children, webs');
  }

  function Named(children: seq<WebRef>): set<string> {
    set i | 0 <= i < |children| :: children[i].url
  }

  /** Record and queue after these children have been taken in. */
  ghost predicate Queued(children: seq<WebRef>, depth: nat, webs: map<string, WebRef>, queue: seq<Visit>,
                         webs': map<string, WebRef>, queue': seq<Visit>) {
    && webs'.Keys == webs.Keys + Named(children)
    && |queue| <= |queue'| && queue'[..|queue|] == queue
    && (forall k :: |queue| <= k < |queue'| ==> queue'[k].depth == depth + 1)
    && Urls(queue'[|queue|..]) == Named(children) - webs.Keys
    && Distinct(queue') && Urls(queue') <= webs'.Keys
  }

  lemma QueuedStep(children: seq<WebRef>, n: nat, depth: nat, webs: map<string, WebRef>, queue: seq<Visit>,
                   webs': map<string, WebRef>, queue': seq<Visit>)
    requires n < |children| && Queued(children[..n], depth, webs, queue, webs', queue')
    ensures Queued(children[..n + 1], depth, webs, queue, TakeIn(webs', children[n]),
                   if children[n].url in webs' then queue' else queue' + [Visit(children[n].url, depth + 1)])
  {
    var url := children[n].url;
    assert Named(children[..n + 1]) == Named(children[..n]) + {url} by {
      assert children[..n + 1] == children[..n] + [children[n]];
      NamedConcat(children[..n], children[n]);
    }
    assert TakeIn(webs', children[n]).Keys == webs'.Keys + {url};
    if url !in webs' {
      QueueStep(queue', queue, Visit(url, depth + 1));
      DistinctGrows(queue', Visit(url, depth + 1));
    }
  }

  lemma NamedConcat(children: seq<WebRef>, child: WebRef)
    ensures Named(children + [child]) == Named(children) + {child.url}
  {
    var all := children + [child];
    forall u | u in Named(children) + {child.url} ensures u in Named(all) {
      if u == child.url {
        assert all[|children|].url == u;
      } else {
        var i :| 0 <= i < |children| && children[i].url == u;
        assert all[i].url == u;
      }
    }
  }

  /** `Titled`, when the first `n` of a web's children have been taken in as well. */
  ghost predicate Told(read: string -> Reading, before: set<string>, children: seq<WebRef>, n: nat, ref: WebRef) {
    Mentions(read, before, ref) || (exists i :: 0 <= i < n && i < |children| && children[i] == ref)
  }

  ghost predicate TitledSoFar(read: string -> Reading, before: set<string>, children: seq<WebRef>, n: nat,
                              webs: map<string, WebRef>) {
    && (forall ref :: Told(read, before, children, n, ref) ==>
         ref.url in webs && (ref.title != "" ==> webs[ref.url].title != ""))
    && (forall u :: u in webs ==>
         webs[u].url == u && (webs[u].title != "" ==> Told(read, before, children, n, webs[u])))
  }

  /** Taking in one more child, whichever way it is taken. */
  lemma TitleStep(read: string -> Reading, before: set<string>, children: seq<WebRef>, n: nat,
                  webs: map<string, WebRef>)
    requires n < |children| && TitledSoFar(read, before, children, n, webs)
    ensures TitledSoFar(read, before, children, n + 1, TakeIn(webs, children[n]))
  {
    forall ref ensures Told(read, before, children, n + 1, ref) <==>
                       Told(read, before, children, n, ref) || children[n] == ref
    {
    }
  }

  lemma TitledDone(read: string -> Reading, before: set<string>, parent: string, children: seq<WebRef>,
                   webs: map<string, WebRef>)
    requires read(parent) == Children(children) && TitledSoFar(read, before, children, |children|, webs)
    ensures Titled(read, before + {parent}, webs)
  {
    forall ref ensures Mentions(read, before + {parent}, ref) <==> Told(read, before, children, |children|, ref) {
      if Told(read, before, children, |children|, ref) && !Mentions(read, before, ref) {
        var i :| 0 <= i < |children| && children[i] == ref;
        assert parent in before + {parent} && read(parent).webs[i] == ref;
      }
    }
  }

  lemma QueueStep(queue: seq<Visit>, base: seq<Visit>, v: Visit)
    requires |base| <= |queue| && queue[..|base|] == base
    ensures (queue + [v])[..|base|] == base
    ensures Urls((queue + [v])[|base|..]) == Urls(queue[|base|..]) + {v.url}
    ensures Urls(queue + [v]) == Urls(queue) + {v.url}
  {
    assert (queue + [v])[|base|..] == queue[|base|..] + [v];
    assert forall x :: x in queue[|base|..] + [v] <==> x in queue[|base|..] || x == v;
    assert forall x :: x in queue + [v] <==> x in queue || x == v;
  }

  // ---- layers ----

  lemma UrlsConcat(a: seq<Visit>, b: seq<Visit>)
    ensures Urls(a + b) == Urls(a) + Urls(b)
  {
    assert forall v :: v in a + b <==> v in a || v in b;
  }

  lemma ChildUrlsUnion(read: string -> Reading, a: set<string>, b: set<string>)
    ensures ChildUrls(read, a + b) == ChildUrls(read, a) + ChildUrls(read, b)
  {
  }

  /** The first visit apart, and the rest still distinct. */
  lemma FirstIsApart(queue: seq<Visit>)
    requires Distinct(queue) && queue != []
    ensures queue[0].url !in Urls(queue[1..]) && Distinct(queue[1..])
    ensures Urls(queue) == {queue[0].url} + Urls(queue[1..])
  {
    forall x | x in queue[1..] ensures x.url != queue[0].url {
      var i :| 0 <= i < |queue| - 1 && queue[1..][i] == x;
      assert Apart(queue, 0, i + 1);
    }
    forall i, j | 0 <= i < j < |queue| - 1 ensures Apart(queue[1..], i, j) {
      assert Apart(queue, i + 1, j + 1);
    }
    assert queue == [queue[0]] + queue[1..];
    UrlsConcat([queue[0]], queue[1..]);
  }

  /** The queue's halves after its first visit is taken off and new ones are put behind it. */
  lemma QueueHalves(queue: seq<Visit>, near: nat, more: seq<Visit>)
    requires 0 < near <= |queue|
    ensures var rest := queue[1..] + more;
      && Urls(queue[..near]) == {queue[0].url} + Urls(rest[..near - 1])
      && Urls(rest[near - 1..]) == Urls(queue[near..]) + Urls(more)
      && Urls(queue) == Urls(queue[..near]) + Urls(queue[near..])
      && Urls(rest) == Urls(queue[1..]) + Urls(more)
  {
    var rest := queue[1..] + more;
    assert queue[..near] == [queue[0]] + rest[..near - 1];
    assert rest[near - 1..] == queue[near..] + more;
    assert queue == queue[..near] + queue[near..];
    UrlsConcat([queue[0]], rest[..near - 1]);
    UrlsConcat(queue[near..], more);
    UrlsConcat(queue[..near], queue[near..]);
    UrlsConcat(queue[1..], more);
  }

  /** Reading the first queued web keeps the picture. */
  lemma WalkStep(read: string -> Reading, root: string, seen: set<string>, done: set<string>, queue: seq<Visit>,
                 d: nat, near: nat, more: seq<Visit>)
    requires Walking(read, root, seen, done, queue, d, near) && near > 0
    requires Urls(more) == ChildUrls(read, {queue[0].url}) - seen && Distinct(queue[1..] + more)
    requires forall i :: 0 <= i < |more| ==> more[i].depth == d + 1
    ensures Walking(read, root, seen + ChildUrls(read, {queue[0].url}), done + {queue[0].url},
                    queue[1..] + more, d, near - 1)
  {
    QueueHalves(queue, near, more);
    FirstIsApart(queue);
    ChildUrlsUnion(read, done, {queue[0].url});
    assert Layered(queue[1..] + more, d, near - 1);
  }

  /** With its last web read, a layer is complete and the next one is known. */
  lemma LayerDone(read: string -> Reading, root: string, seen: set<string>, done: set<string>,
                  queue: seq<Visit>, d: nat)
    requires Walking(read, root, seen, done, queue, d, 0)
    ensures done == Reach(read, root, d)
    ensures Walking(read, root, seen, done, queue, d + 1, |queue|)
    ensures seen == Reach(read, root, d + 1)
  {
    assert queue[..0] == [] && queue[0..] == queue && queue[..|queue|] == queue && queue[|queue|..] == [];
  }

  /** What the walk has to read: everything strictly within the depth limit. */
  ghost function Inside(read: string -> Reading, root: string, limit: nat): set<string> {
    if limit == 0 then {} else Reach(read, root, limit - 1)
  }

  function Limit(maxDepth: int): nat {
    if maxDepth < 0 then 0 else maxDepth
  }

  ghost predicate NoRepeats(urls: seq<string>) {
    forall i, j :: 0 <= i < j < |urls| ==> urls[i] != urls[j]
  }

  ghost predicate Lists(urls: seq<string>, s: set<string>) {
    NoRepeats(urls) && forall u :: u in urls <==> u in s
  }

  ghost function Those(read: string -> Reading, urls: set<string>, r: Reading): set<string> {
    set u | u in urls && read(u) == r
  }

  /** Where the walk is: inside the limit, or at the last layer, which it only counts off. */
  ghost predicate Progress(read: string -> Reading, root: string, limit: nat, seen: set<string>, done: set<string>,
                           queue: seq<Visit>, d: nat, near: nat, cutOff: seq<string>) {
    if d < limit then
      Walking(read, root, seen, done, queue, d, near) && cutOff == []
    else
      && d == limit && near == |queue| && Distinct(queue)
      && (forall i :: 0 <= i < |queue| ==> queue[i].depth == d)
      && seen == Reach(read, root, limit) && done == Inside(read, root, limit)
      && NoRepeats(cutOff) && (forall u :: u in cutOff ==> u !in Urls(queue))
      && (set u | u in cutOff) + Urls(queue) == seen - done
  }

  lemma WalkStart(read: string -> Reading, root: string, limit: nat)
    ensures Progress(read, root, limit, {root}, {}, [Visit(root, 0)], 0, 1, [])
  {
    var queue := [Visit(root, 0)];
    assert queue[..1] == queue && queue[1..] == [] && Urls(queue) == {root};
    assert forall u: string :: u !in [];
  }

  lemma ReadOne(read: string -> Reading, root: string, limit: nat, seen: set<string>, done: set<string>,
                queue: seq<Visit>, d: nat, near: nat, more: seq<Visit>, cutOff: seq<string>)
    requires Progress(read, root, limit, seen, done, queue, d, near, cutOff) && d < limit && near > 0
    requires Urls(more) == ChildUrls(read, {queue[0].url}) - seen && Distinct(queue[1..] + more)
    requires forall i :: 0 <= i < |more| ==> more[i].depth == d + 1
    ensures var seen', done', rest := seen + ChildUrls(read, {queue[0].url}), done + {queue[0].url}, queue[1..] + more;
      && Progress(read, root, limit, seen', done', rest, d, near - 1, cutOff)
      && (near == 1 ==> Progress(read, root, limit, seen', done', rest, d + 1, |rest|, cutOff))
  {
    WalkStep(read, root, seen, done, queue, d, near, more);
    if near == 1 {
      NextLayer(read, root, limit, seen + ChildUrls(read, {queue[0].url}), done + {queue[0].url}, queue[1..] + more,
                d, cutOff);
    }
  }

  lemma NextLayer(read: string -> Reading, root: string, limit: nat, seen: set<string>, done: set<string>,
                  queue: seq<Visit>, d: nat, cutOff: seq<string>)
    requires Progress(read, root, limit, seen, done, queue, d, 0, cutOff) && d < limit
    ensures Progress(read, root, limit, seen, done, queue, d + 1, |queue|, cutOff)
  {
    LayerDone(read, root, seen, done, queue, d);
    assert forall u: string :: u !in cutOff;
  }

  lemma CutOne(read: string -> Reading, root: string, limit: nat, seen: set<string>, done: set<string>,
               queue: seq<Visit>, near: nat, cutOff: seq<string>)
    requires Progress(read, root, limit, seen, done, queue, limit, near, cutOff) && queue != []
    ensures Progress(read, root, limit, seen, done, queue[1..], limit, near - 1, cutOff + [queue[0].url])
  {
    FirstIsApart(queue);
    var longer := cutOff + [queue[0].url];
    assert queue[0] in queue && queue[0].url in Urls(queue);
    assert (set u | u in longer) == (set u | u in cutOff) + {queue[0].url};
  }

  /** Everything read so far, and the next web to read, is strictly within the limit. */
  lemma InsideSoFar(read: string -> Reading, root: string, limit: nat, seen: set<string>, done: set<string>,
                    queue: seq<Visit>, d: nat, near: nat)
    requires Walking(read, root, seen, done, queue, d, near) && d < limit && near > 0
    ensures done + {queue[0].url} <= Inside(read, root, limit)
    ensures d == 0 ==> queue[0].url == root
  {
    ReachGrows(read, root, d, limit - 1);
    assert queue[..near][0] == queue[0] && queue[0] in queue[..near];
  }

  /** An empty queue: everything there is has been read. */
  lemma {:induction false} EmptyQueue(read: string -> Reading, root: string, seen: set<string>,
                                      done: set<string>, d: nat, near: nat)
    requires Walking(read, root, seen, done, [], d, near)
    ensures Reach(read, root, d) == seen == done && Closed(read, done)
  {
    assert Urls([]) == {};
    var empty: seq<Visit> := [];
    assert empty[..near] == [] && empty[near..] == [];
    forall parent, child | parent in done && Names(read, parent, child) ensures child in done {
      assert child in ChildUrls(read, done);
      assert child !in ChildUrls(read, done) - Reach(read, root, d);
    }
  }

  lemma {:induction false} WalkEnd(read: string -> Reading, root: string, limit: nat, seen: set<string>,
                                   done: set<string>, d: nat, near: nat, cutOff: seq<string>)
    requires Progress(read, root, limit, seen, done, [], d, near, cutOff)
    ensures seen == Reach(read, root, limit) && done == Inside(read, root, limit)
    ensures Lists(cutOff, seen - done)
    ensures limit > 0 ==> root in done
  {
    if d < limit {
      EmptyQueue(read, root, seen, done, d, near);
      AllRead(read, root, limit, done, d);
    } else {
      assert Urls([]) == {};
    }
    RootInside(read, root, limit);
  }

  lemma RootInside(read: string -> Reading, root: string, limit: nat)
    ensures limit > 0 ==> root in Inside(read, root, limit)
  {
    if limit > 0 {
      ReachGrows(read, root, 0, limit - 1);
    }
  }

  /** A walk that ends before its limit has read everything there is. */
  lemma {:induction false} AllRead(read: string -> Reading, root: string, limit: nat, done: set<string>, d: nat)
    requires done == Reach(read, root, d) && Closed(read, done) && d < limit
    ensures done == Reach(read, root, limit) == Inside(read, root, limit)
  {
    ReachFixpoint(read, root, d, limit);
    ReachFixpoint(read, root, d, limit - 1);
  }

  /** Takes the first web off the queue and, if it can be read, its children in. */
  method ReadNext(read: string -> Reading, webs: map<string, WebRef>, queue: seq<Visit>, ghost done: set<string>)
    returns (webs': map<string, WebRef>, queue': seq<Visit>, ghost more: seq<Visit>)
    requires queue != [] && Titled(read, done, webs) && Distinct(queue) && Urls(queue) <= webs.Keys
    ensures queue' == queue[1..] + more && Distinct(queue')
    ensures Urls(more) == ChildUrls(read, {queue[0].url}) - webs.Keys
    ensures forall i :: 0 <= i < |more| ==> more[i].depth == queue[0].depth + 1
    ensures webs'.Keys == webs.Keys + ChildUrls(read, {queue[0].url})
    ensures Titled(read, done + {queue[0].url}, webs')
  {
    var v := queue[0];
    FirstIsApart(queue);
    webs', queue', more := webs, queue[1..], [];
    match read(v.url)
    case Children(children) =>
      webs', queue' := AddChildren(read, v.url, children, v.depth, webs, queue[1..], done);
      more := queue'[|queue| - 1..];
    case _ =>
      assert ChildUrls(read, {v.url}) == {} && queue' == queue[1..] + more;
      assert forall ref :: Mentions(read, done + {v.url}, ref) <==> Mentions(read, done, ref);
  }

  lemma ListsOneMore(read: string -> Reading, urls: seq<string>, done: set<string>, url: string)
    requires Lists(urls, Those(read, done, Unreadable)) && url !in done
    ensures read(url) == Unreadable ==> Lists(urls + [url], Those(read, done + {url}, Unreadable))
    ensures read(url) != Unreadable ==> Lists(urls, Those(read, done + {url}, Unreadable))
  {
    assert forall i :: 0 <= i < |urls| ==> urls[i] in urls;
  }

  /** The loop's invariant. */
  ghost predicate WalkInv(read: string -> Reading, root: string, limit: nat, webs: map<string, WebRef>,
                          done: set<string>, queue: seq<Visit>, d: nat, near: nat,
                          unreadable: seq<string>, cutOff: seq<string>) {
    && d <= limit && (queue != [] ==> near > 0)
    && Titled(read, done, webs)
    && Progress(read, root, limit, webs.Keys, done, queue, d, near, cutOff)
    && Lists(unreadable, Those(read, done, Unreadable)) && Those(read, done, Unauthorized) == {}
    && (root in done || limit == 0 || (done == {} && queue == [Visit(root, 0)]))
    && (root in done ==> read(root) != Unreadable)
  }

  /** The web is exactly `k` readable steps away. */
  ghost predicate IsAt(read: string -> Reading, root: string, k: nat, url: string) {
    url in Reach(read, root, k) && (k > 0 ==> url !in Reach(read, root, k - 1))
  }

  /** The greatest distance of a web that was read; zero before any was. */
  ghost predicate IsDeepest(read: string -> Reading, root: string, done: set<string>, depth: nat) {
    && (forall u :: u in done && read(u).Children? ==> u in Reach(read, root, depth))
    && (depth == 0 || exists u :: u in done && read(u).Children? && IsAt(read, root, depth, u))
  }

  /** Everything nearer than the current layer is read, and `depth` is the greatest distance so far. */
  ghost predicate Depths(read: string -> Reading, root: string, done: set<string>, d: nat, depth: nat) {
    depth <= d && (d > 0 ==> Reach(read, root, d - 1) <= done) && IsDeepest(read, root, done, depth)
  }

  lemma {:induction false} FrontIsNear(read: string -> Reading, root: string, seen: set<string>,
                                       done: set<string>, queue: seq<Visit>, d: nat, near: nat)
    requires Walking(read, root, seen, done, queue, d, near) && near > 0
    ensures queue[0].url in Reach(read, root, d) && queue[0].url !in done
    ensures near == 1 ==> Reach(read, root, d) == done + {queue[0].url}
  {
    assert queue[..near][0] == queue[0] && queue[0] in queue[..near] && queue[0] in queue;
    if near == 1 {
      assert queue[..1] == [queue[0]] && Urls([queue[0]]) == {queue[0].url};
    }
  }

  lemma OneMoreDone(read: string -> Reading, root: string, done: set<string>, url: string, d: nat, last: bool,
                    depth: nat)
    requires Depths(read, root, done, d, depth) && IsNext(read, root, done, url, d, last)
    ensures Depths(read, root, done + {url}, if last then d + 1 else d,
                   if read(url).Children? && d > depth then d else depth)
  {
    DeepestStep(read, root, done, url, d, depth);
  }

  lemma {:induction false} DeepestStep(read: string -> Reading, root: string, done: set<string>, url: string,
                                       d: nat, depth: nat)
    requires Depths(read, root, done, d, depth) && url !in done && url in Reach(read, root, d)
    ensures IsDeepest(read, root, done + {url}, if read(url).Children? then d else depth)
  {
    ReachGrows(read, root, depth, d);
    if read(url).Children? {
      assert url in done + {url} && IsAt(read, root, d, url);
    } else if depth > 0 {
      var u :| u in done && read(u).Children? && IsAt(read, root, depth, u);
      assert u in done + {url};
    }
  }

  lemma InvStart(read: string -> Reading, root: string, limit: nat)
    ensures WalkInv(read, root, limit, map[root := WebRef("", root)], {}, [Visit(root, 0)], 0, 1, [], [])
  {
    WalkStart(read, root, limit);
    assert (map[root := WebRef("", root)]).Keys == {root};
  }

  lemma InvFront(read: string -> Reading, root: string, limit: nat, webs: map<string, WebRef>,
                 done: set<string>, queue: seq<Visit>, d: nat, near: nat, unreadable: seq<string>,
                 cutOff: seq<string>)
    requires WalkInv(read, root, limit, webs, done, queue, d, near, unreadable, cutOff) && queue != []
    ensures queue[0].depth == d && Distinct(queue) && Urls(queue) <= webs.Keys && queue[0].url !in done
    ensures d < limit ==> queue[0].url in Inside(read, root, limit) && (d == 0 <==> queue[0].url == root)
  {
    assert queue[0] in queue && queue[0].url in Urls(queue);
    if d < limit {
      InsideSoFar(read, root, limit, webs.Keys, done, queue, d, near);
    }
  }

  lemma InvCut(read: string -> Reading, root: string, limit: nat, webs: map<string, WebRef>, done: set<string>,
               queue: seq<Visit>, near: nat, unreadable: seq<string>, cutOff: seq<string>)
    requires WalkInv(read, root, limit, webs, done, queue, limit, near, unreadable, cutOff) && queue != []
    ensures WalkInv(read, root, limit, webs, done, queue[1..], limit, near - 1, unreadable, cutOff + [queue[0].url])
  {
    CutOne(read, root, limit, webs.Keys, done, queue, near, cutOff);
    if limit > 0 {
      ReachGrows(read, root, 0, limit - 1);
    }
  }

  /** Reading one web keeps the invariant, in the same layer or in the next. */
  lemma InvRead(read: string -> Reading, root: string, limit: nat, webs: map<string, WebRef>, done: set<string>,
                queue: seq<Visit>, d: nat, near: nat, unreadable: seq<string>, cutOff: seq<string>,
                webs': map<string, WebRef>, more: seq<Visit>)
    requires WalkInv(read, root, limit, webs, done, queue, d, near, unreadable, cutOff) && queue != [] && d < limit
    requires queue[0].url == root ==> read(root) != Unreadable
    requires read(queue[0].url) != Unauthorized
    requires Urls(more) == ChildUrls(read, {queue[0].url}) - webs.Keys && Distinct(queue[1..] + more)
    requires forall i :: 0 <= i < |more| ==> more[i].depth == d + 1
    requires webs'.Keys == webs.Keys + ChildUrls(read, {queue[0].url}) && Titled(read, done + {queue[0].url}, webs')
    ensures var v, rest := queue[0], queue[1..] + more;
      WalkInv(read, root, limit, webs', done + {v.url}, rest,
              if near == 1 then d + 1 else d, if near == 1 then |rest| else near - 1,
              if read(v.url) == Unreadable then unreadable + [v.url] else unreadable, cutOff)
  {
    InvFront(read, root, limit, webs, done, queue, d, near, unreadable, cutOff);
    ListsOneMore(read, unreadable, done, queue[0].url);
    ReadOne(read, root, limit, webs.Keys, done, queue, d, near, more, cutOff);
  }

  /** The next web to read lies in the current layer, and the last one completes it. */
  ghost predicate IsNext(read: string -> Reading, root: string, done: set<string>, url: string, d: nat, last: bool) {
    url in Reach(read, root, d) && url !in done && (last ==> Reach(read, root, d) == done + {url})
  }

  lemma FrontIsNext(read: string -> Reading, root: string, limit: nat, webs: map<string, WebRef>,
                    done: set<string>, queue: seq<Visit>, d: nat, near: nat, unreadable: seq<string>,
                    cutOff: seq<string>)
    requires WalkInv(read, root, limit, webs, done, queue, d, near, unreadable, cutOff) && queue != [] && d < limit
    ensures IsNext(read, root, done, queue[0].url, d, near == 1)
  {
    FrontIsNear(read, root, webs.Keys, done, queue, d, near);
  }

  /** The record is right: the webs within the limit, the ones that could not be read, and the
      ones on the limit. */
  ghost predicate IsRecord(read: string -> Reading, root: string, limit: nat, webs: map<string, WebRef>,
                           unreadable: seq<string>, cutOff: seq<string>) {
    var inside := Inside(read, root, limit);
    && webs.Keys == Reach(read, root, limit)
    && Titled(read, inside, webs)
    && Lists(unreadable, Those(read, inside, Unreadable))
    && Lists(cutOff, Reach(read, root, limit) - inside)
    && Those(read, inside, Unauthorized) == {}
  }

  lemma InvEnd(read: string -> Reading, root: string, limit: nat, webs: map<string, WebRef>, done: set<string>,
               d: nat, near: nat, unreadable: seq<string>, cutOff: seq<string>)
    requires WalkInv(read, root, limit, webs, done, [], d, near, unreadable, cutOff)
    ensures IsRecord(read, root, limit, webs, unreadable, cutOff)
    ensures done == Inside(read, root, limit)
    ensures limit > 0 ==> read(root) != Unreadable
  {
    WalkEnd(read, root, limit, webs.Keys, done, d, near, cutOff);
  }

  lemma OnlyTheRoot(read: string -> Reading, root: string, limit: nat)
    requires read(root) == Unreadable
    ensures Inside(read, root, limit) <= {root}
  {
    if limit > 0 {
      ReachFixpoint(read, root, 0, limit - 1);
    }
  }

  /**
   * The walk ends on every graph, finite or not, and its record holds exactly the webs at
   * most `maxDepth` readable steps away, each once. It also says which of those it could not
   * read, and which it did not try to because they lie on the limit.
   */
  method Walk(root: string, read: string -> Reading, maxDepth: int) returns (r: Discovery)
    ensures r.RootUnreadable? <==> maxDepth > 0 && read(root) == Unreadable
    ensures r.Denied? <==> exists u :: u in Inside(read, root, Limit(maxDepth)) && read(u) == Unauthorized
    ensures r.Found? ==> IsRecord(read, root, Limit(maxDepth), r.webs, r.unreadable, r.cutOff)
    ensures r.Found? ==> IsDeepest(read, root, Inside(read, root, Limit(maxDepth)), r.depthReached)
  {
    var webs := map[root := WebRef("", root)];
    var queue := [Visit(root, 0)];
    var depthReached, unreadable, cutOff := 0, [], [];
    ghost var done: set<string>, d: nat, near: nat := {}, 0, 1;
    ghost var limit := Limit(maxDepth);
    InvStart(read, root, limit);
    while queue != []
      invariant WalkInv(read, root, limit, webs, done, queue, d, near, unreadable, cutOff)
      invariant Depths(read, root, done, d, depthReached)
      decreases limit - d, near
    {
      InvFront(read, root, limit, webs, done, queue, d, near, unreadable, cutOff);
      var v := queue[0];
      if v.depth >= maxDepth {
        InvCut(read, root, limit, webs, done, queue, near, unreadable, cutOff);
        cutOff := cutOff + [v.url];
        queue, near := queue[1..], near - 1;
        continue;
      }
      var reading := read(v.url);
      if reading.Unauthorized? {
        return Denied;
      }
      if reading.Unreadable? && v.depth == 0 {
        OnlyTheRoot(read, root, limit);
        return RootUnreadable;
      }
      var webs', queue'; ghost var more;
      webs', queue', more := ReadNext(read, webs, queue, done);
      InvRead(read, root, limit, webs, done, queue, d, near, unreadable, cutOff, webs', more);
      FrontIsNext(read, root, limit, webs, done, queue, d, near, unreadable, cutOff);
      OneMoreDone(read, root, done, v.url, d, near == 1, depthReached);
      if reading.Unreadable? {
        unreadable := unreadable + [v.url];
      } else if v.depth > depthReached {
        depthReached := v.depth;
      }
      webs, queue, done := webs', queue', done + {v.url};
      d, near := if near == 1 then d + 1 else d, if near == 1 then |queue| else near - 1;
    }
    InvEnd(read, root, limit, webs, done, d, near, unreadable, cutOff);
    assert forall u :: u in Inside(read, root, limit) && read(u) == Unauthorized ==>
        u in Those(read, Inside(read, root, limit), Unauthorized);
    r := Found(webs, depthReached, unreadable, cutOff);
  }
}
