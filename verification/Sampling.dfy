/**
 * Picking attachments to look at (`survey_attachments`,
 * scripts/pull_tickets_and_comments.py:1083-1087, 1109-1118): one of each kind in turn, and items
 * spread over the whole history.
 */
module Sampling {

  // ---- one of each kind in turn ----

  function Total<T>(queues: seq<seq<T>>): nat {
    if queues == [] then 0 else Total(queues[..|queues| - 1]) + |queues[|queues| - 1]|
  }

  ghost predicate IsTaken<T>(all: seq<seq<T>>, left: seq<seq<T>>, taken: seq<nat>) {
    && |left| == |taken| == |all|
    && forall k :: 0 <= k < |all| ==> taken[k] <= |all[k]| && left[k] == all[k][taken[k]..]
  }

  /** What was taken from each kind, together. */
  ghost function Heads<T>(all: seq<seq<T>>, taken: seq<nat>): multiset<T>
    requires |taken| == |all| && forall k :: 0 <= k < |all| ==> taken[k] <= |all[k]|
  {
    if all == [] then multiset{} else
      var n := |all| - 1;
      Heads(all[..n], taken[..n]) + multiset(all[n][..taken[n]])
  }

  /** After `rounds` whole rounds and the first `k` kinds of the next one. */
  ghost predicate InTurn<T>(all: seq<seq<T>>, taken: seq<nat>, rounds: nat, k: nat) {
    |taken| == |all| &&
    forall j :: 0 <= j < |all| ==> taken[j] == AtMost(if j < k then rounds + 1 else rounds, |all[j]|)
  }

  function AtMost(a: nat, b: nat): nat {
    if a <= b then a else b
  }

  /** No kind is more than one pick ahead of a kind that still has rows. */
  ghost predicate IsFair<T>(all: seq<seq<T>>, taken: seq<nat>) {
    |taken| == |all| &&
    forall j, k :: 0 <= j < |all| && 0 <= k < |all| && taken[k] < |all[k]| ==> taken[j] <= taken[k] + 1
  }

  lemma TurnsAreFair<T>(all: seq<seq<T>>, taken: seq<nat>, rounds: nat, k: nat)
    requires InTurn(all, taken, rounds, k)
    ensures IsFair(all, taken)
  {
  }

  lemma {:induction false} TakeOneMore<T>(all: seq<seq<T>>, taken: seq<nat>, k: nat)
    requires |taken| == |all| && k < |all| && taken[k] < |all[k]|
    requires forall j :: 0 <= j < |all| ==> taken[j] <= |all[j]|
    ensures Heads(all, taken[k := taken[k] + 1]) == Heads(all, taken) + multiset{all[k][taken[k]]}
  {
    var n := |all| - 1;
    var taken' := taken[k := taken[k] + 1];
    if k == n {
      assert taken'[..n] == taken[..n];
      assert all[n][..taken[n] + 1] == all[n][..taken[n]] + [all[n][taken[n]]];
    } else {
      assert taken'[..n] == taken[..n][k := taken[k] + 1];
      TakeOneMore(all[..n], taken[..n], k);
    }
  }

  lemma {:induction false} TotalLeft<T>(left: seq<seq<T>>, k: nat)
    requires k < |left| && left[k] != []
    ensures Total(left[k := left[k][1..]]) == Total(left) - 1
  {
    var n := |left| - 1;
    if k < n {
      assert left[k := left[k][1..]][..n] == left[..n][k := left[..n][k][1..]];
      TotalLeft(left[..n], k);
    } else {
      assert left[k := left[k][1..]][..n] == left[..n];
    }
  }

  lemma {:induction false} TotalIsZero<T>(left: seq<seq<T>>)
    ensures Total(left) == 0 <==> forall k :: 0 <= k < |left| ==> left[k] == []
  {
    if left != [] {
      TotalIsZero(left[..|left| - 1]);
    }
  }

  /** `any(by_kind.values())`. */
  predicate AnyLeft<T(==)>(left: seq<seq<T>>) {
    exists k :: 0 <= k < |left| && left[k] != []
  }

  /** One more pick from a kind: the next row of it, and the count stays right. */
  lemma Picked<T>(all: seq<seq<T>>, left: seq<seq<T>>, taken: seq<nat>, k: nat, picked: seq<T>)
    requires IsTaken(all, left, taken) && k < |all| && left[k] != []
    requires multiset(picked) == Heads(all, taken)
    ensures var taken' := taken[k := taken[k] + 1];
      && IsTaken(all, left[k := left[k][1..]], taken')
      && multiset(picked + [left[k][0]]) == Heads(all, taken')
      && Total(left[k := left[k][1..]]) == Total(left) - 1
  {
    TakeOneMore(all, taken, k);
    TotalLeft(left, k);
  }

  lemma {:induction false} NothingTaken<T>(all: seq<seq<T>>)
    ensures Heads(all, seq(|all|, k => 0)) == multiset{}
  {
    if all != [] {
      var n := |all| - 1;
      NothingTaken(all[..n]);
      assert seq(|all|, k => 0)[..n] == seq(n, k => 0);
    }
  }

  lemma TurnTaken<T>(all: seq<seq<T>>, left: seq<seq<T>>, taken: seq<nat>, rounds: nat, k: nat)
    requires IsTaken(all, left, taken) && InTurn(all, taken, rounds, k) && k < |all|
    ensures if left[k] != [] then InTurn(all, taken[k := taken[k] + 1], rounds, k + 1)
            else InTurn(all, taken, rounds, k + 1)
  {
    assert left[k] == all[k][taken[k]..];
  }

  lemma RoundDone<T>(all: seq<seq<T>>, taken: seq<nat>, rounds: nat)
    requires InTurn(all, taken, rounds, |all|)
    ensures InTurn(all, taken, rounds + 1, 0)
  {
  }

  /** The inner loop: each kind in turn gives one row, while there is room and it has one. */
  method OneRound<T>(all: seq<seq<T>>, left: seq<seq<T>>, picked: seq<T>, sample: int,
                     ghost taken: seq<nat>, ghost rounds: nat)
    returns (picked': seq<T>, left': seq<seq<T>>, ghost taken': seq<nat>)
    requires IsTaken(all, left, taken) && InTurn(all, taken, rounds, 0)
    requires multiset(picked) == Heads(all, taken) && |picked| < sample
    ensures IsTaken(all, left', taken') && multiset(picked') == Heads(all, taken') && IsFair(all, taken')
    ensures |picked'| + Total(left') == |picked| + Total(left) && |picked'| <= sample
    ensures |picked'| < sample ==> InTurn(all, taken', rounds + 1, 0)
    ensures |picked'| > |picked| || forall k :: 0 <= k < |left| ==> left[k] == []
  {
    picked', left', taken' := picked, left, taken;
    var k := 0;
    ghost var turn := 0;
    while k < |left'|
      invariant 0 <= k <= |left'|
      invariant IsTaken(all, left', taken') && multiset(picked') == Heads(all, taken')
      invariant |picked'| + Total(left') == |picked| + Total(left) && |picked| <= |picked'| <= sample
      invariant InTurn(all, taken', rounds, turn) && (|picked'| < sample ==> turn == k)
      invariant |picked'| > |picked| || (left' == left && forall j :: 0 <= j < k ==> left[j] == [])
    {
      if |picked'| < sample {
        TurnTaken(all, left', taken', rounds, k);
        turn := k + 1;
      }
      if left'[k] != [] && |picked'| < sample {
        Picked(all, left', taken', k, picked');
        picked' := picked' + [left'[k][0]];
        left' := left'[k := left'[k][1..]];
        taken' := taken'[k := taken'[k] + 1];
      }
      k := k + 1;
    }
    TurnsAreFair(all, taken', rounds, turn);
    if |picked'| < sample {
      RoundDone(all, taken', rounds);
    }
  }

  /** The sample: as many rows as asked for or as there are, none twice, and fair. */
  method RoundRobin<T(==)>(all: seq<seq<T>>, sample: int) returns (picked: seq<T>, ghost taken: seq<nat>)
    ensures |picked| == if sample < 0 then 0 else AtMost(sample, Total(all))
    ensures |taken| == |all| && forall k :: 0 <= k < |all| ==> taken[k] <= |all[k]|
    ensures multiset(picked) == Heads(all, taken) && IsFair(all, taken)
  {
    var left := all;
    picked := [];
    taken := seq(|all|, k => 0);
    ghost var rounds := 0;
    NothingTaken(all);
    TurnsAreFair(all, taken, 0, 0);
    while |picked| < sample && AnyLeft(left)
      invariant IsTaken(all, left, taken) && IsFair(all, taken) && multiset(picked) == Heads(all, taken)
      invariant |picked| < sample ==> InTurn(all, taken, rounds, 0)
      invariant |picked| + Total(left) == Total(all) && (|picked| <= sample || picked == [])
      decreases Total(left)
    {
      picked, left, taken := OneRound(all, left, picked, sample, taken, rounds);
      rounds := rounds + 1;
    }
    TotalIsZero(left);
  }

  // ---- spread over the history ----

  function Max(a: int, b: int): int {
    if a >= b then a else b
  }

  /** `ids[::step]`. */
  function Stride<T>(ids: seq<T>, step: nat): seq<T>
    requires step > 0
  {
    if |ids| <= step then (if ids == [] then [] else [ids[0]]) else [ids[0]] + Stride(ids[step..], step)
  }

  lemma OneMoreTimes(n: int, step: int)
    ensures (n + 1) * step == n * step + step
  {
  }

  /** How many steps there are. */
  lemma {:induction false} StrideLength<T>(ids: seq<T>, step: nat)
    requires step > 0
    ensures |ids| <= |Stride(ids, step)| * step < |ids| + step
    decreases |ids|
  {
    if |ids| > step {
      StrideLength(ids[step..], step);
      OneMoreTimes(|Stride(ids[step..], step)|, step);
    } else if ids != [] {
      OneMoreTimes(0, step);
    }
  }

  /** Where they lead. */
  lemma {:induction false} StrideAt<T>(ids: seq<T>, step: nat, i: nat)
    requires step > 0 && i < |Stride(ids, step)|
    ensures IsAt(ids, step, Stride(ids, step), i)
    decreases |ids|
  {
    if i > 0 {
      StrideAt(ids[step..], step, i - 1);
      OneMoreTimes(i - 1, step);
      assert ids[step..][(i - 1) * step] == ids[step + (i - 1) * step];
    }
  }

  ghost predicate IsAt<T>(ids: seq<T>, step: nat, r: seq<T>, i: nat) {
    i < |r| && i * step < |ids| && r[i] == ids[i * step]
  }

  /** `s[:end]`: from the end backwards when it is negative. */
  function Until<T>(s: seq<T>, end: int): seq<T> {
    if end >= |s| then s else if end >= 0 then s[..end] else if -end >= |s| then [] else s[..|s| + end]
  }

  function StepOf(n: nat, probeItems: int): (step: nat)
    ensures step > 0
  {
    Max(1, n / Max(1, probeItems))
  }

  /** The sampled tickets. */
  function Probed<T>(ids: seq<T>, probeItems: int): seq<T> {
    Until(Stride(ids, StepOf(|ids|, probeItems)), probeItems)
  }

  /** Exactly as many as asked for or as there are, evenly spaced from the first on; what lies
      behind the last step is shorter than the sample. */
  lemma ProbedExactly<T>(ids: seq<T>, probeItems: int)
    ensures var step, probed := StepOf(|ids|, probeItems), Probed(ids, probeItems);
      && |probed| == (if probeItems < 0 then 0 else if probeItems <= |ids| then probeItems else |ids|)
      && (forall i :: 0 <= i < |probed| ==> IsAt(ids, step, probed, i))
      && (0 < probeItems ==> |ids| - |probed| * step < probeItems)
  {
    var step := StepOf(|ids|, probeItems);
    var all := Stride(ids, step);
    StrideLength(ids, step);
    EnoughSteps(|ids|, Max(1, probeItems), |all|);
    forall i | 0 <= i < |Probed(ids, probeItems)| ensures IsAt(ids, step, Probed(ids, probeItems), i) {
      StrideAt(ids, step, i);
    }
  }

  lemma EnoughSteps(n: nat, p: nat, count: nat)
    requires p > 0 && var step := Max(1, n / p); n <= count * step < n + step
    ensures if n < p then count == n else p * (n / p) <= n < p * (n / p) + p && count >= p
    ensures p == 1 ==> count <= 1
  {
    var step := Max(1, n / p);
    if n < p {
      assert step == 1;
    } else {
      assert n == p * (n / p) + n % p;
      assert step == n / p;
      FewerSteps(count, p, step);
    }
  }

  lemma FewerSteps(count: nat, p: nat, step: nat)
    ensures count < p ==> count * step <= p * step - step
  {
    if count < p {
      OneMoreTimes(p - 1, step);
      assert count * step <= (p - 1) * step;
    }
  }
}
