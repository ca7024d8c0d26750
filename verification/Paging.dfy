/** A server list in id order and the pages cut from it (src/spconnect/services/lists.py). */
module Paging {
  import opened Options
  import opened Landing

  /** A list as the server keeps it: every row has an id, ids are positive and ascending. */
  ghost predicate ValidList(rows: seq<Row>) {
    && (forall i :: 0 <= i < |rows| ==> rows[i].key.Some? && rows[i].key.value > 0)
    && (forall i, j :: 0 <= i < j < |rows| ==> Ascends(rows, i, j))
  }

  ghost predicate Ascends(rows: seq<Row>, i: nat, j: nat)
    requires i < |rows| && j < |rows|
  {
    rows[i].key.Some? && rows[j].key.Some? && rows[i].key.value < rows[j].key.value
  }

  /** Any stretch of an ascending list is one. */
  lemma SliceValid(rows: seq<Row>, from: nat, to: nat)
    requires ValidList(rows) && from <= to <= |rows|
    ensures ValidList(rows[from..to])
  {
    forall i, j | 0 <= i < j < to - from ensures Ascends(rows[from..to], i, j) {
      assert Ascends(rows, from + i, from + j);
    }
  }

  ghost predicate HasId(rows: seq<Row>, id: int) {
    exists i :: 0 <= i < |rows| && rows[i].key == Some(id)
  }

  function LastId(rows: seq<Row>): int {
    if rows == [] || rows[|rows| - 1].key.None? then 0 else rows[|rows| - 1].key.value
  }

  function CountId(rows: seq<Row>, id: int): nat {
    if rows == [] then 0 else
      CountId(rows[..|rows| - 1], id) + if rows[|rows| - 1].key == Some(id) then 1 else 0
  }

  /** In an ascending list an id that is there is there once. */
  lemma {:induction false} OnceInList(rows: seq<Row>, id: int)
    requires ValidList(rows)
    ensures CountId(rows, id) == if HasId(rows, id) then 1 else 0
  {
    if rows != [] {
      var n := |rows| - 1;
      SliceValid(rows, 0, n);
      OnceInList(rows[..n], id);
      forall i | 0 <= i < n && rows[i].key == Some(id)
        ensures HasId(rows[..n], id) && rows[n].key != Some(id)
      {
        assert rows[..n][i].key == Some(id);
        assert Ascends(rows, i, n);
      }
      if HasId(rows[..n], id) {
        var i :| 0 <= i < n && rows[..n][i].key == Some(id);
        assert rows[i].key == Some(id);
      }
    }
  }

  /** How many leading rows have an id at or below `last`. */
  ghost function Behind(rows: seq<Row>, last: int): (n: nat)
    ensures n <= |rows|
  {
    if rows == [] || rows[0].key.None? || rows[0].key.value > last then 0
    else 1 + Behind(rows[1..], last)
  }

  /** The answer to `ID > last ORDER BY ID` with a row limit: full while rows remain. */
  ghost function PageOf(rows: seq<Row>, last: int, size: nat): seq<Row> {
    var from := Behind(rows, last);
    rows[from..if from + size <= |rows| then from + size else |rows|]
  }

  /** `ItemPage.max_id`, as a function of the page. */
  function MaxId(page: seq<Row>): Option<int> {
    if page == [] then None else
      var before := MaxId(page[..|page| - 1]);
      var key := page[|page| - 1].key;
      if key.None? then before
      else if before.None? || key.value > before.value then key
      else before
  }

  /** Rows that `_write_page` writes: those with an id. */
  function Keyed(page: seq<Row>): nat {
    if page == [] then 0 else
      Keyed(page[..|page| - 1]) + if page[|page| - 1].key.Some? then 1 else 0
  }

  lemma {:induction false} BehindSplits(rows: seq<Row>, last: int)
    requires ValidList(rows)
    ensures forall i :: 0 <= i < Behind(rows, last) ==> rows[i].key.value <= last
    ensures forall i :: Behind(rows, last) <= i < |rows| ==> rows[i].key.value > last
  {
    if rows != [] && rows[0].key.value <= last {
      SliceValid(rows, 1, |rows|);
      assert rows[1..] == rows[1..|rows|];
      BehindSplits(rows[1..], last);
    } else {
      forall i | 0 < i < |rows| ensures rows[i].key.value > last {
        assert Ascends(rows, 0, i);
      }
    }
  }

  lemma {:induction false} BehindAt(rows: seq<Row>, last: int, i: nat)
    requires ValidList(rows) && i < |rows|
    ensures i < Behind(rows, last) <==> rows[i].key.value <= last
  {
    BehindSplits(rows, last);
  }

  lemma {:induction false} BehindUnique(rows: seq<Row>, last: int, n: nat)
    requires ValidList(rows) && n <= |rows|
    requires forall i :: 0 <= i < n ==> rows[i].key.value <= last
    requires forall i :: n <= i < |rows| ==> rows[i].key.value > last
    ensures Behind(rows, last) == n
  {
    if n > 0 {
      SliceValid(rows, 1, |rows|);
      assert rows[1..] == rows[1..|rows|];
      BehindUnique(rows[1..], last, n - 1);
    }
  }

  /** In a page cut from a list, the greatest id is the last row's and every row counts. */
  lemma {:induction false} MaxIdIsLast(page: seq<Row>)
    requires ValidList(page)
    ensures Keyed(page) == |page|
    ensures page != [] ==> MaxId(page) == page[|page| - 1].key
  {
    if page != [] {
      var n := |page| - 1;
      SliceValid(page, 0, n);
      MaxIdIsLast(page[..n]);
      if n > 0 {
        assert Ascends(page, n - 1, n);
      }
    }
  }

  /** The greatest id of any page bounds every id on it. */
  lemma {:induction false} MaxIdBounds(page: seq<Row>)
    ensures MaxId(page).None? <==> forall i :: 0 <= i < |page| ==> page[i].key.None?
    ensures forall i :: 0 <= i < |page| && page[i].key.Some? && MaxId(page).Some? ==>
      page[i].key.value <= MaxId(page).value
    ensures MaxId(page).Some? ==> HasId(page, MaxId(page).value)
  {
    if page != [] {
      var n := |page| - 1;
      MaxIdBounds(page[..n]);
      if MaxId(page).Some? {
        if MaxId(page[..n]) == MaxId(page) {
          var i :| 0 <= i < n && page[..n][i].key == MaxId(page);
          assert page[i].key == MaxId(page);
        } else {
          assert page[n].key == MaxId(page);
        }
      }
      forall i | 0 <= i < |page| && page[i].key.Some? && MaxId(page).Some?
        ensures page[i].key.value <= MaxId(page).value
      {
        if i < n {
          assert page[..n][i] == page[i];
        }
      }
      assert page[..n] + [page[n]] == page;
      if MaxId(page).None? {
        forall i | 0 <= i < |page| ensures page[i].key.None? {
          if i < n {
            assert page[..n][i] == page[i];
          }
        }
      }
    }
  }

  method MaxIdLoop(page: seq<Row>) returns (max: Option<int>)
    ensures max == MaxId(page)
    ensures max.Some? ==> HasId(page, max.value)
    ensures forall i :: 0 <= i < |page| && page[i].key.Some? ==> max.Some? && page[i].key.value <= max.value
  {
    max := None;
    for i := 0 to |page|
      invariant max == MaxId(page[..i])
    {
      assert page[..i + 1][..i] == page[..i];
      if page[i].key.Some? && (max.None? || page[i].key.value > max.value) {
        max := page[i].key;
      }
    }
    assert page[..|page|] == page;
    MaxIdBounds(page);
  }
}
