/** What a mapped row holds, column by column (src/spconnect/services/odata.py:651-681). */
module RowTheorems {
  import opened Options
  import opened Atom
  import opened Rows

  // ---- dictionaries ----

  lemma {:induction false} GetPut(row: Row, key: string, value: Value, k: string)
    ensures Get(Put(row, key, value), k) == if k == key then Some(value) else Get(row, k)
  {
    if row != [] && row[0].0 != key {
      GetPut(row[1..], key, value, k);
    }
  }

  lemma {:induction false} GetAppend(a: Row, b: Row, k: string)
    ensures Get(a + b, k) == if Get(a, k).Some? then Get(a, k) else Get(b, k)
  {
    if a == [] {
      assert a + b == b;
    } else {
      assert (a + b)[1..] == a[1..] + b;
      GetAppend(a[1..], b, k);
    }
  }

  ghost predicate Once(row: Row) {
    forall i, j :: 0 <= i < j < |row| ==> row[i].0 != row[j].0
  }

  lemma {:induction false} GetNone(row: Row, key: string)
    ensures Get(row, key).None? <==> forall i :: 0 <= i < |row| ==> row[i].0 != key
  {
    if row != [] {
      GetNone(row[1..], key);
      if Get(row, key).None? {
        forall i | 0 <= i < |row| ensures row[i].0 != key {
          if i > 0 {
            assert row[1..][i - 1].0 != key;
          }
        }
      }
    }
  }

  lemma {:induction false} PutKeepsOnce(row: Row, key: string, value: Value)
    requires Once(row)
    ensures Once(Put(row, key, value))
  {
    if row != [] && row[0].0 != key {
      PutKeepsOnce(row[1..], key, value);
      GetNone(row[1..], row[0].0);
      GetPut(row[1..], key, value, row[0].0);
      GetNone(Put(row[1..], key, value), row[0].0);
    }
  }

  // ---- a row, column by column ----

  /** The value the last item for a column brings. */
  function LastValue(items: Row, column: string, schema: Schema): Option<Value> {
    if items == [] then None else
      var later := LastValue(items[1..], column, schema);
      if later.Some? then later
      else if Column(items[0], schema) == Some(column) then Some(Written(items[0], schema))
      else None
  }

  /** The last id for a column. */
  function LastId(items: Row, column: string, schema: Schema): Option<Value> {
    if items == [] then None else
      var later := LastId(items[1..], column, schema);
      if later.Some? then later
      else if IdColumn(items[0], schema) == Some(column) then Some(items[0].1)
      else None
  }

  function OrElse(a: Option<Value>, b: Option<Value>): Option<Value> {
    if a.Some? then a else b
  }

  lemma {:induction false} ColumnsMapped(p: Progress, items: Row, schema: Schema, k: string)
    requires Once(p.ids)
    ensures var r := MapItems(p, items, schema);
      && Once(r.ids)
      && Get(r.decoded, k) == OrElse(LastValue(items, k, schema), Get(p.decoded, k))
      && Get(r.ids, k) == OrElse(LastId(items, k, schema), Get(p.ids, k))
    decreases |items|
  {
    if items != [] {
      OneMapped(p, items[0], schema, k);
      ColumnsMapped(MapItem(p, items[0], schema), items[1..], schema, k);
    }
  }

  lemma {:induction false} OneMapped(p: Progress, item: (string, Value), schema: Schema, k: string)
    requires Once(p.ids)
    ensures var q := MapItem(p, item, schema);
      && Once(q.ids)
      && Get(q.decoded, k) == (if Column(item, schema) == Some(k) then Some(Written(item, schema))
                               else Get(p.decoded, k))
      && Get(q.ids, k) == (if IdColumn(item, schema) == Some(k) then Some(item.1) else Get(p.ids, k))
  {
    var id, column := IdColumn(item, schema), Column(item, schema);
    if column.Some? {
      GetPut(p.decoded, column.value, Written(item, schema), k);
    }
    if id.Some? {
      GetPut(p.ids, id.value, item.1, k);
      PutKeepsOnce(p.ids, id.value, item.1);
    }
  }

  lemma {:induction false} IdsAdded(decoded: Row, ids: Row, k: string)
    requires Once(ids)
    ensures Get(AddIds(decoded, ids), k) ==
            if Get(ids, k).Some? then Some(WithId(Get(decoded, k), Get(ids, k).value)) else Get(decoded, k)
    decreases |ids|
  {
    if ids != [] {
      var value := WithId(Get(decoded, ids[0].0), ids[0].1);
      GetPut(decoded, ids[0].0, value, k);
      GetNone(ids[1..], ids[0].0);
      IdsAdded(Put(decoded, ids[0].0, value), ids[1..], k);
    }
  }

  /** What a column holds in the end. */
  function ColumnOf(entity: Row, column: string, schema: Schema): Option<Value> {
    var items := WithoutControl(entity);
    var value, id := LastValue(items, column, schema), LastId(items, column, schema);
    if id.Some? then Some(WithId(value, id.value))
    else if value.None? && column == "ID" then Some(OrNull(Get(entity, "Id")))
    else value
  }

  /** Every column of a mapped row: the last value brought for it, with the last id beside it, and
      nothing else but the row's own id. */
  lemma {:induction false} ColumnDecoded(entity: Row, schema: Schema, column: string)
    ensures Get(Decoded(entity, schema), column) == ColumnOf(entity, column, schema)
  {
    var p := MapItems(START, WithoutControl(entity), schema);
    ColumnsMapped(START, WithoutControl(entity), schema, column);
    ColumnsMapped(START, WithoutControl(entity), schema, "ID");
    IdsAdded(p.decoded, p.ids, column);
    IdsAdded(p.decoded, p.ids, "ID");
    GetPut(AddIds(p.decoded, p.ids), "ID", OrNull(Get(entity, "Id")), column);
  }

  /** No property is dropped: unless it is an unexpanded link, it is under its column's name, or
      under its own when no column is known, or it is the id of its column. */
  lemma {:induction false} NothingIsDropped(entity: Row, schema: Schema, i: nat)
    requires i < |WithoutControl(entity)| && !IsDeferred(WithoutControl(entity)[i].1)
    ensures var item := WithoutControl(entity)[i];
      var column := if IdColumn(item, schema).Some? then IdColumn(item, schema) else Column(item, schema);
      column.Some? && Get(Decoded(entity, schema), column.value).Some?
  {
    var items := WithoutControl(entity);
    var column := if IdColumn(items[i], schema).Some? then IdColumn(items[i], schema) else Column(items[i], schema);
    ColumnDecoded(entity, schema, column.value);
    SomeLast(items, i, column.value, schema);
  }

  lemma {:induction false} SomeLast(items: Row, i: nat, column: string, schema: Schema)
    requires i < |items|
    ensures Column(items[i], schema) == Some(column) ==> LastValue(items, column, schema).Some?
    ensures IdColumn(items[i], schema) == Some(column) ==> LastId(items, column, schema).Some?
  {
    if i > 0 {
      SomeLast(items[1..], i - 1, column, schema);
    }
  }

  /** A property that no later one claims the column of arrives as it is, with the column's id beside
      it if there is one. */
  lemma {:induction false} PropertyArrives(entity: Row, schema: Schema, i: nat, column: string)
    requires i < |WithoutControl(entity)| && Column(WithoutControl(entity)[i], schema) == Some(column)
    requires forall j :: i < j < |WithoutControl(entity)| ==> Column(WithoutControl(entity)[j], schema) != Some(column)
    ensures var value, id := Written(WithoutControl(entity)[i], schema), LastId(WithoutControl(entity), column, schema);
      Get(Decoded(entity, schema), column) == Some(if id.Some? then WithId(Some(value), id.value) else value)
  {
    ColumnDecoded(entity, schema, column);
    LastIsItsOwn(WithoutControl(entity), i, column, schema);
  }

  lemma {:induction false} LastIsItsOwn(items: Row, i: nat, column: string, schema: Schema)
    requires i < |items| && Column(items[i], schema) == Some(column)
    requires forall j :: i < j < |items| ==> Column(items[j], schema) != Some(column)
    ensures LastValue(items, column, schema) == Some(Written(items[i], schema))
  {
    if i > 0 {
      LastIsItsOwn(items[1..], i - 1, column, schema);
    } else {
      NoLast(items[1..], column, schema);
    }
  }

  lemma {:induction false} NoLast(items: Row, column: string, schema: Schema)
    requires forall j :: 0 <= j < |items| ==> Column(items[j], schema) != Some(column)
    ensures LastValue(items, column, schema).None?
  {
    if items != [] {
      NoLast(items[1..], column, schema);
    }
  }

  /** A lookup keeps its id exactly when what stands in its column is missing, null, a text, or a
      dictionary without another id: a label that reads as a date loses it. */
  lemma {:induction false} IdIsKeptExactly(entity: Row, schema: Schema, column: string)
    requires LastId(WithoutControl(entity), column, schema).Some?
    ensures var id, value := LastId(WithoutControl(entity), column, schema).value,
                             LastValue(WithoutControl(entity), column, schema);
      var got := Get(Decoded(entity, schema), column);
      got.Some? && ((got.value.Dict? && Get(got.value.items, "id") == Some(id)) <==>
        (value.None? || value.value.Null? || value.value.Text?
         || (value.value.Dict? && (Get(value.value.items, "id").None? || Get(value.value.items, "id") == Some(id)))))
  {
    ColumnDecoded(entity, schema, column);
    var id, value := LastId(WithoutControl(entity), column, schema).value,
                     LastValue(WithoutControl(entity), column, schema);
    if value.Some? && value.value.Dict? {
      GetPut(value.value.items, "id", id, "id");
    }
  }

  // ---- what arrives, by the values that were sent ----

  /** The four keys of the service go, every other one stays with its value. */
  lemma {:induction false} RawIsEntity(row: Row, k: string)
    ensures Get(WithoutControl(row), k) ==
            if k == "__metadata" || k == "__deferred" || k == "__next" || k == "__count" then None else Get(row, k)
  {
    if row != [] {
      RawIsEntity(row[1..], k);
      GetAppend(if IsControl(row[0].0) then [] else [row[0]], WithoutControl(row[1..]), k);
    }
  }

  /** An item is the id of a column exactly when its key is a name of that column followed by `Id`, and
      its value a number. */
  lemma IdColumnExactly(item: (string, Value), schema: Schema, column: string)
    ensures IdColumn(item, schema) == Some(column) <==>
            (item.1.Int? || item.1.Bool?) && exists base :: base != "" && item.0 == base + "Id"
                                                          && schema.internal(base) == Some(column)
  {
    if EndsInId(item.0) {
      var base := item.0[..|item.0| - 2];
      assert item.0 == base + "Id";
    }
    forall base | base != "" && item.0 == base + "Id" ensures EndsInId(item.0) && base == item.0[..|item.0| - 2] {
    }
  }

  /** Any other item is written to its column, or under its own key when no column is known for it;
      unless it is a link that is not expanded. */
  lemma ColumnExactly(item: (string, Value), schema: Schema)
    ensures Column(item, schema) ==
            if (item.1.Dict? && Get(item.1.items, "__deferred").Some?) || IdColumn(item, schema).Some? then None
            else if schema.internal(item.0).Some? then schema.internal(item.0) else Some(item.0)
  {
  }

  /** The keys that are remembered as unmapped: those that are written under their own name, but `Id`. */
  lemma {:induction false} UnmappedExactly(items: Row, schema: Schema, key: string)
    ensures key in Unmapped(items, schema) <==>
            key != "Id" && schema.internal(key).None?
            && exists i :: 0 <= i < |items| && items[i].0 == key && Column(items[i], schema) == Some(key)
  {
    if items != [] {
      UnmappedExactly(items[1..], schema, key);
      if i :| 0 <= i < |items| && items[i].0 == key && Column(items[i], schema) == Some(key) {
        assert i > 0 ==> items[1..][i - 1] == items[i];
      }
      if i :| 0 <= i < |items[1..]| && items[1..][i].0 == key && Column(items[1..][i], schema) == Some(key) {
        assert items[i + 1].0 == key && Column(items[i + 1], schema) == Some(key);
      }
    }
  }

  /** The last item for its column, which has no id beside it. */
  ghost predicate Arrives(entity: Row, schema: Schema, i: nat, column: string) {
    var items := WithoutControl(entity);
    && i < |items| && Column(items[i], schema) == Some(column) && LastId(items, column, schema).None?
    && forall j :: i < j < |items| ==> Column(items[j], schema) != Some(column)
  }

  /** Cut off behind the point. */
  ghost predicate IsCut(x: real, n: int) {
    if x >= 0.0 then n as real <= x < n as real + 1.0 else n as real - 1.0 < x <= n as real
  }

  /** What a column's type makes of a text. */
  ghost predicate Becomes(kind: Option<string>, x: Option<real>, s: string, value: Value) {
    if x.Some? && (kind == Some("Number") || kind == Some("Currency")) then value == Float(x.value)
    else if x.Some? && (kind == Some("Integer") || kind == Some("Counter")) then value.Int? && IsCut(x.value, value.n)
    else value == Text(s)
  }

  /** A text arrives as the moment it is read to; otherwise as the number a column of that type holds, whole
      ones cut off behind the point; otherwise as it is. */
  lemma {:induction false} TextArrives(entity: Row, schema: Schema, i: nat, column: string)
    requires Arrives(entity, schema, i, column) && WithoutControl(entity)[i].1.Text?
    ensures var (key, s) := (WithoutControl(entity)[i].0, WithoutControl(entity)[i].1.s);
      var got := Get(Decoded(entity, schema), column);
      && got.Some?
      && if schema.moments(s).Some? then got.value == Moment(schema.moments(s).value)
         else Becomes(if schema.internal(key).Some? then schema.typeOf(column) else None,
                      schema.floats(s), s, got.value)
  {
    PropertyArrives(entity, schema, i, column);
  }

  /** A value that is no text, no dictionary and no list arrives as it is. */
  lemma {:induction false} PlainArrives(entity: Row, schema: Schema, i: nat, column: string)
    requires Arrives(entity, schema, i, column)
    requires var v := WithoutControl(entity)[i].1; !v.Text? && !v.Dict? && !v.List?
    ensures Get(Decoded(entity, schema), column) == Some(WithoutControl(entity)[i].1)
  {
    PropertyArrives(entity, schema, i, column);
  }

  /** What a lookup is labelled with: its title, or where that says nothing its value, or its name. */
  ghost predicate IsLabel(inner: Row, shown: Value) {
    var title, value, name := OrNull(Get(inner, "Title")), OrNull(Get(inner, "Value")), OrNull(Get(inner, "Name"));
    shown == if !SaysNothing(title) then title else if !SaysNothing(value) then value else name
  }

  ghost predicate SaysNothing(v: Value) {
    v == Null || v == Bool(false) || v == Int(0) || v == Float(0.0) || v == Text("") || v == List([]) || v == Dict([])
  }

  /** An inlined entity that has an id arrives as that id and its label. */
  lemma {:induction false} LookupArrives(entity: Row, schema: Schema, i: nat, column: string)
    requires Arrives(entity, schema, i, column) && WithoutControl(entity)[i].1.Dict?
    requires var inner := WithoutControl(entity)[i].1.items;
      Get(inner, "Id").Some? && (Get(inner, "results").None? || !Get(inner, "results").value.List?)
    ensures var (inner, got) := (WithoutControl(entity)[i].1.items, Get(Decoded(entity, schema), column));
      && got.Some? && got.value.Dict? && |got.value.items| == 2
      && got.value.items[0] == ("id", Get(inner, "Id").value)
      && got.value.items[1].0 == "value" && IsLabel(inner, got.value.items[1].1)
  {
    PropertyArrives(entity, schema, i, column);
    LookupIsLabelled(WithoutControl(entity)[i].1.items);
  }

  lemma {:induction false} LookupIsLabelled(inner: Row)
    ensures Get(WithoutControl(inner), "Id") == Get(inner, "Id")
    ensures var lookup := AsLookup(WithoutControl(inner));
      && lookup.Dict? && |lookup.items| == 2 && lookup.items[0] == ("id", OrNull(Get(inner, "Id")))
      && lookup.items[1].0 == "value" && IsLabel(inner, lookup.items[1].1)
  {
    assert "Id" != "__metadata" && "Title" != "__metadata" && "Value" != "__metadata" && "Name" != "__metadata" by {
      assert "__metadata"[0] == '_' && "Id"[0] == 'I' && "Title"[0] == 'T' && "Value"[0] == 'V' && "Name"[0] == 'N';
    }
    assert "__deferred"[0] == '_' && "__next"[0] == '_' && "__count"[0] == '_';
    RawIsEntity(inner, "Id");
    RawIsEntity(inner, "Title");
    RawIsEntity(inner, "Value");
    RawIsEntity(inner, "Name");
  }

  /** An inlined entity without an id arrives member by member, without the service's keys: texts as what
      they are read to, numbers, truth values and nulls as they are. */
  lemma InlinedArrives(entity: Row, schema: Schema, i: nat, column: string, k: string)
    requires Arrives(entity, schema, i, column) && WithoutControl(entity)[i].1.Dict?
    requires var inner := WithoutControl(entity)[i].1.items;
      Get(inner, "Id").None? && (Get(inner, "results").None? || !Get(inner, "results").value.List?)
    ensures var (inner, got) := (WithoutControl(entity)[i].1.items, Get(Decoded(entity, schema), column));
      && got.Some? && got.value.Dict?
      && var sent, member := Get(inner, k), Get(got.value.items, k);
         if k in {"__metadata", "__deferred", "__next", "__count"} || sent.None? then member.None?
         else
           && member.Some?
           && (sent.value.Text? ==>
                var at := schema.moments(sent.value.s);
                member.value == if at.Some? then Moment(at.value) else sent.value)
           && (!sent.value.Text? && !sent.value.Dict? && !sent.value.List? ==> member == sent)
  {
    var inner := WithoutControl(entity)[i].1.items;
    assert Get(Decoded(entity, schema), column) == Some(Dict(ConvertRow(inner, schema))) by {
      PropertyArrives(entity, schema, i, column);
      LookupIsLabelled(inner);
    }
    MemberConverted(inner, schema, k);
  }

  lemma {:induction false} MemberConverted(inner: Row, schema: Schema, k: string)
    ensures Get(ConvertRow(inner, schema), k) ==
            if k in {"__metadata", "__deferred", "__next", "__count"} || Get(inner, k).None? then None
            else Some(Convert(Get(inner, k).value, schema))
  {
    if inner != [] {
      MemberConverted(inner[1..], schema, k);
      GetAppend(if IsControl(inner[0].0) then [] else [ConvertItem(inner[0], schema)],
                ConvertRow(inner[1..], schema), k);
    }
  }

  /** A collection of texts arrives as the list of them, dates read. */
  lemma {:induction false} CollectionArrives(entity: Row, schema: Schema, i: nat, column: string, texts: seq<string>)
    requires Arrives(entity, schema, i, column) && WithoutControl(entity)[i].1.Dict?
    requires Get(WithoutControl(entity)[i].1.items, "results") == Some(List(AllTexts(texts)))
    ensures var got := Get(Decoded(entity, schema), column);
      && got.Some? && got.value.List? && |got.value.values| == |texts|
      && forall k :: 0 <= k < |texts| ==>
           got.value.values[k] ==
           var at := schema.moments(texts[k]); if at.Some? then Moment(at.value) else Text(texts[k])
  {
    PropertyArrives(entity, schema, i, column);
    TextsConverted(texts, schema);
  }

  function AllTexts(texts: seq<string>): seq<Value> {
    seq(|texts|, i requires 0 <= i < |texts| => Text(texts[i]))
  }

  lemma {:induction false} TextsConverted(texts: seq<string>, schema: Schema)
    ensures var got := ConvertAll(AllTexts(texts), schema);
      && |got| == |texts|
      && forall k :: 0 <= k < |texts| ==>
           got[k] == var at := schema.moments(texts[k]); if at.Some? then Moment(at.value) else Text(texts[k])
  {
    if texts != [] {
      TextsConverted(texts[1..], schema);
      assert AllTexts(texts)[1..] == AllTexts(texts[1..]) && AllTexts(texts)[0] == Text(texts[0]);
    }
  }

  /** An id stands beside the label that arrived for its column, or beside nothing. */
  lemma {:induction false} IdStandsBeside(entity: Row, schema: Schema, column: string)
    requires LastId(WithoutControl(entity), column, schema).Some?
    ensures var (id, value) := (LastId(WithoutControl(entity), column, schema).value,
                                LastValue(WithoutControl(entity), column, schema));
      (value.None? || value.value == Null || value.value.Text?) ==>
        Get(Decoded(entity, schema), column) ==
        Some(Dict([("id", id), ("value", if value.None? then Null else value.value)]))
  {
    ColumnDecoded(entity, schema, column);
  }

  /** The row's own id is under `ID`, unless a column of that name has another value. */
  lemma {:induction false} OwnIdArrives(entity: Row, schema: Schema)
    requires LastValue(WithoutControl(entity), "ID", schema).None? && LastId(WithoutControl(entity), "ID", schema).None?
    ensures Get(Decoded(entity, schema), "ID") ==
            Some(if Get(entity, "Id").Some? then Get(entity, "Id").value else Null)
  {
    ColumnDecoded(entity, schema, "ID");
  }
}
