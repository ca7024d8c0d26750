/**
 * `ODataRowMapper.map_row` (src/spconnect/services/odata.py:651-715): an entity's dictionary under
 * the internal names of the list's columns. Name matching, floats and the reader
 * of dates are parameters here; Dates says what that reader makes of a date's two texts.
 */
module Rows {
  import opened Options
  import opened Atom

  /** The internal name a property stands for, the type of a column, and Python's readers. */
  datatype Schema = Schema(internal: string -> Option<string>, typeOf: string -> Option<string>,
                           floats: Floats, moments: string -> Option<int>)

  predicate IsControl(key: string) {
    key == "__metadata" || key == "__deferred" || key == "__next" || key == "__count"
  }

  function WithoutControl(row: Row): Row {
    if row == [] then []
    else (if IsControl(row[0].0) then [] else [row[0]]) + WithoutControl(row[1..])
  }

  /** `dict.get`. */
  function Get(row: Row, key: string): Option<Value> {
    if row == [] then None else if row[0].0 == key then Some(row[0].1) else Get(row[1..], key)
  }

  function OrNull(value: Option<Value>): Value {
    if value.Some? then value.value else Null
  }

  predicate Truthy(value: Value) {
    match value
    case Null => false
    case Bool(b) => b
    case Int(n) => n != 0
    case Float(x) => x != 0.0
    case Moment(_) => true
    case Text(s) => s != ""
    case List(values) => values != []
    case Dict(items) => items != []
  }

  function Or(a: Value, b: Value): Value {
    if Truthy(a) then a else b
  }

  /** An inlined entity that has an id, as a lookup. */
  function AsLookup(inner: Row): Value {
    Dict([("id", OrNull(Get(inner, "Id"))),
          ("value", Or(Or(OrNull(Get(inner, "Title")), OrNull(Get(inner, "Value"))), OrNull(Get(inner, "Name"))))])
  }

  /** `_convert`. */
  function Convert(value: Value, schema: Schema): Value
  {
    match value
    case Text(s) => var at := schema.moments(s); if at.Some? then Moment(at.value) else value
    case Dict(items) =>
      var results := Get(items, "results");
      if results.Some? && results.value.List? then
        GetIsSmaller(items, "results");
        List(ConvertAll(results.value.values, schema))
      else if Get(WithoutControl(items), "Id").Some? then AsLookup(WithoutControl(items))
      else Dict(ConvertRow(items, schema))
    case List(values) => List(ConvertAll(values, schema))
    case _ => value
  }

  function ConvertAll(values: seq<Value>, schema: Schema): seq<Value> {
    if values == [] then [] else [Convert(values[0], schema)] + ConvertAll(values[1..], schema)
  }

  /** Without the control keys. */
  function ConvertRow(row: Row, schema: Schema): Row {
    if row == [] then []
    else (if IsControl(row[0].0) then [] else [ConvertItem(row[0], schema)]) + ConvertRow(row[1..], schema)
  }

  function ConvertItem(item: (string, Value), schema: Schema): (string, Value) {
    (item.0, Convert(item.1, schema))
  }

  lemma {:induction false} GetIsSmaller(row: Row, key: string)
    requires Get(row, key).Some?
    ensures exists i :: 0 <= i < |row| && row[i].1 == Get(row, key).value
  {
    if row[0].0 != key {
      GetIsSmaller(row[1..], key);
      var i :| 0 <= i < |row[1..]| && row[1..][i].1 == Get(row[1..], key).value;
      assert row[i + 1].1 == Get(row, key).value;
    } else {
      assert row[0].1 == Get(row, key).value;
    }
  }

  // ---- one item ----

  function Trunc(x: real): int {
    if x >= 0.0 then x.Floor else -(-x).Floor
  }

  /** `_coerce`. */
  function Coerce(column: Option<string>, value: Value, schema: Schema): Value {
    if column.None? || !value.Text? then value else
      var kind := schema.typeOf(column.value);
      if kind == Some("Number") || kind == Some("Currency") then
        var x := schema.floats(value.s);
        if x.Some? then Float(x.value) else value
      else if kind == Some("Integer") || kind == Some("Counter") then
        var x := schema.floats(value.s);
        if x.Some? then Int(Trunc(x.value)) else value
      else value
  }

  predicate IsDeferred(value: Value) {
    value.Dict? && Get(value.items, "__deferred").Some?
  }

  /** In Python a truth value is an integer too. */
  predicate IsInt(value: Value) {
    value.Int? || value.Bool?
  }

  predicate EndsInId(key: string) {
    |key| > 2 && key[|key| - 2..] == "Id"
  }

  /** The column whose id this item carries: `KundeId` beside `Kunde`. */
  function IdColumn(item: (string, Value), schema: Schema): Option<string> {
    if !IsDeferred(item.1) && EndsInId(item.0) && IsInt(item.1) then schema.internal(item.0[..|item.0| - 2]) else None
  }

  /** The column this item is written to, under its own name when no column is known for it. */
  function Column(item: (string, Value), schema: Schema): Option<string> {
    if IsDeferred(item.1) || IdColumn(item, schema).Some? then None else
      var target := schema.internal(item.0);
      if target.Some? then target else Some(item.0)
  }

  function Written(item: (string, Value), schema: Schema): Value {
    Coerce(schema.internal(item.0), Convert(item.1, schema), schema)
  }

  predicate IsUnmapped(item: (string, Value), schema: Schema) {
    Column(item, schema).Some? && schema.internal(item.0).None? && item.0 != "Id"
  }

  // ---- a row, as the loops go through it ----

  datatype Progress = Progress(decoded: Row, ids: Row, unmapped: set<string>)

  function MapItem(p: Progress, item: (string, Value), schema: Schema): Progress {
    var id, column := IdColumn(item, schema), Column(item, schema);
    Progress(if column.Some? then Put(p.decoded, column.value, Written(item, schema)) else p.decoded,
             if id.Some? then Put(p.ids, id.value, item.1) else p.ids,
             if IsUnmapped(item, schema) then p.unmapped + {item.0} else p.unmapped)
  }

  function MapItems(p: Progress, items: Row, schema: Schema): Progress
    decreases |items|
  {
    if items == [] then p else MapItems(MapItem(p, items[0], schema), items[1..], schema)
  }

  function SetDefault(row: Row, key: string, value: Value): Row {
    if Get(row, key).Some? then row else Put(row, key, value)
  }

  /** A column's value with the id beside it. */
  function WithId(existing: Option<Value>, id: Value): Value {
    match existing
    case None => Dict([("id", id), ("value", Null)])
    case Some(Dict(items)) => Dict(SetDefault(items, "id", id))
    case Some(value) => if value.Text? || value.Null? then Dict([("id", id), ("value", value)]) else value
  }

  function AddIds(decoded: Row, ids: Row): Row
    decreases |ids|
  {
    if ids == [] then decoded
    else AddIds(Put(decoded, ids[0].0, WithId(Get(decoded, ids[0].0), ids[0].1)), ids[1..])
  }

  const START := Progress([], [], {})

  function Decoded(entity: Row, schema: Schema): Row {
    var p := MapItems(START, WithoutControl(entity), schema);
    SetDefault(AddIds(p.decoded, p.ids), "ID", OrNull(Get(entity, "Id")))
  }

  /** The keys no column is known for. */
  function Unmapped(items: Row, schema: Schema): set<string> {
    if items == [] then {}
    else (if IsUnmapped(items[0], schema) then {items[0].0} else {}) + Unmapped(items[1..], schema)
  }

  /** What was unmapped before changes nothing. */
  lemma {:induction false} UnmappedApart(p: Progress, items: Row, schema: Schema, more: set<string>)
    ensures var r := MapItems(p, items, schema);
      && MapItems(p.(unmapped := more), items, schema) == r.(unmapped := more + Unmapped(items, schema))
    decreases |items|
  {
    if items == [] {
      assert more + {} == more;
    } else {
      var q := MapItem(p, items[0], schema);
      var more' := if IsUnmapped(items[0], schema) then more + {items[0].0} else more;
      UnmappedApart(q, items[1..], schema, more');
      assert MapItem(p.(unmapped := more), items[0], schema) == q.(unmapped := more');
    }
  }

  class RowMapper {
    const schema: Schema
    var unmapped: set<string>

    constructor (schema: Schema)
      ensures this.schema == schema && unmapped == {}
    {
      this.schema := schema;
      unmapped := {};
    }

    /** One round of the first loop. */
    method MapOne(key: string, value: Value, decoded: Row, lookupIds: Row) returns (decoded': Row, lookupIds': Row)
      modifies this`unmapped
      ensures Progress(decoded', lookupIds', unmapped) ==
              MapItem(Progress(decoded, lookupIds, old(unmapped)), (key, value), schema)
    {
      decoded', lookupIds' := decoded, lookupIds;
      if IsDeferred(value) {
        return;
      }
      if EndsInId(key) && IsInt(value) {
        var base := schema.internal(key[..|key| - 2]);
        if base.Some? {
          lookupIds' := Put(lookupIds, base.value, value);
          return;
        }
      }
      var target := schema.internal(key);
      decoded' := Put(decoded, if target.Some? then target.value else key,
                      Coerce(target, Convert(value, schema), schema));
      if target.None? && key != "Id" {
        unmapped := unmapped + {key};
      }
    }

    /** The second loop: a lookup keeps its id where its value can hold one. */
    method PatchIds(decoded: Row, lookupIds: Row) returns (r: Row)
      ensures r == AddIds(decoded, lookupIds)
    {
      r := decoded;
      var i := 0;
      while i < |lookupIds|
        invariant 0 <= i <= |lookupIds|
        invariant AddIds(r, lookupIds[i..]) == AddIds(decoded, lookupIds)
      {
        var internal, itemId := lookupIds[i].0, lookupIds[i].1;
        assert lookupIds[i..][0] == lookupIds[i] && lookupIds[i..][1..] == lookupIds[i + 1..];
        var existing := Get(r, internal);
        if existing.Some? && existing.value.Dict? {
          r := Put(r, internal, Dict(SetDefault(existing.value.items, "id", itemId)));
        } else if existing.None? || existing.value.Text? || existing.value.Null? {
          r := Put(r, internal, Dict([("id", itemId), ("value", OrNull(existing))]));
        } else {
          PutSame(r, internal);
        }
        i := i + 1;
      }
    }

    method MapRow(entity: Row) returns (raw: Row, decoded: Row)
      modifies this`unmapped
      ensures raw == WithoutControl(entity)
      ensures decoded == Decoded(entity, schema)
      ensures unmapped == old(unmapped) + Unmapped(raw, schema)
    {
      raw := WithoutControl(entity);
      decoded := [];
      var lookupIds: Row := [];
      var i := 0;
      while i < |raw|
        invariant 0 <= i <= |raw|
        invariant MapItems(Progress(decoded, lookupIds, unmapped), raw[i..], schema) ==
                  MapItems(Progress([], [], old(unmapped)), raw, schema)
      {
        assert raw[i..][0] == raw[i] && raw[i..][1..] == raw[i + 1..];
        decoded, lookupIds := MapOne(raw[i].0, raw[i].1, decoded, lookupIds);
        i := i + 1;
      }
      UnmappedApart(START, raw, schema, old(unmapped));
      decoded := PatchIds(decoded, lookupIds);
      decoded := SetDefault(decoded, "ID", OrNull(Get(entity, "Id")));
    }
  }

  lemma {:induction false} PutSame(row: Row, key: string)
    requires Get(row, key).Some?
    ensures Put(row, key, Get(row, key).value) == row
  {
    if row[0].0 != key {
      PutSame(row[1..], key);
    }
  }
}
