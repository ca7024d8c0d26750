/**
 * The Atom and the verbose-JSON form of an entity are mapped to the same row: exactly when
 * (src/spconnect/services/odata.py:651-715).
 */
module MappedAlike {
  import opened Options
  import opened Dates
  import opened Atom
  import opened AtomParity
  import opened Rows
  import opened RowTheorems
  import opened RowParity

  // ---- one member ----

  /** Two texts of one date under a column: read to one moment, or no dates at all and the same value
      of the column's type. */
  predicate StampsAlike(a: string, b: string, column: Option<string>, schema: Schema) {
    && schema.moments(a) == schema.moments(b)
    && (schema.moments(a).None? ==> Coerce(column, Text(a), schema) == Coerce(column, Text(b), schema))
  }

  predicate WritesAlike(p: Property, view: View, schema: Schema) {
    view.Seen? ==> p.value != Several([]) &&
                   (p.value.Stamp? ==> StampsAlike(p.value.atom, p.value.json, schema.internal(p.name), schema))
  }

  ghost predicate AlikeMember(m: Member, view: View, schema: Schema) {
    match m case Own(p) => WritesAlike(p, view, schema) case Linked(l) => AlikeTarget(l.target, view, schema)
  }

  ghost predicate MemberIsKeyed(m: Member) {
    m.Linked? ==> TargetIsKeyed(m.link.target)
  }

  /** Where a member goes is the same for both forms, and so is an id. */
  lemma GoesAlike(m: Member, view: View, schema: Schema)
    ensures Column(ItemOf(m, view), schema) == Column(ItemOf(m, Verbose), schema)
    ensures IdColumn(ItemOf(m, view), schema) == IdColumn(ItemOf(m, Verbose), schema)
    ensures IdColumn(ItemOf(m, view), schema).Some? ==> ItemOf(m, view) == ItemOf(m, Verbose)
  {
    LabelNames();
    if m.Linked? {
      if m.link.target.One? {
        GetMember(m.link.target.entity, view, "__deferred");
        GetMember(m.link.target.entity, Verbose, "__deferred");
      } else if m.link.target.Many? {
        ManyIsNotDeferred(m.link.target, m.link.href, view);
        ManyIsNotDeferred(m.link.target, m.link.href, Verbose);
      }
    } else {
      ScalarIsNotDeferred(m.property.value, view);
      ScalarIsNotDeferred(m.property.value, Verbose);
    }
  }

  lemma ScalarIsNotDeferred(value: Scalar, view: View)
    ensures !IsDeferred(ScalarValue(value, view))
  {
    assert "results"[0] == 'r' && "__deferred"[0] == '_';
    if ScalarValue(value, view).Dict? {
      GetNone(ScalarValue(value, view).items, "__deferred");
    }
  }

  lemma {:induction false} ManyIsNotDeferred(target: Target, href: string, view: View)
    requires target.Many?
    ensures !IsDeferred(TargetValue(target, href, view))
  {
    assert "results"[0] == 'r' && "__next"[2] == 'n' && "__deferred"[2] == 'd' && "__deferred"[0] == '_';
    GetNone(TargetValue(target, href, view).items, "__deferred");
  }

  lemma {:induction false} GetConverted(row: Row, k: string, schema: Schema)
    requires !IsControl(k)
    ensures Get(ConvertRow(row, schema), k).Some? <==> Get(row, k).Some?
  {
    if row != [] {
      GetConverted(row[1..], k, schema);
      ConvertRowFirst(row, schema);
      GetAppend([ConvertItem(row[0], schema)], ConvertRow(row[1..], schema), k);
    }
  }

  lemma IdIsNoControl()
    ensures !IsControl("id") && "id" != METADATA && "id" != "value"
  {
    assert "id"[0] == 'i' && METADATA[0] == '_' && "__deferred"[0] == '_' && "__next"[0] == '_' && "__count"[0] == '_';
  }

  /** A converted inlined entity has a member `id` in both forms or in none. */
  lemma {:induction false} IdInBoth(e: Entity, view: View, schema: Schema)
    requires !view.Verbose?
    ensures var a, b := Convert(Dict(Json(e, view)), schema), Convert(Dict(Json(e, Verbose)), schema);
      a.Dict? && b.Dict? && (Get(a.items, "id").Some? <==> Get(b.items, "id").Some?)
  {
    IdIsNoControl();
    ConvertEntity(e, view, schema);
    ConvertEntity(e, Verbose, schema);
    GetConverted(Json(e, view), "id", schema);
    GetConverted(Json(e, Verbose), "id", schema);
    SteadyExactly(e, "id", view);
  }

  lemma {:induction false} PutAtEnd(row: Row, key: string, value: Value)
    requires Get(row, key).None?
    ensures Put(row, key, value) == row + [(key, value)]
  {
    if row != [] {
      PutAtEnd(row[1..], key, value);
    }
  }

  /** An id beside a value hides no difference. */
  lemma {:induction false} IdHidesNothing(a: Row, b: Row, id: Value)
    requires Get(a, "id").Some? <==> Get(b, "id").Some?
    ensures SetDefault(a, "id", id) == SetDefault(b, "id", id) <==> a == b
  {
    if Get(a, "id").None? {
      PutAtEnd(a, "id", id);
      PutAtEnd(b, "id", id);
      if a + [("id", id)] == b + [("id", id)] {
        assert (a + [("id", id)])[..|a|] == a && (b + [("id", id)])[..|b|] == b;
      }
    }
  }

  lemma OwnWritesExactly(p: Property, view: View, schema: Schema, id: Value)
    requires !view.Verbose?
    ensures var a, b := Written(ItemOf(Own(p), view), schema), Written(ItemOf(Own(p), Verbose), schema);
      && (a == b <==> WritesAlike(p, view, schema))
      && (WithId(Some(a), id) == WithId(Some(b), id) <==> WritesAlike(p, view, schema))
  {
    ScalarConverted(p.value, view, schema);
    var c, d := Convert(ScalarValue(p.value, view), schema), Convert(ScalarValue(p.value, Verbose), schema);
    if view.Seen? && p.value == Several([]) {
      assert d == List([]) && Coerce(schema.internal(p.name), d, schema) == d && WithId(Some(d), id) == d;
      CoerceMakesNoList(schema.internal(p.name), c, schema, id);
    } else if view.Seen? && p.value.Stamp? {
      StampWritesExactly(p.value.atom, p.value.json, schema.internal(p.name), schema, id);
    }
  }

  lemma {:induction false} StampWritesExactly(x: string, y: string, column: Option<string>, schema: Schema, id: Value)
    ensures var a := Coerce(column, Convert(Text(x), schema), schema);
      var b := Coerce(column, Convert(Text(y), schema), schema);
      && (a == b <==> StampsAlike(x, y, column, schema))
      && (WithId(Some(a), id) == WithId(Some(b), id) <==> StampsAlike(x, y, column, schema))
  {
    var a := Coerce(column, Convert(Text(x), schema), schema);
    var b := Coerce(column, Convert(Text(y), schema), schema);
    IdShowsValue(a, b, id);
  }

  /** An id beside two values that are no dictionaries hides no difference between them. */
  lemma IdShowsValue(a: Value, b: Value, id: Value)
    requires !a.Dict? && !b.Dict?
    ensures WithId(Some(a), id) == WithId(Some(b), id) <==> a == b
  {
    var c, d := [("id", id), ("value", a)], [("id", id), ("value", b)];
    assert c == d ==> c[1].1 == d[1].1;
  }

  lemma CoerceMakesNoList(column: Option<string>, c: Value, schema: Schema, id: Value)
    requires !c.List? && !c.Dict?
    ensures !Coerce(column, c, schema).List? && !WithId(Some(Coerce(column, c, schema)), id).List?
  {
  }

  lemma {:induction false} LinkWritesExactly(l: Navigation, view: View, schema: Schema, id: Value)
    requires !view.Verbose? && TargetIsKeyed(l.target)
    ensures var a := Convert(TargetValue(l.target, l.href, view), schema);
      var b := Convert(TargetValue(l.target, l.href, Verbose), schema);
      && (a == b <==> AlikeTarget(l.target, view, schema))
      && (WithId(Some(a), id) == WithId(Some(b), id) <==> AlikeTarget(l.target, view, schema))
      && !a.Text? && !b.Text?
  {
    TargetExactly(l, view, schema);
    match l.target
    case Deferred => DeferredConverted(l.href, schema);
    case One(e) =>
      IdInBoth(e, view, schema);
      IdHidesNothing(Convert(Dict(Json(e, view)), schema).items, Convert(Dict(Json(e, Verbose)), schema).items, id);
    case Many(_) =>
      ManyConverted(l.target, l.href, view, schema);
      ManyConverted(l.target, l.href, Verbose, schema);
  }

  lemma {:induction false} DeferredConverted(href: string, schema: Schema)
    ensures !Convert(TargetValue(Deferred, href, Verbose), schema).Text?
  {
    ConvertDict(TargetValue(Deferred, href, Verbose).items, schema);
  }

  /** What a member writes is the same from both forms, with or without an id beside it, exactly
      when it is converted alike. */
  lemma WritesExactly(m: Member, view: View, schema: Schema, id: Value)
    requires !view.Verbose? && MemberIsKeyed(m)
    ensures var a, b := Written(ItemOf(m, view), schema), Written(ItemOf(m, Verbose), schema);
      && (a == b <==> AlikeMember(m, view, schema))
      && (WithId(Some(a), id) == WithId(Some(b), id) <==> AlikeMember(m, view, schema))
  {
    match m
    case Own(p) => OwnWritesExactly(p, view, schema, id);
    case Linked(l) => LinkWritesExactly(l, view, schema, id);
  }

  // ---- one column ----

  predicate Claims(m: Member, k: string, schema: Schema) {
    !IsControl(NameOf(m)) && Column(ItemOf(m, Verbose), schema) == Some(k)
  }

  /** The last member that is written to a column. */
  function LastClaim(ms: seq<Member>, k: string, schema: Schema): Option<Member> {
    if ms == [] then None else
      var later := LastClaim(ms[1..], k, schema);
      if later.Some? then later else if Claims(ms[0], k, schema) then Some(ms[0]) else None
  }

  function ItemsKept(ms: seq<Member>, view: View): Row {
    WithoutControl(Items(ms, view))
  }

  lemma ItemsKeptFirst(ms: seq<Member>, view: View)
    requires ms != []
    ensures ItemsKept(ms, view) ==
            (if IsControl(NameOf(ms[0])) then [] else [ItemOf(ms[0], view)]) + ItemsKept(ms[1..], view)
  {
  }

  lemma {:induction false} LastValueIs(ms: seq<Member>, view: View, k: string, schema: Schema)
    ensures LastValue(ItemsKept(ms, view), k, schema) ==
            match LastClaim(ms, k, schema) case None => None case Some(m) => Some(Written(ItemOf(m, view), schema))
    decreases |ms|
  {
    if ms != [] {
      LastValueIs(ms[1..], view, k, schema);
      GoesAlike(ms[0], view, schema);
      ItemsKeptFirst(ms, view);
      if IsControl(NameOf(ms[0])) {
        assert ItemsKept(ms, view) == ItemsKept(ms[1..], view);
      } else {
        assert ItemsKept(ms, view)[1..] == ItemsKept(ms[1..], view);
      }
    }
  }

  /** Where two rows of items go is the same. */
  ghost predicate GoTogether(a: Row, b: Row, schema: Schema) {
    |a| == |b| && forall i :: 0 <= i < |a| ==> GoesWith(a[i], b[i], schema)
  }

  ghost predicate GoesWith(a: (string, Value), b: (string, Value), schema: Schema) {
    && Column(a, schema) == Column(b, schema) && IdColumn(a, schema) == IdColumn(b, schema)
    && (IdColumn(a, schema).Some? ==> a == b)
  }

  lemma {:induction false} KeptTogether(ms: seq<Member>, view: View, schema: Schema)
    ensures GoTogether(ItemsKept(ms, view), ItemsKept(ms, Verbose), schema)
    decreases |ms|
  {
    if ms != [] {
      KeptTogether(ms[1..], view, schema);
      GoesAlike(ms[0], view, schema);
      ItemsKeptFirst(ms, view);
      ItemsKeptFirst(ms, Verbose);
      OneMoreTogether(ItemOf(ms[0], view), ItemOf(ms[0], Verbose), ItemsKept(ms[1..], view),
                      ItemsKept(ms[1..], Verbose), schema);
    }
  }

  lemma OneMoreTogether(a: (string, Value), b: (string, Value), rest: Row, others: Row, schema: Schema)
    requires GoesWith(a, b, schema) && GoTogether(rest, others, schema)
    ensures GoTogether([a] + rest, [b] + others, schema)
  {
  }

  lemma {:induction false} LastIdTogether(a: Row, b: Row, k: string, schema: Schema)
    requires GoTogether(a, b, schema)
    ensures LastId(a, k, schema) == LastId(b, k, schema)
    decreases |a|
  {
    if a != [] {
      assert GoesWith(a[0], b[0], schema);
      LastIdTogether(a[1..], b[1..], k, schema);
    }
  }

  lemma {:induction false} RawIsKept(e: Entity, view: View)
    ensures WithoutControl(Json(e, view)) == ItemsKept(Members(e), view)
  {
    JsonIsItems(e, view);
    assert IsControl(METADATA);
    if view.Verbose? {
      assert Json(e, view)[1..] == Items(Members(e), view);
      assert WithoutControl(Json(e, view)) == [] + ItemsKept(Members(e), view);
    } else {
      assert Json(e, view) == Items(Members(e), view);
    }
  }

  /** A column is the same from both forms: the last member written to it is converted alike; and the
      row's own id, where nothing else is its column, is the same. */
  ghost predicate ColumnAlike(e: Entity, view: View, k: string, schema: Schema) {
    match LastClaim(Members(e), k, schema)
    case Some(m) => AlikeMember(m, view, schema)
    case None =>
      k == "ID" && LastId(ItemsKept(Members(e), Verbose), k, schema).None? ==> Steady(e, "Id", view)
  }

  lemma {:induction false} ColumnExactly(e: Entity, view: View, k: string, schema: Schema)
    requires !view.Verbose? && IsKeyed(e)
    ensures Get(Decoded(Json(e, view), schema), k) == Get(Decoded(Json(e, Verbose), schema), k) <==>
            ColumnAlike(e, view, k, schema)
  {
    ColumnDecoded(Json(e, view), schema, k);
    ColumnDecoded(Json(e, Verbose), schema, k);
    RawIsKept(e, view);
    RawIsKept(e, Verbose);
    LastValueIs(Members(e), view, k, schema);
    LastValueIs(Members(e), Verbose, k, schema);
    KeptTogether(Members(e), view, schema);
    LastIdTogether(ItemsKept(Members(e), view), ItemsKept(Members(e), Verbose), k, schema);
    var m, id := LastClaim(Members(e), k, schema), LastId(ItemsKept(Members(e), Verbose), k, schema);
    if m.Some? {
      ClaimIsKeyed(e, k, schema);
      WritesExactly(m.value, view, schema, OrNull(id));
    } else {
      LabelNames();
      SteadyExactly(e, "Id", view);
    }
  }

  lemma {:induction false} ClaimIsMember(ms: seq<Member>, k: string, schema: Schema) returns (i: nat)
    requires LastClaim(ms, k, schema).Some?
    ensures i < |ms| && ms[i] == LastClaim(ms, k, schema).value
  {
    if LastClaim(ms[1..], k, schema).Some? {
      i := ClaimIsMember(ms[1..], k, schema);
      i := i + 1;
    } else {
      i := 0;
    }
  }

  lemma {:induction false} ClaimIsKeyed(e: Entity, k: string, schema: Schema)
    requires IsKeyed(e) && LastClaim(Members(e), k, schema).Some?
    ensures MemberIsKeyed(LastClaim(Members(e), k, schema).value)
  {
    var i := ClaimIsMember(Members(e), k, schema);
    if i >= |e.properties| {
      KeyedAt(e.links, i - |e.properties|);
    }
  }

  // ---- the whole row ----

  lemma {:induction false} GetInKeys(row: Row, k: string)
    ensures Get(row, k).Some? <==> k in Keys(row)
  {
    if row != [] {
      GetInKeys(row[1..], k);
      assert Keys(row) == [row[0].0] + Keys(row[1..]);
    }
  }

  /** The keys of a dictionary do not depend on what is put under them. */
  lemma {:induction false} PutKeys(a: Row, b: Row, key: string, v: Value, w: Value)
    requires Keys(a) == Keys(b)
    ensures Keys(Put(a, key, v)) == Keys(Put(b, key, w))
    decreases |a|
  {
    assert |Keys(a)| == |a| && |Keys(b)| == |b|;
    if a != [] {
      assert Keys(a)[0] == a[0].0 && Keys(b)[0] == b[0].0;
      assert Keys(a[1..]) == Keys(a)[1..] && Keys(b[1..]) == Keys(b)[1..];
      PutKeys(a[1..], b[1..], key, v, w);
      KeysFirst(Put(a, key, v));
      KeysFirst(Put(b, key, w));
      if a[0].0 != key {
        assert Put(a, key, v)[1..] == Put(a[1..], key, v) && Put(b, key, w)[1..] == Put(b[1..], key, w);
      } else {
        assert Put(a, key, v)[1..] == a[1..] && Put(b, key, w)[1..] == b[1..];
      }
    }
  }

  lemma KeysFirst(row: Row)
    requires row != []
    ensures Keys(row) == [row[0].0] + Keys(row[1..])
  {
  }

  lemma {:induction false} MappedTogether(p: Progress, q: Progress, a: Row, b: Row, schema: Schema)
    requires GoTogether(a, b, schema) && Keys(p.decoded) == Keys(q.decoded) && p.ids == q.ids
    ensures var r, s := MapItems(p, a, schema), MapItems(q, b, schema);
      Keys(r.decoded) == Keys(s.decoded) && r.ids == s.ids
    decreases |a|
  {
    if a != [] {
      assert GoesWith(a[0], b[0], schema);
      var column := Column(a[0], schema);
      if column.Some? {
        PutKeys(p.decoded, q.decoded, column.value, Written(a[0], schema), Written(b[0], schema));
      }
      MappedTogether(MapItem(p, a[0], schema), MapItem(q, b[0], schema), a[1..], b[1..], schema);
    }
  }

  lemma {:induction false} IdsAddedTogether(a: Row, b: Row, ids: Row)
    requires Keys(a) == Keys(b)
    ensures Keys(AddIds(a, ids)) == Keys(AddIds(b, ids))
    decreases |ids|
  {
    if ids != [] {
      var v, w := WithId(Get(a, ids[0].0), ids[0].1), WithId(Get(b, ids[0].0), ids[0].1);
      PutKeys(a, b, ids[0].0, v, w);
      IdsAddedTogether(Put(a, ids[0].0, v), Put(b, ids[0].0, w), ids[1..]);
    }
  }

  /** Both forms are mapped to rows with the same keys in the same order. */
  lemma {:induction false} SameKeys(e: Entity, view: View, schema: Schema)
    ensures Keys(Decoded(Json(e, view), schema)) == Keys(Decoded(Json(e, Verbose), schema))
  {
    RawIsKept(e, view);
    RawIsKept(e, Verbose);
    KeptTogether(Members(e), view, schema);
    var p := MapItems(START, WithoutControl(Json(e, view)), schema);
    var q := MapItems(START, WithoutControl(Json(e, Verbose)), schema);
    MappedTogether(START, START, ItemsKept(Members(e), view), ItemsKept(Members(e), Verbose), schema);
    IdsAddedTogether(p.decoded, q.decoded, p.ids);
    var a, b := AddIds(p.decoded, p.ids), AddIds(q.decoded, q.ids);
    GetInKeys(a, "ID");
    GetInKeys(b, "ID");
    PutKeys(a, b, "ID", Valued(e, "Id", view), Valued(e, "Id", Verbose));
  }

  lemma {:induction false} MappedOnce(p: Progress, items: Row, schema: Schema)
    requires Once(p.decoded)
    ensures Once(MapItems(p, items, schema).decoded)
    decreases |items|
  {
    if items != [] {
      var column := Column(items[0], schema);
      if column.Some? {
        PutKeepsOnce(p.decoded, column.value, Written(items[0], schema));
      }
      MappedOnce(MapItem(p, items[0], schema), items[1..], schema);
    }
  }

  lemma {:induction false} IdsAddedOnce(decoded: Row, ids: Row)
    requires Once(decoded)
    ensures Once(AddIds(decoded, ids))
    decreases |ids|
  {
    if ids != [] {
      PutKeepsOnce(decoded, ids[0].0, WithId(Get(decoded, ids[0].0), ids[0].1));
      IdsAddedOnce(Put(decoded, ids[0].0, WithId(Get(decoded, ids[0].0), ids[0].1)), ids[1..]);
    }
  }

  lemma DecodedOnce(entity: Row, schema: Schema)
    ensures Once(Decoded(entity, schema))
  {
    var p := MapItems(START, WithoutControl(entity), schema);
    MappedOnce(START, WithoutControl(entity), schema);
    IdsAddedOnce(p.decoded, p.ids);
    PutKeepsOnce(AddIds(p.decoded, p.ids), "ID", OrNull(Get(entity, "Id")));
  }

  lemma {:induction false} GetOnce(row: Row, i: nat)
    requires Once(row) && i < |row|
    ensures Get(row, row[i].0) == Some(row[i].1)
  {
    if i > 0 {
      GetOnce(row[1..], i - 1);
    }
  }

  lemma {:induction false} SameRow(a: Row, b: Row)
    requires Keys(a) == Keys(b) && Once(a) && Once(b) && forall k :: Get(a, k) == Get(b, k)
    ensures a == b
  {
    assert |Keys(a)| == |a| && |Keys(b)| == |b|;
    forall i | 0 <= i < |a| ensures a[i] == b[i] {
      assert Keys(a)[i] == a[i].0 && Keys(b)[i] == b[i].0;
      GetOnce(a, i);
      GetOnce(b, i);
    }
  }

  ghost predicate RowAlike(e: Entity, view: View, schema: Schema) {
    forall k :: ColumnAlike(e, view, k, schema)
  }

  /** Both forms of an entity are mapped to the same row exactly when every column is alike. */
  lemma {:induction false} MappedExactly(e: Entity, view: View, schema: Schema)
    requires !view.Verbose? && IsKeyed(e)
    ensures Decoded(Json(e, view), schema) == Decoded(Json(e, Verbose), schema) <==> RowAlike(e, view, schema)
  {
    forall k
      ensures Get(Decoded(Json(e, view), schema), k) == Get(Decoded(Json(e, Verbose), schema), k) <==>
              ColumnAlike(e, view, k, schema)
    {
      ColumnExactly(e, view, k, schema);
    }
    if RowAlike(e, view, schema) {
      SameKeys(e, view, schema);
      DecodedOnce(Json(e, view), schema);
      DecodedOnce(Json(e, Verbose), schema);
      SameRow(Decoded(Json(e, view), schema), Decoded(Json(e, Verbose), schema));
    }
  }

  /** Annotations leave no trace in a mapped row exactly so. */
  lemma {:induction false} AnnotationsLeaveNoTrace(e: Entity, schema: Schema)
    requires IsKeyed(e)
    ensures Decoded(Json(e, Bare), schema) == Decoded(Json(e, Verbose), schema) <==> RowAlike(e, Bare, schema)
  {
    MappedExactly(e, Bare, schema);
  }

  /** The Atom and the verbose-JSON form of an entity are mapped to the same row exactly so. */
  lemma {:induction false} BothFormsMapAlike(e: Entity, schema: Schema)
    requires IsEntity(e, schema.floats) && IsKeyed(e)
    ensures Decoded(ReadEntry(AtomEntry(e), schema.floats), schema) == Decoded(Json(e, Verbose), schema) <==>
            RowAlike(e, Seen, schema)
  {
    EntryIsRead(e, schema.floats);
    MappedExactly(e, Seen, schema);
  }

  // ---- what the crawl asks for ----

  /** Links are expanded one level deep: an inlined entity's own links are not. */
  ghost predicate IsShallow(e: Entity, schema: Schema) {
    forall i :: 0 <= i < |e.links| ==> TargetIsShallow(e.links[i].target, schema)
  }

  ghost predicate TargetIsShallow(target: Target, schema: Schema) {
    match target
    case Deferred => true
    case One(e) => IsFlat(e, schema)
    case Many(rows) => forall i :: 0 <= i < |rows.entities| ==> IsFlat(rows.entities[i], schema)
  }

  /** No link is expanded, no collection of values is empty, and both texts of a date are read to one
      moment. What a lookup takes its id and label from is no date. */
  ghost predicate IsFlat(e: Entity, schema: Schema) {
    && (forall i :: 0 <= i < |e.links| ==> e.links[i].target.Deferred?)
    && AreRead(e.properties, schema)
    && (forall i :: 0 <= i < |e.properties| && e.properties[i].value.Stamp? ==> !IsLookupKey(e.properties[i].name))
  }

  predicate IsLookupKey(name: string) {
    name == "Id" || name == "Title" || name == "Value" || name == "Name"
  }

  ghost predicate AreRead(ps: seq<Property>, schema: Schema) {
    forall i :: 0 <= i < |ps| ==> ps[i].value != Several([]) && (ps[i].value.Stamp? ==> IsRead(ps[i].value, schema))
  }

  predicate IsRead(value: Scalar, schema: Schema)
    requires value.Stamp?
  {
    schema.moments(value.atom).Some? && schema.moments(value.atom) == schema.moments(value.json)
  }

  lemma FlatIsSteady(e: Entity, k: string, view: View, schema: Schema)
    requires IsFlat(e, schema) && IsLookupKey(k)
    ensures Steady(e, k, view)
  {
    if Named(Members(e), k).Some? {
      var i := NamedIsMember(Members(e), k);
    }
  }

  lemma {:induction false} FlatIsAlike(e: Entity, view: View, schema: Schema)
    requires IsFlat(e, schema) && !view.Verbose?
    ensures AlikeEntity(e, view, schema)
  {
    LabelNames();
    FlatIsSteady(e, "Id", view, schema);
    FlatIsSteady(e, "Title", view, schema);
    FlatIsSteady(e, "Value", view, schema);
    FlatIsSteady(e, "Name", view, schema);
    SteadyExactly(e, "Title", view);
    SteadyExactly(e, "Value", view);
    DeferredAreAlike(e.links, view, schema);
  }

  lemma {:induction false} DeferredAreAlike(links: seq<Navigation>, view: View, schema: Schema)
    requires forall i :: 0 <= i < |links| ==> links[i].target.Deferred?
    ensures LinksAlike(links, view, schema)
    decreases |links|
  {
    if links != [] {
      DeferredAreAlike(links[1..], view, schema);
    }
  }

  lemma {:induction false} FlatRowsAreAlike(es: seq<Entity>, view: View, schema: Schema)
    requires !view.Verbose? && forall i :: 0 <= i < |es| ==> IsFlat(es[i], schema)
    ensures RowsAlike(es, view, schema)
    decreases |es|
  {
    if es != [] {
      FlatIsAlike(es[0], view, schema);
      FlatRowsAreAlike(es[1..], view, schema);
    }
  }

  /** An entity with links expanded one level deep and no empty collection of values, whose dates are
      read to one moment from both forms, is mapped to the same row from both forms, whatever its links
      are called: unless a link or a date takes the place of an id, or a date that of a label. */
  lemma {:induction false} ShallowMapsAlike(e: Entity, schema: Schema)
    requires IsEntity(e, schema.floats) && IsKeyed(e) && IsShallow(e, schema) && Steady(e, "Id", Seen)
    requires AreRead(e.properties, schema)
    ensures Decoded(ReadEntry(AtomEntry(e), schema.floats), schema) == Decoded(Json(e, Verbose), schema)
  {
    BothFormsMapAlike(e, schema);
    forall k ensures ColumnAlike(e, Seen, k, schema) {
      if LastClaim(Members(e), k, schema).Some? {
        var i := ClaimIsMember(Members(e), k, schema);
        if i >= |e.properties| {
          var target := e.links[i - |e.properties|].target;
          assert TargetIsShallow(target, schema);
          match target
          case Deferred =>
          case One(x) => FlatIsAlike(x, Seen, schema);
          case Many(rows) => FlatRowsAreAlike(rows.entities, Seen, schema);
        }
      }
    }
  }

  /** A date as a service sends it. */
  function StampOf(edm: string, t: Time, digits: string): Scalar {
    Stamp(edm, AtomText(t), JsonText(digits, t.zone))
  }

  ghost predicate ReadsDates(schema: Schema, iso: Iso) {
    ReadsForm(iso) && forall s :: schema.moments(s) == ReadMoment(s, iso)
  }

  /** With the library's reader of dates: both texts of a date are read alike exactly when it is a whole
      number of milliseconds and less than a hundred minutes off UTC. */
  lemma StampIsReadExactly(edm: string, t: Time, digits: string, schema: Schema, iso: Iso)
    requires IsTime(t) && Spells(digits, t) && ReadsDates(schema, iso)
    ensures IsRead(StampOf(edm, t, digits), schema) <==> IsShared(t)
    ensures ConvertsAlike(StampOf(edm, t, digits), Seen, schema) <==> IsRead(StampOf(edm, t, digits), schema)
  {
    AtomIsRead(t, iso);
    OneMomentExactly(t, digits, iso);
  }

  // ---- where it fails ----

  /** A row with one lookup. */
  function Outer(inlined: Entity): Entity {
    Entity(false, [], [], [Navigation("Kunde", "", One(inlined))])
  }

  function Code(): Entity {
    Entity(false, [], [Property("Code", Plain("", "x"))], [])
  }

  /** An inlined entity whose label is inlined in turn. */
  function Labelled(): Entity {
    Entity(false, [], [Property("Id", Whole("Edm.Int32", 7))], [Navigation("Title", "", One(Code()))])
  }

  /** An inlined entity whose label is a date. */
  function Dated(): Entity {
    Entity(false, [], [Property("Id", Whole("Edm.Int32", 7)),
                       Property("Title", Stamp("Edm.DateTime", "2009-03-14T08:11:00", "/Date(1237018260000)/"))], [])
  }

  /** A row whose lookup is not alike differs, under every schema. */
  lemma {:induction false} LookupDiffers(x: Entity, schema: Schema)
    requires IsEntity(Outer(x), schema.floats) && IsKeyed(Outer(x)) && !AlikeEntity(x, Seen, schema)
    requires Named(Members(x), "__deferred").None?
    ensures Decoded(ReadEntry(AtomEntry(Outer(x)), schema.floats), schema) != Decoded(Json(Outer(x), Verbose), schema)
  {
    BothFormsMapAlike(Outer(x), schema);
    var m := Linked(Outer(x).links[0]);
    assert Members(Outer(x)) == [m];
    LookupHasColumn(x, schema);
    var k := Column(ItemOf(m, Verbose), schema).value;
    assert LastClaim([m], k, schema) == Some(m) by {
      assert [m][1..] == [];
    }
    assert !ColumnAlike(Outer(x), Seen, k, schema);
  }

  lemma LookupHasColumn(x: Entity, schema: Schema)
    requires Named(Members(x), "__deferred").None?
    ensures var m := Linked(Outer(x).links[0]);
      !IsControl(NameOf(m)) && Column(ItemOf(m, Verbose), schema).Some?
  {
    LabelNames();
    assert "Kunde"[0] == 'K' && METADATA[0] == '_' && "__deferred"[0] == '_';
    assert "__next"[0] == '_' && "__count"[0] == '_';
    GetMember(x, Verbose, "__deferred");
    assert "Kunde"[|"Kunde"| - 2..] != "Id";
  }

  /** Two levels of expansion are enough for a row that differs: the label of the lookup keeps the
      annotations it came with. */
  lemma NestedLabelDiffers(schema: Schema)
    ensures var e := Outer(Labelled());
      Decoded(ReadEntry(AtomEntry(e), schema.floats), schema) != Decoded(Json(e, Verbose), schema)
  {
    LabelledIsEntity(schema.floats);
    LabelledIsNotAlike(schema);
    LookupDiffers(Labelled(), schema);
  }

  lemma LabelledIsEntity(floats: Floats)
    ensures IsEntity(Outer(Labelled()), floats) && IsKeyed(Outer(Labelled()))
    ensures Named(Members(Labelled()), "__deferred").None?
  {
    LabelNames();
    var e := Labelled();
    assert Names(Code()) == ["Code"] && Names(e) == ["Id", "Title"] && Names(Outer(e)) == ["Kunde"];
    assert "Code"[0] != METADATA[0] && "Id" != "Title";
    assert Code().links == [] && e.links[1..] == [] && Outer(e).links[1..] == [];
    assert IsEntity(Code(), floats) && IsEntity(e, floats);
    assert Members(e) == [Own(e.properties[0]), Linked(e.links[0])];
    NoneDeferred(Members(e));
  }

  lemma {:induction false} LabelledIsNotAlike(schema: Schema)
    ensures !AlikeEntity(Labelled(), Seen, schema)
  {
    LabelNames();
    var e := Labelled();
    assert Members(e) == [Own(e.properties[0]), Linked(e.links[0])];
    assert "Id" != "Title" && Members(e)[1..] == [Linked(e.links[0])];
    assert Named(Members(e), "Id").Some? && Named(Members(e), "Title") == Some(Linked(e.links[0]));
    GetMember(e, Seen, "Title");
    GetMember(e, Verbose, "Title");
    JsonIsItems(Code(), Seen);
    assert Members(Code()) == [Own(Code().properties[0])];
    assert |Json(Code(), Seen)| > 0 && |Json(Code(), Verbose)| > 0;
    assert Pick(e, Seen) == "Title" && Pick(e, Verbose) == "Title";
  }

  lemma {:induction false} NoneDeferred(ms: seq<Member>)
    requires |ms| == 2 && NameOf(ms[0]) == "Id" && NameOf(ms[1]) == "Title"
    ensures Named(ms, "__deferred").None?
  {
    assert "Id"[0] != "__deferred"[0] && "Title"[0] != "__deferred"[0];
    assert ms[1..][0] == ms[1] && ms[1..][1..] == [];
    assert Named(ms[1..], "__deferred").None?;
  }

  /** One level is enough when the label is a date: a lookup takes it as it is sent, and the two forms
      write it differently. */
  lemma DatedLabelDiffers(schema: Schema)
    ensures var e := Outer(Dated());
      Decoded(ReadEntry(AtomEntry(e), schema.floats), schema) != Decoded(Json(e, Verbose), schema)
  {
    DatedIsEntity(schema.floats);
    DatedIsNotAlike(schema);
    LookupDiffers(Dated(), schema);
  }

  lemma DatedIsEntity(floats: Floats)
    ensures IsEntity(Outer(Dated()), floats) && IsKeyed(Outer(Dated()))
    ensures Named(Members(Dated()), "__deferred").None?
  {
    LabelNames();
    var e := Dated();
    assert Names(e) == ["Id", "Title"] && Names(Outer(e)) == ["Kunde"];
    assert "Id" != "Title" && e.links == [] && Outer(e).links[1..] == [];
    assert IsEntity(e, floats);
    assert Members(e) == [Own(e.properties[0]), Own(e.properties[1])];
    NoneDeferred(Members(e));
  }

  lemma {:induction false} DatedIsNotAlike(schema: Schema)
    ensures !AlikeEntity(Dated(), Seen, schema)
  {
    LabelNames();
    var e := Dated();
    assert Members(e) == [Own(e.properties[0]), Own(e.properties[1])];
    assert "Id" != "Title" && Members(e)[1..] == [Own(e.properties[1])];
    assert Named(Members(e), "Id").Some? && Named(Members(e), "Title") == Some(Own(e.properties[1]));
    GetMember(e, Seen, "Title");
    GetMember(e, Verbose, "Title");
    assert Pick(e, Seen) == "Title" && Pick(e, Verbose) == "Title";
    assert e.properties[1].value.atom[0] != e.properties[1].value.json[0];
  }
}
