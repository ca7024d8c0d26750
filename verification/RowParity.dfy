/**
 * When the Atom and the verbose-JSON form of an entity are mapped to the same row
 * (src/spconnect/services/odata.py:651-715). `view` is the form that is compared with verbose JSON:
 * the same without annotations, or what the Atom form is read as.
 */
module RowParity {
  import opened Options
  import opened Atom
  import opened AtomParity
  import opened Rows
  import opened RowTheorems

  // ---- the members of an entity ----

  datatype Member = Own(property: Property) | Linked(link: Navigation)

  function Members(e: Entity): seq<Member> {
    seq(|e.properties|, i requires 0 <= i < |e.properties| => Own(e.properties[i]))
    + seq(|e.links|, i requires 0 <= i < |e.links| => Linked(e.links[i]))
  }

  function NameOf(m: Member): string {
    match m case Own(p) => p.name case Linked(l) => l.name
  }

  function ValueIn(m: Member, view: View): Value {
    match m
    case Own(p) => ScalarValue(p.value, view)
    case Linked(l) => TargetValue(l.target, l.href, view)
  }

  function ItemOf(m: Member, view: View): (string, Value) {
    (NameOf(m), ValueIn(m, view))
  }

  function Items(ms: seq<Member>, view: View): Row {
    if ms == [] then [] else [ItemOf(ms[0], view)] + Items(ms[1..], view)
  }

  function Annotation(view: View): Row {
    if view.Verbose? then [(METADATA, Dict([("type", Text("SP.Data"))]))] else []
  }

  lemma {:induction false} ItemsAt(ms: seq<Member>, view: View)
    ensures |Items(ms, view)| == |ms| && forall i :: 0 <= i < |ms| ==> Items(ms, view)[i] == ItemOf(ms[i], view)
  {
    if ms != [] {
      ItemsAt(ms[1..], view);
    }
  }

  lemma {:induction false} LinkItemsAt(links: seq<Navigation>, view: View)
    ensures |LinkItems(links, view)| == |links|
    ensures forall i :: 0 <= i < |links| ==> LinkItems(links, view)[i] == ItemOf(Linked(links[i]), view)
    decreases |links|
  {
    if links != [] {
      LinkItemsAt(links[1..], view);
    }
  }

  lemma {:induction false} JsonIsItems(e: Entity, view: View)
    ensures Json(e, view) == Annotation(view) + Items(Members(e), view)
  {
    ItemsAt(Members(e), view);
    LinkItemsAt(e.links, view);
    assert PropertyItems(e.properties, view) + LinkItems(e.links, view) == Items(Members(e), view);
  }

  /** The first member of a name. */
  function Named(ms: seq<Member>, k: string): Option<Member> {
    if ms == [] then None else if NameOf(ms[0]) == k then Some(ms[0]) else Named(ms[1..], k)
  }

  lemma {:induction false} GetItems(ms: seq<Member>, view: View, k: string)
    ensures Get(Items(ms, view), k) == if Named(ms, k).Some? then Some(ValueIn(Named(ms, k).value, view)) else None
  {
    if ms != [] {
      GetItems(ms[1..], view, k);
    }
  }

  lemma {:induction false} GetMember(e: Entity, view: View, k: string)
    requires k != METADATA
    ensures Get(Json(e, view), k) ==
            if Named(Members(e), k).Some? then Some(ValueIn(Named(Members(e), k).value, view)) else None
  {
    JsonIsItems(e, view);
    GetItems(Members(e), view, k);
    GetAppend(Annotation(view), Items(Members(e), view), k);
  }

  lemma NoMemberIsList(m: Member, view: View)
    ensures !ValueIn(m, view).List?
  {
  }

  // ---- members that are the same in both forms ----

  /** A link that carries nothing that could be annotated. */
  predicate IsPlain(target: Target) {
    target.Deferred? || (target.Many? && target.rows.entities == [] && target.rows.next.None?)
  }

  predicate IsClear(value: Scalar, view: View) {
    view.Seen? ==> IsLiteral(value)
  }

  predicate IsSame(m: Member, view: View) {
    match m case Own(p) => IsClear(p.value, view) case Linked(l) => IsPlain(l.target)
  }

  lemma ScalarSame(value: Scalar, view: View)
    requires !view.Verbose?
    ensures ScalarValue(value, view) == ScalarValue(value, Verbose) <==> IsClear(value, view)
  {
  }

  lemma {:induction false} LonelyRow(es: seq<Entity>, view: View)
    requires es != [] && !view.Verbose?
    ensures JsonRows(es, view) != JsonRows(es, Verbose)
  {
    JsonIsItems(es[0], view);
    JsonIsItems(es[0], Verbose);
    ItemsAt(Members(es[0]), view);
    ItemsAt(Members(es[0]), Verbose);
    assert |Json(es[0], view)| != |Json(es[0], Verbose)|;
    assert JsonRows(es, view)[0] == Dict(Json(es[0], view)) && JsonRows(es, Verbose)[0] == Dict(Json(es[0], Verbose));
  }

  lemma {:induction false} TargetSame(target: Target, href: string, view: View)
    requires !view.Verbose?
    ensures TargetValue(target, href, view) == TargetValue(target, href, Verbose) <==> IsPlain(target)
  {
    match target
    case Deferred =>
    case One(e) =>
      LonelyRow([e], view);
      assert JsonRows([e], view) == [Dict(Json(e, view))] && JsonRows([e], Verbose) == [Dict(Json(e, Verbose))];
    case Many(rows) =>
      if rows.entities != [] {
        LonelyRow(rows.entities, view);
      }
      ManyItems(target, href, view);
      ManyItems(target, href, Verbose);
  }

  lemma {:induction false} ManyItems(target: Target, href: string, view: View)
    requires target.Many?
    ensures TargetValue(target, href, view).Dict?
    ensures var items := TargetValue(target, href, view).items;
      && |items| == (if view.Verbose? && target.rows.next.Some? then 2 else 1)
      && items[0] == ("results", List(JsonRows(target.rows.entities, view)))
  {
  }

  lemma SameExactly(m: Member, view: View)
    requires !view.Verbose?
    ensures ValueIn(m, view) == ValueIn(m, Verbose) <==> IsSame(m, view)
  {
    match m
    case Own(p) => ScalarSame(p.value, view);
    case Linked(l) => TargetSame(l.target, l.href, view);
  }

  /** The member of this name, if there is one, is the same in both forms. */
  predicate Steady(e: Entity, k: string, view: View) {
    Named(Members(e), k).Some? ==> IsSame(Named(Members(e), k).value, view)
  }

  function Valued(e: Entity, k: string, view: View): Value {
    OrNull(Get(Json(e, view), k))
  }

  lemma {:induction false} SteadyExactly(e: Entity, k: string, view: View)
    requires !view.Verbose? && k != METADATA
    ensures Valued(e, k, view) == Valued(e, k, Verbose) <==> Steady(e, k, view)
    ensures Get(Json(e, view), k).Some? <==> Get(Json(e, Verbose), k).Some?
  {
    GetMember(e, view, k);
    GetMember(e, Verbose, k);
    if Named(Members(e), k).Some? {
      SameExactly(Named(Members(e), k).value, view);
    }
  }

  // ---- the label of an inlined entity ----

  /** Which member the label is taken from. */
  function Pick(e: Entity, view: View): string {
    if Truthy(Valued(e, "Title", view)) then "Title" else if Truthy(Valued(e, "Value", view)) then "Value" else "Name"
  }

  function LabelIn(e: Entity, view: View): Value {
    Or(Or(Valued(e, "Title", view), Valued(e, "Value", view)), Valued(e, "Name", view))
  }

  /** A collection of values without values, and a collection of rows without rows. */
  predicate HasNoItems(e: Entity, k: string) {
    var m := Named(Members(e), k); m.Some? && m.value.Own? && m.value.property.value == Several([])
  }

  predicate HasNoRows(e: Entity, k: string) {
    var m := Named(Members(e), k); m.Some? && m.value.Linked? && m.value.link.target.Many?
                                   && m.value.link.target.rows.entities == []
  }

  predicate HasNoMembers(e: Entity, k: string) {
    var m := Named(Members(e), k); m.Some? && m.value.Linked? && m.value.link.target.One?
                                   && Members(m.value.link.target.entity) == []
  }

  /** The label is taken from the same member, and that is the same; or from an empty collection of
      values in the one form, and from an empty collection of rows in the other. */
  predicate LabelAlike(e: Entity, view: View) {
    var a, b := Pick(e, Verbose), Pick(e, view);
    if a == b then Steady(e, a, view) else HasNoItems(e, a) && HasNoRows(e, b)
  }

  lemma LabelNames()
    ensures "Id" != METADATA && "Title" != METADATA && "Value" != METADATA && "Name" != METADATA
    ensures "results" != METADATA && "__deferred" != METADATA
    ensures !IsControl("Id") && !IsControl("Title") && !IsControl("Value") && !IsControl("Name")
  {
    assert METADATA[0] == '_' && "Id"[0] == 'I' && "Title"[0] == 'T' && "Value"[0] == 'V' && "Name"[0] == 'N';
    assert "results"[0] == 'r' && METADATA[2] == 'm' && "__deferred"[2] == 'd';
    assert "__deferred"[0] == '_' && "__next"[0] == '_' && "__count"[0] == '_';
  }

  /** A member that is falsy in verbose JSON is the same in the other form. */
  lemma FalsyIsSteady(e: Entity, k: string, view: View)
    requires !view.Verbose? && k != METADATA && !Truthy(Valued(e, k, Verbose))
    ensures Steady(e, k, view)
  {
    GetMember(e, Verbose, k);
    var m := Named(Members(e), k);
    if m.Some? {
      VerboseLinkIsTruthy(m.value);
    }
  }

  lemma VerboseLinkIsTruthy(m: Member)
    ensures m.Linked? ==> Truthy(ValueIn(m, Verbose))
    ensures m.Own? && m.property.value.Several? ==> Truthy(ValueIn(m, Verbose))
  {
    if m.Linked? && m.link.target.One? {
      assert Json(m.link.target.entity, Verbose)[0].0 == METADATA;
    }
  }

  lemma EmptyResults()
    ensures ScalarValue(Several([]), Verbose) == Results([])
  {
    var items: seq<string> := [];
    assert seq(|items|, i requires 0 <= i < |items| => Text(items[i])) == [];
  }

  /** One that is truthy in verbose JSON only is an empty collection of values, which the Atom form
      reads as an empty text, or an inlined entity without members. */
  lemma TruthyInVerboseOnly(e: Entity, k: string, view: View)
    requires !view.Verbose? && k != METADATA
    requires Truthy(Valued(e, k, Verbose)) && !Truthy(Valued(e, k, view))
    ensures if view.Seen? && HasNoItems(e, k) then Valued(e, k, Verbose) == Results([])
            else HasNoMembers(e, k) && !HasNoItems(e, k) && Valued(e, k, Verbose) == Dict(Annotation(Verbose))
  {
    GetMember(e, Verbose, k);
    GetMember(e, view, k);
    var m := Named(Members(e), k).value;
    match m
    case Own(p) =>
      ScalarSame(p.value, view);
      EmptyResults();
    case Linked(l) =>
      if l.target.One? {
        NoItemsNoMembers(l.target.entity, view);
      } else if l.target.Many? {
        ManyItems(l.target, l.href, view);
      }
  }

  lemma {:induction false} NoItemsNoMembers(x: Entity, view: View)
    requires Json(x, view) == [] && !view.Verbose?
    ensures Members(x) == [] && Json(x, Verbose) == Annotation(Verbose)
  {
    JsonIsItems(x, view);
    JsonIsItems(x, Verbose);
    ItemsAt(Members(x), view);
    assert Annotation(Verbose) + Items(Members(x), Verbose) == Annotation(Verbose);
  }

  lemma IsResults(e: Entity, k: string, view: View)
    requires view.Seen? && k != METADATA
    ensures Valued(e, k, view) == Results([]) <==> HasNoRows(e, k)
  {
    GetMember(e, view, k);
    var m := Named(Members(e), k);
    if m.Some? && m.value.Linked? {
      var target, href := m.value.link.target, m.value.link.href;
      match target
      case Deferred => assert "__deferred"[0] != "results"[0];
      case One(x) => EntityIsNoResults(x, view);
      case Many(rows) => ManyIsResults(target, href, view);
    } else if m.Some? {
      ScalarIsNoResults(m.value.property.value, view);
    }
  }

  lemma ScalarIsNoResults(value: Scalar, view: View)
    requires view.Seen?
    ensures ScalarValue(value, view) != Results([])
  {
    if value.Several? && value.items != [] {
      assert |ScalarValue(value, view).items[0].1.values| == |value.items|;
    }
  }

  lemma {:induction false} EntityIsNoResults(x: Entity, view: View)
    requires !view.Verbose?
    ensures Dict(Json(x, view)) != Results([])
  {
    NoListInside(x, view);
    assert |Json(x, view)| > 0 ==> !Json(x, view)[0].1.List?;
    assert Results([]).items[0].1.List?;
  }

  lemma {:induction false} ManyIsResults(target: Target, href: string, view: View)
    requires target.Many? && !view.Verbose?
    ensures TargetValue(target, href, view) == Results([]) <==> target.rows.entities == []
  {
    ManyItems(target, href, view);
    var items := TargetValue(target, href, view).items;
    assert items == [items[0]];
    assert Results([]).items[0].1.values == [];
  }

  lemma {:induction false} NoListInside(x: Entity, view: View)
    requires !view.Verbose?
    ensures forall i :: 0 <= i < |Json(x, view)| ==> !Json(x, view)[i].1.List?
  {
    JsonIsItems(x, view);
    ItemsAt(Members(x), view);
    forall i | 0 <= i < |Json(x, view)| ensures !Json(x, view)[i].1.List? {
      NoMemberIsList(Members(x)[i], view);
    }
  }

  /** No entity that is inlined in this one has a member of the name the annotations go by: a
      dictionary has each key once. */
  ghost predicate IsKeyed(e: Entity) {
    AreKeyed(e.links)
  }

  ghost predicate AreKeyed(links: seq<Navigation>) {
    links == [] || (TargetIsKeyed(links[0].target) && AreKeyed(links[1..]))
  }

  ghost predicate TargetIsKeyed(target: Target) {
    match target
    case Deferred => true
    case One(e) => METADATA !in Names(e) && IsKeyed(e)
    case Many(rows) => RowsAreKeyed(rows.entities)
  }

  ghost predicate RowsAreKeyed(es: seq<Entity>) {
    es == [] || (METADATA !in Names(es[0]) && IsKeyed(es[0]) && RowsAreKeyed(es[1..]))
  }

  lemma {:induction false} KeyedAt(links: seq<Navigation>, i: nat)
    requires AreKeyed(links) && i < |links|
    ensures TargetIsKeyed(links[i].target)
    decreases |links|
  {
    if i > 0 {
      KeyedAt(links[1..], i - 1);
    }
  }

  lemma {:induction false} NamedIsMember(ms: seq<Member>, k: string) returns (i: nat)
    requires Named(ms, k).Some?
    ensures i < |ms| && ms[i] == Named(ms, k).value && NameOf(ms[i]) == k
  {
    if NameOf(ms[0]) == k {
      i := 0;
    } else {
      i := NamedIsMember(ms[1..], k);
      i := i + 1;
    }
  }

  lemma {:induction false} IsNoAnnotation(e: Entity, k: string, view: View)
    requires !view.Verbose? && k != METADATA && IsKeyed(e)
    ensures Valued(e, k, view) != Dict(Annotation(Verbose))
  {
    GetMember(e, view, k);
    var m := Named(Members(e), k);
    if m.Some? && m.value.Linked? {
      var target := m.value.link.target;
      var i := NamedIsMember(Members(e), k);
      KeyedAt(e.links, i - |e.properties|);
      LabelNames();
      match target
      case Deferred => assert TargetValue(target, m.value.link.href, view).items[0].0 == "__deferred";
      case One(x) => NoAnnotationInside(x, view);
      case Many(rows) => ManyItems(target, m.value.link.href, view);
    } else if m.Some? {
      LabelNames();
      assert m.value.property.value.Several? && ScalarValue(m.value.property.value, view).Dict? ==>
        ScalarValue(m.value.property.value, view).items[0].0 == "results";
    }
  }

  lemma {:induction false} NoAnnotationInside(x: Entity, view: View)
    requires !view.Verbose? && METADATA !in Names(x)
    ensures Json(x, view) != Annotation(Verbose)
  {
    JsonIsItems(x, view);
    ItemsAt(Members(x), view);
    if Members(x) != [] {
      assert NameOf(Members(x)[0]) == Names(x)[0];
      assert Json(x, view)[0].0 == NameOf(Members(x)[0]);
    }
  }

  /** The label of an inlined entity is the same in both forms exactly so. */
  lemma {:induction false} LabelExactly(e: Entity, view: View)
    requires !view.Verbose? && IsKeyed(e)
    ensures LabelIn(e, view) == LabelIn(e, Verbose) <==> LabelAlike(e, view)
  {
    LabelNames();
    var a, b := Pick(e, Verbose), Pick(e, view);
    assert LabelIn(e, Verbose) == Valued(e, a, Verbose) && LabelIn(e, view) == Valued(e, b, view);
    SteadyExactly(e, a, view);
    if a != b {
      PickedInVerbose(e, view);
      TruthyInVerboseOnly(e, a, view);
      if view.Seen? {
        IsResults(e, b, view);
      }
      IsNoAnnotation(e, b, view);
      if !view.Seen? && HasNoItems(e, a) {
        GetMember(e, view, a);
      }
    }
  }

  /** What is picked in verbose JSON alone is truthy there alone. */
  lemma PickedInVerbose(e: Entity, view: View)
    requires !view.Verbose? && Pick(e, Verbose) != Pick(e, view)
    ensures Truthy(Valued(e, Pick(e, Verbose), Verbose)) && !Truthy(Valued(e, Pick(e, Verbose), view))
  {
    LabelNames();
    if !Truthy(Valued(e, "Title", Verbose)) {
      FalsyIsSteady(e, "Title", view);
      SteadyExactly(e, "Title", view);
      if !Truthy(Valued(e, "Value", Verbose)) {
        FalsyIsSteady(e, "Value", view);
        SteadyExactly(e, "Value", view);
      }
    }
  }

  // ---- converted values ----

  /** Two texts of one date: read to one moment, or no dates at all and the same. */
  predicate ReadAlike(a: string, b: string, schema: Schema) {
    schema.moments(a) == schema.moments(b) && (schema.moments(a).None? ==> a == b)
  }

  predicate ConvertsAlike(value: Scalar, view: View, schema: Schema) {
    view.Seen? ==> value != Several([]) && (value.Stamp? ==> ReadAlike(value.atom, value.json, schema))
  }

  /** Which values are converted alike from both forms: an inlined entity with an id, when its id is
      the same and its label alike, for these are taken as they are sent; one without, when every
      member is converted alike. */
  ghost predicate AlikeEntity(e: Entity, view: View, schema: Schema) {
    if Named(Members(e), "Id").Some? then Steady(e, "Id", view) && LabelAlike(e, view)
    else OwnAlike(e.properties, view, schema) && LinksAlike(e.links, view, schema)
  }

  ghost predicate OwnAlike(ps: seq<Property>, view: View, schema: Schema) {
    forall i :: 0 <= i < |ps| ==> IsControl(ps[i].name) || ConvertsAlike(ps[i].value, view, schema)
  }

  ghost predicate LinksAlike(links: seq<Navigation>, view: View, schema: Schema) {
    links == [] || ((IsControl(links[0].name) || AlikeTarget(links[0].target, view, schema))
                    && LinksAlike(links[1..], view, schema))
  }

  ghost predicate AlikeTarget(target: Target, view: View, schema: Schema) {
    match target
    case Deferred => true
    case One(e) => AlikeEntity(e, view, schema)
    case Many(rows) => RowsAlike(rows.entities, view, schema)
  }

  ghost predicate RowsAlike(es: seq<Entity>, view: View, schema: Schema) {
    es == [] || (AlikeEntity(es[0], view, schema) && RowsAlike(es[1..], view, schema))
  }

  lemma {:induction false} ConvertDict(items: Row, schema: Schema)
    ensures Convert(Dict(items), schema) ==
            var results, inner := Get(items, "results"), WithoutControl(items);
            if results.Some? && results.value.List? then List(ConvertAll(results.value.values, schema))
            else if Get(inner, "Id").Some? then AsLookup(inner)
            else Dict(ConvertRow(items, schema))
  {
  }

  lemma {:induction false} GetWithoutControl(row: Row, k: string)
    requires !IsControl(k)
    ensures Get(WithoutControl(row), k) == Get(row, k)
  {
    if row != [] {
      GetWithoutControl(row[1..], k);
      GetAppend(if IsControl(row[0].0) then [] else [row[0]], WithoutControl(row[1..]), k);
    }
  }

  /** An entity is never taken for a collection; with an id it is a lookup. */
  lemma {:induction false} ConvertEntity(e: Entity, view: View, schema: Schema)
    ensures Convert(Dict(Json(e, view)), schema) ==
            if Named(Members(e), "Id").Some? then Dict([("id", Valued(e, "Id", view)), ("value", LabelIn(e, view))])
            else Dict(ConvertRow(Json(e, view), schema))
  {
    LabelNames();
    var items := Json(e, view);
    GetMember(e, view, "results");
    GetMember(e, view, "Id");
    if Named(Members(e), "results").Some? {
      NoMemberIsList(Named(Members(e), "results").value, view);
    }
    GetWithoutControl(items, "Id");
    GetWithoutControl(items, "Title");
    GetWithoutControl(items, "Value");
    GetWithoutControl(items, "Name");
    ConvertDict(items, schema);
  }

  lemma {:induction false} ConvertRowAppend(a: Row, b: Row, schema: Schema)
    ensures ConvertRow(a + b, schema) == ConvertRow(a, schema) + ConvertRow(b, schema)
    decreases |a|
  {
    if a == [] {
      assert a + b == b;
    } else {
      assert (a + b)[1..] == a[1..] + b;
      ConvertRowAppend(a[1..], b, schema);
    }
  }

  /** Annotations are dropped. */
  lemma {:induction false} ConvertedRow(e: Entity, view: View, schema: Schema)
    ensures ConvertRow(Json(e, view), schema) ==
            ConvertRow(PropertyItems(e.properties, view), schema) + ConvertRow(LinkItems(e.links, view), schema)
  {
    var a, p, l := Annotation(view), PropertyItems(e.properties, view), LinkItems(e.links, view);
    ConvertRowAppend(a + p, l, schema);
    ConvertRowAppend(a, p, schema);
    assert ConvertRow(a, schema) == [];
  }

  lemma {:induction false} ScalarConverted(value: Scalar, view: View, schema: Schema)
    requires !view.Verbose?
    ensures Convert(ScalarValue(value, view), schema) == Convert(ScalarValue(value, Verbose), schema) <==>
            ConvertsAlike(value, view, schema)
    ensures view.Seen? && value == Several([]) ==>
      Convert(ScalarValue(value, Verbose), schema) == List([]) && !Convert(ScalarValue(value, view), schema).List?
      && !Convert(ScalarValue(value, view), schema).Dict?
  {
    ScalarSame(value, view);
    if view.Seen? && value == Several([]) {
      EmptyResults();
      ConvertDict([("results", List([]))], schema);
    }
  }

  lemma {:induction false} ConvertRowFirst(row: Row, schema: Schema)
    requires row != []
    ensures ConvertRow(row, schema) ==
            if IsControl(row[0].0) then ConvertRow(row[1..], schema)
            else [ConvertItem(row[0], schema)] + ConvertRow(row[1..], schema)
  {
  }

  /** Two rows that start with items of one name are converted alike when their items and what
      follows are. */
  lemma {:induction false} ConvertedSame(a: Row, b: Row, schema: Schema)
    requires a != [] && b != [] && a[0].0 == b[0].0
    requires |ConvertRow(a[1..], schema)| == |ConvertRow(b[1..], schema)|
    ensures |ConvertRow(a, schema)| == |ConvertRow(b, schema)|
    ensures ConvertRow(a, schema) == ConvertRow(b, schema) <==>
            && (IsControl(a[0].0) || Convert(a[0].1, schema) == Convert(b[0].1, schema))
            && ConvertRow(a[1..], schema) == ConvertRow(b[1..], schema)
  {
    ConvertRowFirst(a, schema);
    ConvertRowFirst(b, schema);
    SameParts([ConvertItem(a[0], schema)], ConvertRow(a[1..], schema),
              [ConvertItem(b[0], schema)], ConvertRow(b[1..], schema));
    assert [ConvertItem(a[0], schema)][0].1 == Convert(a[0].1, schema);
    assert [ConvertItem(b[0], schema)][0].1 == Convert(b[0].1, schema);
  }

  lemma {:induction false} OwnExactly(ps: seq<Property>, view: View, schema: Schema)
    requires !view.Verbose?
    ensures var a, b := ConvertRow(PropertyItems(ps, view), schema), ConvertRow(PropertyItems(ps, Verbose), schema);
      |a| == |b| && (a == b <==> OwnAlike(ps, view, schema))
    decreases |ps|
  {
    if ps != [] {
      var a, b := PropertyItems(ps, view), PropertyItems(ps, Verbose);
      assert a[1..] == PropertyItems(ps[1..], view) && b[1..] == PropertyItems(ps[1..], Verbose);
      OwnExactly(ps[1..], view, schema);
      ScalarConverted(ps[0].value, view, schema);
      ConvertedSame(a, b, schema);
      OwnAlikeFirst(ps, view, schema);
    }
  }

  lemma OwnAlikeFirst(ps: seq<Property>, view: View, schema: Schema)
    requires ps != []
    ensures OwnAlike(ps, view, schema) <==>
            (IsControl(ps[0].name) || ConvertsAlike(ps[0].value, view, schema)) && OwnAlike(ps[1..], view, schema)
  {
    if OwnAlike(ps[1..], view, schema) {
      forall i | 0 < i < |ps| ensures IsControl(ps[i].name) || ConvertsAlike(ps[i].value, view, schema) {
        assert ps[i] == ps[1..][i - 1];
      }
    }
  }

  lemma {:induction false} LinksExactly(links: seq<Navigation>, view: View, schema: Schema)
    requires !view.Verbose? && AreKeyed(links)
    ensures var a, b := ConvertRow(LinkItems(links, view), schema), ConvertRow(LinkItems(links, Verbose), schema);
      |a| == |b| && (a == b <==> LinksAlike(links, view, schema))
    decreases links
  {
    if links != [] {
      var a, b := LinkItems(links, view), LinkItems(links, Verbose);
      assert a[1..] == LinkItems(links[1..], view) && b[1..] == LinkItems(links[1..], Verbose);
      LinksExactly(links[1..], view, schema);
      TargetExactly(links[0], view, schema);
      ConvertedSame(a, b, schema);
    }
  }

  lemma {:induction false} TargetExactly(link: Navigation, view: View, schema: Schema)
    requires !view.Verbose? && TargetIsKeyed(link.target)
    ensures (Convert(TargetValue(link.target, link.href, view), schema) ==
             Convert(TargetValue(link.target, link.href, Verbose), schema)) <==> AlikeTarget(link.target, view, schema)
    decreases link
  {
    match link.target
    case Deferred =>
    case One(e) => EntityExactly(e, view, schema);
    case Many(rows) =>
      RowsExactly(rows.entities, view, schema);
      ManyConverted(link.target, link.href, view, schema);
      ManyConverted(link.target, link.href, Verbose, schema);
  }

  /** A next link beside the rows is no part of them. */
  lemma {:induction false} ManyConverted(target: Target, href: string, view: View, schema: Schema)
    requires target.Many?
    ensures Convert(TargetValue(target, href, view), schema) ==
            List(ConvertAll(JsonRows(target.rows.entities, view), schema))
  {
    ManyItems(target, href, view);
    ConvertDict(TargetValue(target, href, view).items, schema);
  }

  lemma {:induction false} RowsExactly(es: seq<Entity>, view: View, schema: Schema)
    requires !view.Verbose? && RowsAreKeyed(es)
    ensures var a, b := ConvertAll(JsonRows(es, view), schema), ConvertAll(JsonRows(es, Verbose), schema);
      |a| == |b| && (a == b <==> RowsAlike(es, view, schema))
    decreases es
  {
    if es != [] {
      EntityExactly(es[0], view, schema);
      RowsExactly(es[1..], view, schema);
      SameParts([Convert(Dict(Json(es[0], view)), schema)], ConvertAll(JsonRows(es[1..], view), schema),
                [Convert(Dict(Json(es[0], Verbose)), schema)], ConvertAll(JsonRows(es[1..], Verbose), schema));
    }
  }

  /** An inlined entity, at any depth, is converted to the same value from both forms exactly so. */
  lemma {:induction false} EntityExactly(e: Entity, view: View, schema: Schema)
    requires !view.Verbose? && IsKeyed(e)
    ensures Convert(Dict(Json(e, view)), schema) == Convert(Dict(Json(e, Verbose)), schema) <==>
            AlikeEntity(e, view, schema)
    decreases e
  {
    ConvertEntity(e, view, schema);
    ConvertEntity(e, Verbose, schema);
    if Named(Members(e), "Id").Some? {
      LookupExactly(e, view);
    } else {
      ConvertedRow(e, view, schema);
      ConvertedRow(e, Verbose, schema);
      OwnExactly(e.properties, view, schema);
      LinksExactly(e.links, view, schema);
      SameParts(ConvertRow(PropertyItems(e.properties, view), schema), ConvertRow(LinkItems(e.links, view), schema),
                ConvertRow(PropertyItems(e.properties, Verbose), schema),
                ConvertRow(LinkItems(e.links, Verbose), schema));
    }
  }

  lemma {:induction false} LookupExactly(e: Entity, view: View)
    requires !view.Verbose? && IsKeyed(e)
    ensures var a := Dict([("id", Valued(e, "Id", view)), ("value", LabelIn(e, view))]);
      var b := Dict([("id", Valued(e, "Id", Verbose)), ("value", LabelIn(e, Verbose))]);
      a == b <==> Steady(e, "Id", view) && LabelAlike(e, view)
  {
    LabelNames();
    SteadyExactly(e, "Id", view);
    LabelExactly(e, view);
    var a := [("id", Valued(e, "Id", view)), ("value", LabelIn(e, view))];
    var b := [("id", Valued(e, "Id", Verbose)), ("value", LabelIn(e, Verbose))];
    assert a == b ==> a[0].1 == b[0].1 && a[1].1 == b[1].1;
  }
}
