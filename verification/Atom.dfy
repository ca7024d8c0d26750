/**
 * Reading the Atom form of an entity as the dictionary its JSON form would have given
 * (src/spconnect/services/odata.py:93-218), from parsed elements on.
 */
module Atom {
  import opened Options
  import opened Codecs

  // ---- elements and values ----

  datatype Space = AtomSpace | DataSpace | MetaSpace | OtherSpace

  datatype Tag = Tag(space: Space, local: string)

  const ENTRY := Tag(AtomSpace, "entry")
  const FEED := Tag(AtomSpace, "feed")
  const LINK := Tag(AtomSpace, "link")
  const CONTENT := Tag(AtomSpace, "content")
  const PROPERTIES := Tag(MetaSpace, "properties")
  const INLINE := Tag(MetaSpace, "inline")

  const TYPE := "m:type"
  const NULL := "m:null"
  const REL := "rel"
  const HREF := "href"

  datatype Element = Element(tag: Tag, attributes: map<string, string>, text: string, children: seq<Element>)
  {
    /** `el.get(name) or ""`. */
    function Get(name: string): string {
      if name in attributes then attributes[name] else ""
    }
  }

  datatype Value = Null | Bool(b: bool) | Int(n: int) | Float(x: real) | Moment(at: int) | Text(s: string)
                 | List(values: seq<Value>) | Dict(items: Row)

  /** A dictionary, in the order its keys were first set. */
  type Row = seq<(string, Value)>

  /** Python's `float(text)`, where it does not raise. */
  type Floats = string -> Option<real>

  function Put(row: Row, key: string, value: Value): Row {
    if row == [] then [(key, value)]
    else if row[0].0 == key then [(key, value)] + row[1..]
    else [row[0]] + Put(row[1..], key, value)
  }

  function Keys(row: Row): seq<string> {
    seq(|row|, i requires 0 <= i < |row| => row[i].0)
  }

  // ---- the reader ----

  /** `find`: the first direct child with a tag. */
  function Find(children: seq<Element>, tag: Tag): (found: Option<Element>)
    ensures found.Some? ==> found.value in children && found.value.tag == tag
  {
    if children == [] then None
    else if children[0].tag == tag then Some(children[0])
    else Find(children[1..], tag)
  }

  function Lower(s: string): string {
    seq(|s|, i requires 0 <= i < |s| => if 'A' <= s[i] <= 'Z' then s[i] - 'A' + 'a' else s[i])
  }

  predicate SaysTrue(s: string) {
    Lower(Strip(s)) == "true"
  }

  const BOOLEAN := "Edm.Boolean"

  predicate IsIntType(edm: string) {
    edm == "Edm.Int16" || edm == "Edm.Int32" || edm == "Edm.Byte" || edm == "Edm.SByte"
  }

  predicate IsFloatType(edm: string) {
    edm == "Edm.Double" || edm == "Edm.Single"
  }

  predicate IsDateType(edm: string) {
    edm == "Edm.DateTime" || edm == "Edm.DateTimeOffset"
  }

  function Texts(children: seq<Element>): seq<Value> {
    seq(|children|, i requires 0 <= i < |children| => Text(children[i].text))
  }

  function Results(values: seq<Value>): Value {
    Dict([("results", List(values))])
  }

  /** `parse_atom_value`. */
  function ReadValue(el: Element, floats: Floats): Value {
    if SaysTrue(el.Get(NULL)) then Null
    else if el.children != [] then Results(Texts(el.children))
    else
      var edm := el.Get(TYPE);
      if edm == BOOLEAN then Bool(SaysTrue(el.text))
      else if IsIntType(edm) then
        var n := ReadInt(Strip(el.text));
        if n.Some? then Int(n.value) else Text(el.text)
      else if IsFloatType(edm) then
        var x := floats(Strip(el.text));
        if x.Some? then Float(x.value) else Text(el.text)
      else Text(el.text)
  }

  /** `_own_properties`: under `content`, or beside it for a media entry. */
  function OwnProperties(entry: Element): (found: Option<Element>) {
    var content := Find(entry.children, CONTENT);
    if content.Some? && Find(content.value.children, PROPERTIES).Some? then
      Find(content.value.children, PROPERTIES)
    else Find(entry.children, PROPERTIES)
  }

  function ReadProperties(children: seq<Element>, row: Row, floats: Floats): Row {
    if children == [] then row
    else ReadProperties(children[1..], Put(row, children[0].tag.local, ReadValue(children[0], floats)), floats)
  }

  const RELATED := "/related/"

  /** What follows the last `/related/`, if there is one. */
  function Related(rel: string): Option<string> {
    if rel == "" then None else
      var later := Related(rel[1..]);
      if later.Some? then later
      else if RELATED <= rel then Some(rel[|RELATED|..])
      else None
  }

  /** `atom_entry_to_dict`. */
  function ReadEntry(entry: Element, floats: Floats): Row {
    var own := OwnProperties(entry);
    ReadLinks(entry.children, if own.Some? then ReadProperties(own.value.children, [], floats) else [], floats)
  }

  function ReadLinks(children: seq<Element>, row: Row, floats: Floats): Row {
    if children == [] then row else
      var name := Related(children[0].Get(REL));
      var value := if children[0].tag == LINK && name.Some? && name.value != "" then ReadTarget(children[0], floats)
                   else None;
      ReadLinks(children[1..], if value.Some? then Put(row, name.value, value.value) else row, floats)
  }

  /** What one navigation link leads to; an inline part that holds neither feed nor entry leaves
      no key behind. */
  function ReadTarget(link: Element, floats: Floats): Option<Value> {
    var inline := Find(link.children, INLINE);
    if inline.None? then Some(Dict([("__deferred", Dict([("uri", Text(link.Get(HREF)))]))])) else
      var feed := Find(inline.value.children, FEED);
      if feed.Some? then Some(Results(ReadEntries(feed.value.children, floats))) else
        var entry := Find(inline.value.children, ENTRY);
        if entry.Some? then Some(Dict(ReadEntry(entry.value, floats))) else None
  }

  function ReadEntries(children: seq<Element>, floats: Floats): seq<Value> {
    if children == [] then []
    else (if children[0].tag == ENTRY then [Dict(ReadEntry(children[0], floats))] else [])
         + ReadEntries(children[1..], floats)
  }

  function NextLink(children: seq<Element>): Option<string> {
    if children == [] then None
    else if children[0].tag == LINK && children[0].Get(REL) == "next" then
      if HREF in children[0].attributes then Some(children[0].attributes[HREF]) else None
    else NextLink(children[1..])
  }

  /** `parse_atom_feed`. */
  function ReadFeed(feed: Element, floats: Floats): (seq<Value>, Option<string>) {
    (ReadEntries(feed.children, floats), NextLink(feed.children))
  }

  // ---- entities ----

  /** A date that is no null has a text. */
  type DateText = s: string | s != "" witness "-"

  /** A date is written differently in the two forms: `2009-03-14T08:11:00` in Atom,
      `/Date(1237018260000)/` in JSON. */
  datatype Scalar = Absent(edm: string) | Plain(edm: string, text: string) | Whole(edm: string, n: int)
                  | Truth(b: bool) | Measure(edm: string, text: string, x: real) | Several(items: seq<string>)
                  | Stamp(edm: string, atom: DateText, json: DateText)

  datatype Property = Property(name: string, value: Scalar)

  /** `others` is whatever else the entry or the feed carries. */
  datatype Entity = Entity(media: bool, others: seq<Element>, properties: seq<Property>, links: seq<Navigation>)

  datatype Collection = Collection(others: seq<Element>, entities: seq<Entity>, next: Option<string>)

  datatype Navigation = Navigation(name: string, href: string, target: Target)

  datatype Target = Deferred | One(entity: Entity) | Many(rows: Collection)

  predicate IsScalar(value: Scalar, floats: Floats) {
    match value
    case Plain(edm, _) => edm != BOOLEAN && !IsIntType(edm) && !IsFloatType(edm) && !IsDateType(edm)
    case Stamp(edm, _, _) => IsDateType(edm)
    case Whole(edm, _) => IsIntType(edm)
    case Measure(edm, text, x) => IsFloatType(edm) && floats(Strip(text)) == Some(x)
    case _ => true
  }

  ghost predicate Distinct(names: seq<string>) {
    forall i, j :: 0 <= i < j < |names| ==> names[i] != names[j]
  }

  function PropertyNames(ps: seq<Property>): seq<string> {
    seq(|ps|, i requires 0 <= i < |ps| => ps[i].name)
  }

  function LinkNames(links: seq<Navigation>): seq<string> {
    seq(|links|, i requires 0 <= i < |links| => links[i].name)
  }

  function Names(e: Entity): seq<string> {
    PropertyNames(e.properties) + LinkNames(e.links)
  }

  /** What an XML name can be at the end of a link relation. */
  predicate IsName(name: string) {
    name != "" && '/' !in name
  }

  /** An element that says nothing about an entry. */
  predicate IsAside(el: Element) {
    el.tag != CONTENT && el.tag != PROPERTIES && (el.tag == LINK ==> Related(el.Get(REL)).None?)
  }

  predicate IsAsideOfFeed(el: Element) {
    el.tag != ENTRY && (el.tag == LINK ==> el.Get(REL) != "next")
  }

  /** What an OData service sends: names are distinct, values have the type they claim. */
  ghost predicate IsEntity(e: Entity, floats: Floats) {
    && Distinct(Names(e))
    && (forall i :: 0 <= i < |e.properties| ==> IsScalar(e.properties[i].value, floats))
    && (forall i :: 0 <= i < |e.others| ==> IsAside(e.others[i]))
    && AreLinks(e.links, floats)
  }

  ghost predicate AreLinks(links: seq<Navigation>, floats: Floats) {
    links == [] || (IsName(links[0].name) && IsTarget(links[0].target, floats) && AreLinks(links[1..], floats))
  }

  ghost predicate IsTarget(target: Target, floats: Floats) {
    match target
    case Deferred => true
    case One(e) => IsEntity(e, floats)
    case Many(rows) => IsCollection(rows, floats)
  }

  ghost predicate IsCollection(rows: Collection, floats: Floats) {
    (forall i :: 0 <= i < |rows.others| ==> IsAsideOfFeed(rows.others[i])) && AreEntities(rows.entities, floats)
  }

  ghost predicate AreEntities(es: seq<Entity>, floats: Floats) {
    es == [] || (IsEntity(es[0], floats) && AreEntities(es[1..], floats))
  }

  // ---- the Atom form ----

  function AtomItem(text: string): Element {
    Element(Tag(DataSpace, "element"), map[], text, [])
  }

  function AtomProperty(p: Property): Element {
    var tag := Tag(DataSpace, p.name);
    match p.value
    case Absent(edm) => Element(tag, map[TYPE := edm, NULL := "true"], "", [])
    case Plain(edm, text) => Element(tag, map[TYPE := edm], text, [])
    case Whole(edm, n) => Element(tag, map[TYPE := edm], Print(n), [])
    case Truth(b) => Element(tag, map[TYPE := BOOLEAN], if b then "true" else "false", [])
    case Measure(edm, text, _) => Element(tag, map[TYPE := edm], text, [])
    case Stamp(edm, atom, _) => Element(tag, map[TYPE := edm], atom, [])
    case Several(items) => Element(tag, map[], "", seq(|items|, i requires 0 <= i < |items| => AtomItem(items[i])))
  }

  function AtomProperties(ps: seq<Property>): seq<Element> {
    seq(|ps|, i requires 0 <= i < |ps| => AtomProperty(ps[i]))
  }

  function AtomBody(e: Entity): seq<Element> {
    var properties := Element(PROPERTIES, map[], "", AtomProperties(e.properties));
    if e.media then [Element(CONTENT, map[], "", []), properties]
    else [Element(CONTENT, map[], "", [properties])]
  }

  function AtomEntry(e: Entity): Element {
    Element(ENTRY, map[], "", e.others + (AtomBody(e) + AtomLinks(e.links)))
  }

  const REL_BASE := "http://schemas.microsoft.com/ado/2007/08/dataservices"

  function AtomLinks(links: seq<Navigation>): seq<Element> {
    if links == [] then [] else
      [Element(LINK, map[REL := REL_BASE + RELATED + links[0].name, HREF := links[0].href], "",
               AtomTarget(links[0].target))] + AtomLinks(links[1..])
  }

  function AtomTarget(target: Target): seq<Element> {
    match target
    case Deferred => []
    case One(e) => [Element(INLINE, map[], "", [AtomEntry(e)])]
    case Many(rows) => [Element(INLINE, map[], "", [AtomFeed(rows)])]
  }

  function AtomFeed(rows: Collection): Element {
    Element(FEED, map[], "", rows.others + (AtomEntries(rows.entities) + AtomNext(rows.next)))
  }

  function AtomNext(next: Option<string>): seq<Element> {
    if next.Some? then [Element(LINK, map[REL := "next", HREF := next.value], "", [])] else []
  }

  function AtomEntries(es: seq<Entity>): seq<Element> {
    if es == [] then [] else [AtomEntry(es[0])] + AtomEntries(es[1..])
  }

  // ---- the dictionary ----

  /** Verbose JSON as it is sent, the same without annotations, and what the Atom form is read as:
      there a collection without items cannot be told from an empty text, and a date has the text
      Atom writes it with. */
  datatype View = Verbose | Bare | Seen

  function ScalarValue(value: Scalar, view: View): Value {
    match value
    case Absent(_) => Null
    case Plain(_, text) => Text(text)
    case Whole(_, n) => Int(n)
    case Truth(b) => Bool(b)
    case Measure(_, _, x) => Float(x)
    case Stamp(_, atom, json) => Text(if view.Seen? then atom else json)
    case Several(items) =>
      if view.Seen? && items == [] then Text("")
      else Results(seq(|items|, i requires 0 <= i < |items| => Text(items[i])))
  }

  function PropertyItems(ps: seq<Property>, view: View): Row {
    seq(|ps|, i requires 0 <= i < |ps| => (ps[i].name, ScalarValue(ps[i].value, view)))
  }

  const METADATA := "__metadata"

  function Json(e: Entity, view: View): Row {
    (if view.Verbose? then [(METADATA, Dict([("type", Text("SP.Data"))]))] else [])
    + PropertyItems(e.properties, view) + LinkItems(e.links, view)
  }

  function LinkItems(links: seq<Navigation>, view: View): Row {
    if links == [] then [] else
      [(links[0].name, TargetValue(links[0].target, links[0].href, view))] + LinkItems(links[1..], view)
  }

  function TargetValue(target: Target, href: string, view: View): Value {
    match target
    case Deferred => Dict([("__deferred", Dict([("uri", Text(href))]))])
    case One(e) => Dict(Json(e, view))
    case Many(rows) =>
      Dict([("results", List(JsonRows(rows.entities, view)))] +
           if view.Verbose? && rows.next.Some? then [("__next", Text(rows.next.value))] else [])
  }

  function JsonRows(es: seq<Entity>, view: View): seq<Value> {
    if es == [] then [] else [Dict(Json(es[0], view))] + JsonRows(es[1..], view)
  }
}
