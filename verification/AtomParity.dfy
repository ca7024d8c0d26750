/**
 * The Atom form of an entity is read as the dictionary of its JSON form, at any depth, exactly when no
 * collection in it is empty and no date is written differently (src/spconnect/services/odata.py:93-218).
 */
module AtomParity {
  import opened Options
  import opened Codecs
  import opened Atom

  // ---- values ----

  lemma TruthIsRead(b: bool)
    ensures SaysTrue(if b then "true" else "false") == b && !SaysTrue("")
  {
    StripIsIdentity(if b then "true" else "false");
    assert Lower("true") == "true";
    assert |Lower("false")| == 5 && |Lower("")| == 0;
  }

  lemma WholeIsRead(p: Property, floats: Floats)
    requires p.value.Whole? && IsScalar(p.value, floats)
    ensures ReadValue(AtomProperty(p), floats) == Int(p.value.n)
  {
    TruthIsRead(true);
    ReadPrint(p.value.n);
    StripIsIdentity(Print(p.value.n));
  }

  lemma TruthValueIsRead(p: Property, floats: Floats)
    requires p.value.Truth?
    ensures ReadValue(AtomProperty(p), floats) == Bool(p.value.b)
  {
    TruthIsRead(p.value.b);
  }

  lemma PropertyIsRead(p: Property, floats: Floats)
    requires IsScalar(p.value, floats)
    ensures ReadValue(AtomProperty(p), floats) == ScalarValue(p.value, Seen)
  {
    match p.value
    case Whole(_, _) => WholeIsRead(p, floats);
    case Truth(_) => TruthValueIsRead(p, floats);
    case Several(items) => SeveralAreRead(p, items, floats);
    case _ => TruthIsRead(true);
  }

  lemma SeveralAreRead(p: Property, items: seq<string>, floats: Floats)
    requires p.value == Several(items)
    ensures ReadValue(AtomProperty(p), floats) == ScalarValue(p.value, Seen)
  {
    TruthIsRead(true);
    var el := AtomProperty(p);
    assert el.Get(NULL) == "";
    if items != [] {
      assert Texts(el.children) == seq(|items|, i requires 0 <= i < |items| => Text(items[i]));
    }
  }

  lemma {:induction false} PutNew(row: Row, key: string, value: Value)
    requires key !in Keys(row)
    ensures Put(row, key, value) == row + [(key, value)]
    ensures Keys(row + [(key, value)]) == Keys(row) + [key]
  {
    if row != [] {
      assert Keys(row)[0] == row[0].0;
      assert Keys(row[1..]) == Keys(row)[1..];
      PutNew(row[1..], key, value);
    }
  }

  lemma NewKey(keys: seq<string>, key: string, more: seq<string>)
    requires Distinct(keys + ([key] + more))
    ensures key !in keys && Distinct((keys + [key]) + more)
  {
    assert keys + ([key] + more) == (keys + [key]) + more;
    var all := keys + ([key] + more);
    forall i | 0 <= i < |keys| ensures keys[i] != key {
      assert all[i] == keys[i] && all[|keys|] == key;
    }
  }

  lemma FirstProperty(ps: seq<Property>)
    requires ps != []
    ensures PropertyNames(ps) == [ps[0].name] + PropertyNames(ps[1..])
    ensures AtomProperties(ps)[0] == AtomProperty(ps[0]) && AtomProperties(ps)[1..] == AtomProperties(ps[1..])
    ensures PropertyItems(ps, Seen) == [(ps[0].name, ScalarValue(ps[0].value, Seen))] + PropertyItems(ps[1..], Seen)
  {
  }

  lemma {:induction false} PropertiesAreRead(ps: seq<Property>, row: Row, floats: Floats)
    requires Distinct(Keys(row) + PropertyNames(ps))
    requires forall i :: 0 <= i < |ps| ==> IsScalar(ps[i].value, floats)
    ensures ReadProperties(AtomProperties(ps), row, floats) == row + PropertyItems(ps, Seen)
    decreases |ps|
  {
    if ps == [] {
      assert row + PropertyItems(ps, Seen) == row;
    } else {
      var name, value := ps[0].name, ScalarValue(ps[0].value, Seen);
      FirstProperty(ps);
      assert AtomProperty(ps[0]).tag.local == name;
      PropertyIsRead(ps[0], floats);
      NewKey(Keys(row), name, PropertyNames(ps[1..]));
      PutNew(row, name, value);
      PropertiesAreRead(ps[1..], row + [(name, value)], floats);
      Associate(row, [(name, value)], PropertyItems(ps[1..], Seen));
    }
  }

  // ---- where the properties are ----

  lemma {:induction false} FindBehind(before: seq<Element>, after: seq<Element>, tag: Tag)
    requires forall i :: 0 <= i < |before| ==> before[i].tag != tag
    ensures Find(before + after, tag) == Find(after, tag)
  {
    if before == [] {
      assert before + after == after;
    } else {
      assert (before + after)[1..] == before[1..] + after;
      FindBehind(before[1..], after, tag);
    }
  }

  /** Under `content` or beside it; no property of an inlined entry is in the way. */
  lemma {:induction false} OwnPropertiesFound(e: Entity)
    requires forall i :: 0 <= i < |e.others| ==> IsAside(e.others[i])
    ensures OwnProperties(AtomEntry(e)) == Some(Element(PROPERTIES, map[], "", AtomProperties(e.properties)))
  {
    var body, links := AtomBody(e), AtomLinks(e.links);
    FindBehind(e.others, body + links, CONTENT);
    FindBehind(e.others, body + links, PROPERTIES);
    assert (body + links)[0] == body[0];
    if e.media {
      assert (body + links)[1..][0] == body[1];
    }
  }

  // ---- links ----

  lemma {:induction false} NoLaterRelation(s: string)
    requires forall i :: 8 <= i < |s| ==> s[i] != '/'
    ensures Related(s).None?
  {
    if s != "" {
      NoLaterRelation(s[1..]);
      assert RELATED[8] == '/';
    }
  }

  lemma {:induction false} RelatedBehind(before: string, rel: string)
    requires Related(rel).Some?
    ensures Related(before + rel) == Related(rel)
  {
    if before == "" {
      assert before + rel == rel;
    } else {
      assert (before + rel)[1..] == before[1..] + rel;
      RelatedBehind(before[1..], rel);
    }
  }

  lemma {:induction false} RelationBehind(base: string, name: string)
    requires IsName(name)
    ensures Related(base + RELATED + name) == Some(name)
  {
    var rel := RELATED + name;
    forall i | 8 <= i < |rel[1..]| ensures rel[1..][i] != '/' {
      assert rel[1..][i] == name[i - 8];
    }
    NoLaterRelation(rel[1..]);
    assert rel[|RELATED|..] == name;
    RelatedBehind(base, rel);
    assert base + RELATED + name == base + rel;
  }

  lemma {:induction false} RelationNames(name: string)
    requires IsName(name)
    ensures Related(REL_BASE + "/related/" + name) == Some(name)
  {
    RelationBehind(REL_BASE, name);
  }

  lemma {:induction false} AsidesSayNothing(before: seq<Element>, after: seq<Element>, row: Row, floats: Floats)
    requires forall i :: 0 <= i < |before| ==> before[i].tag == LINK ==> Related(before[i].Get(REL)).None?
    ensures ReadLinks(before + after, row, floats) == ReadLinks(after, row, floats)
  {
    if before == [] {
      assert before + after == after;
    } else {
      assert (before + after)[1..] == before[1..] + after;
      AsidesSayNothing(before[1..], after, row, floats);
    }
  }

  lemma {:induction false} AsidesAreNoEntries(before: seq<Element>, after: seq<Element>, floats: Floats)
    requires forall i :: 0 <= i < |before| ==> before[i].tag != ENTRY
    ensures ReadEntries(before + after, floats) == ReadEntries(after, floats)
  {
    if before == [] {
      assert before + after == after;
    } else {
      assert (before + after)[1..] == before[1..] + after;
      AsidesAreNoEntries(before[1..], after, floats);
    }
  }

  // ---- entities, at any depth ----

  /** What the Atom form of an entity is read as. */
  lemma {:induction false} EntryIsRead(e: Entity, floats: Floats)
    requires IsEntity(e, floats)
    ensures ReadEntry(AtomEntry(e), floats) == Json(e, Seen)
    decreases e
  {
    var entry, row := AtomEntry(e), PropertyItems(e.properties, Seen);
    OwnPropertiesFound(e);
    PrefixDistinct(PropertyNames(e.properties), LinkNames(e.links));
    PropertiesAreRead(e.properties, [], floats);
    AsidesSayNothing(e.others, AtomBody(e) + AtomLinks(e.links), row, floats);
    AsidesSayNothing(AtomBody(e), AtomLinks(e.links), row, floats);
    assert Keys(row) == PropertyNames(e.properties);
    LinksAreRead(e.links, row, floats);
    assert [] + row == row;
  }

  lemma PrefixDistinct(a: seq<string>, b: seq<string>)
    requires Distinct(a + b)
    ensures Distinct([] + a)
  {
    forall i, j | 0 <= i < j < |a| ensures ([] + a)[i] != ([] + a)[j] {
      assert (a + b)[i] == a[i] && (a + b)[j] == a[j];
    }
  }

  lemma {:induction false} FirstLink(link: Element, name: string, value: Value, rest: seq<Element>, row: Row,
                                     floats: Floats)
    requires link.tag == LINK && Related(link.Get(REL)) == Some(name) && name != ""
    requires ReadTarget(link, floats) == Some(value)
    ensures ReadLinks([link] + rest, row, floats) == ReadLinks(rest, Put(row, name, value), floats)
  {
    assert ([link] + rest)[1..] == rest;
  }

  lemma {:induction false} LinksAreRead(links: seq<Navigation>, row: Row, floats: Floats)
    requires AreLinks(links, floats) && Distinct(Keys(row) + LinkNames(links))
    ensures ReadLinks(AtomLinks(links), row, floats) == row + LinkItems(links, Seen)
    decreases links
  {
    if links == [] {
      assert row + LinkItems(links, Seen) == row;
    } else {
      var name, value := links[0].name, TargetValue(links[0].target, links[0].href, Seen);
      RelationNames(name);
      TargetIsRead(links[0], floats);
      assert LinkNames(links) == [name] + LinkNames(links[1..]);
      NewKey(Keys(row), name, LinkNames(links[1..]));
      PutNew(row, name, value);
      FirstLink(AtomLinks([links[0]])[0], name, value, AtomLinks(links[1..]), row, floats);
      LinksAreRead(links[1..], row + [(name, value)], floats);
      Associate(row, [(name, value)], LinkItems(links[1..], Seen));
    }
  }

  lemma {:induction false} TargetIsRead(link: Navigation, floats: Floats)
    requires IsTarget(link.target, floats)
    ensures ReadTarget(AtomLinks([link])[0], floats) == Some(TargetValue(link.target, link.href, Seen))
    decreases link
  {
    match link.target
    case Deferred =>
    case One(e) => EntryIsRead(e, floats);
    case Many(rows) =>
      CollectionIsRead(rows, floats);
      SameResults(link.target, link.href, Seen);
  }

  lemma {:induction false} CollectionIsRead(rows: Collection, floats: Floats)
    requires IsCollection(rows, floats)
    ensures ReadEntries(AtomFeed(rows).children, floats) == JsonRows(rows.entities, Seen)
    decreases rows
  {
    var next := AtomNext(rows.next);
    EntriesAreRead(rows.entities, next, floats);
    AsidesAreNoEntries(rows.others, AtomEntries(rows.entities) + next, floats);
    AsidesAreNoEntries(next, [], floats);
    assert next + [] == next;
  }

  lemma {:induction false} EntriesAreRead(es: seq<Entity>, after: seq<Element>, floats: Floats)
    requires AreEntities(es, floats)
    ensures ReadEntries(AtomEntries(es) + after, floats) == JsonRows(es, Seen) + ReadEntries(after, floats)
    decreases es
  {
    if es == [] {
      assert AtomEntries(es) + after == after;
    } else {
      EntryIsRead(es[0], floats);
      EntriesAreRead(es[1..], after, floats);
      Associate([AtomEntry(es[0])], AtomEntries(es[1..]), after);
      FirstEntry(AtomEntry(es[0]), AtomEntries(es[1..]) + after, floats);
      Associate([Dict(Json(es[0], Seen))], JsonRows(es[1..], Seen), ReadEntries(after, floats));
    }
  }

  lemma {:induction false} FirstEntry(entry: Element, rest: seq<Element>, floats: Floats)
    requires entry.tag == ENTRY
    ensures ReadEntries([entry] + rest, floats) == [Dict(ReadEntry(entry, floats))] + ReadEntries(rest, floats)
  {
    assert ([entry] + rest)[1..] == rest;
  }

  /** The next link is the feed's own: an inlined feed has its own, and it is not taken for it. */
  lemma {:induction false} NextIsOwn(rows: Collection)
    requires forall i :: 0 <= i < |rows.others| ==> IsAsideOfFeed(rows.others[i])
    ensures NextLink(AtomFeed(rows).children) == rows.next
  {
    var next := AtomNext(rows.next);
    EntriesHaveNoNext(rows.entities);
    assert AtomFeed(rows).children == (rows.others + AtomEntries(rows.entities)) + next;
    NoNextBefore(rows.others + AtomEntries(rows.entities), next);
  }

  lemma {:induction false} EntriesHaveNoNext(es: seq<Entity>)
    ensures forall i :: 0 <= i < |AtomEntries(es)| ==> AtomEntries(es)[i].tag == ENTRY
  {
    if es != [] {
      EntriesHaveNoNext(es[1..]);
    }
  }

  lemma {:induction false} NoNextBefore(before: seq<Element>, after: seq<Element>)
    requires forall i :: 0 <= i < |before| ==> before[i].tag == LINK ==> before[i].Get(REL) != "next"
    ensures NextLink(before + after) == NextLink(after)
  {
    if before == [] {
      assert before + after == after;
    } else {
      assert (before + after)[1..] == before[1..] + after;
      NoNextBefore(before[1..], after);
    }
  }

  // ---- parity ----

  /** Atom and JSON have the same to say: no empty collection, and no date written differently. */
  predicate IsLiteral(value: Scalar) {
    match value
    case Several(items) => items != []
    case Stamp(_, atom, json) => atom == json
    case _ => true
  }

  /** Every value is so, at any depth. */
  ghost predicate Literal(e: Entity) {
    && (forall i :: 0 <= i < |e.properties| ==> IsLiteral(e.properties[i].value))
    && LiteralLinks(e.links)
  }

  ghost predicate LiteralLinks(links: seq<Navigation>) {
    links == [] || (LiteralTarget(links[0].target) && LiteralLinks(links[1..]))
  }

  ghost predicate LiteralTarget(target: Target) {
    match target
    case Deferred => true
    case One(e) => Literal(e)
    case Many(rows) => AreLiteral(rows.entities)
  }

  ghost predicate AreLiteral(es: seq<Entity>) {
    es == [] || (Literal(es[0]) && AreLiteral(es[1..]))
  }

  lemma {:induction false} SeenExactly(e: Entity)
    ensures Json(e, Seen) == Json(e, Bare) <==> Literal(e)
    decreases e
  {
    LinksSeenExactly(e.links);
    PropertiesSeenExactly(e.properties);
    SameParts(PropertyItems(e.properties, Seen), LinkItems(e.links, Seen),
              PropertyItems(e.properties, Bare), LinkItems(e.links, Bare));
    assert Json(e, Seen) == PropertyItems(e.properties, Seen) + LinkItems(e.links, Seen);
    assert Json(e, Bare) == PropertyItems(e.properties, Bare) + LinkItems(e.links, Bare);
  }

  lemma SameParts<T>(a: seq<T>, b: seq<T>, c: seq<T>, d: seq<T>)
    requires |a| == |c|
    ensures a + b == c + d <==> a == c && b == d
  {
    if a + b == c + d {
      assert (a + b)[..|a|] == a && (c + d)[..|c|] == c;
      assert (a + b)[|a|..] == b && (c + d)[|c|..] == d;
    }
  }

  lemma PropertiesSeenExactly(ps: seq<Property>)
    ensures PropertyItems(ps, Seen) == PropertyItems(ps, Bare) <==>
            forall i :: 0 <= i < |ps| ==> IsLiteral(ps[i].value)
  {
    forall i | 0 <= i < |ps|
      ensures PropertyItems(ps, Seen)[i] == PropertyItems(ps, Bare)[i] <==> IsLiteral(ps[i].value)
    {
      ScalarSeenExactly(ps[i].value);
    }
  }

  lemma ScalarSeenExactly(value: Scalar)
    ensures ScalarValue(value, Seen) == ScalarValue(value, Bare) <==> IsLiteral(value)
  {
  }

  lemma {:induction false} LinksSeenExactly(links: seq<Navigation>)
    ensures |LinkItems(links, Seen)| == |LinkItems(links, Bare)| == |links|
    ensures LinkItems(links, Seen) == LinkItems(links, Bare) <==> LiteralLinks(links)
    decreases links
  {
    if links != [] {
      TargetSeenExactly(links[0].target, links[0].href);
      LinksSeenExactly(links[1..]);
      SameParts([(links[0].name, TargetValue(links[0].target, links[0].href, Seen))], LinkItems(links[1..], Seen),
                [(links[0].name, TargetValue(links[0].target, links[0].href, Bare))], LinkItems(links[1..], Bare));
    }
  }

  lemma {:induction false} SameResults(target: Target, href: string, view: View)
    requires target.Many? && !view.Verbose?
    ensures TargetValue(target, href, view) == Results(JsonRows(target.rows.entities, view))
    ensures TargetValue(target, href, view).items[0].1.values == JsonRows(target.rows.entities, view)
  {
  }

  lemma {:induction false} TargetSeenExactly(target: Target, href: string)
    ensures TargetValue(target, href, Seen) == TargetValue(target, href, Bare) <==> LiteralTarget(target)
    decreases target
  {
    match target
    case Deferred =>
    case One(e) => SeenExactly(e);
    case Many(rows) =>
      RowsSeenExactly(rows.entities);
      SameResults(target, href, Seen);
      SameResults(target, href, Bare);
  }

  lemma {:induction false} RowsSeenExactly(es: seq<Entity>)
    ensures |JsonRows(es, Seen)| == |JsonRows(es, Bare)| == |es|
    ensures JsonRows(es, Seen) == JsonRows(es, Bare) <==> AreLiteral(es)
    decreases es
  {
    if es != [] {
      SeenExactly(es[0]);
      RowsSeenExactly(es[1..]);
      SameParts([Dict(Json(es[0], Seen))], JsonRows(es[1..], Seen), [Dict(Json(es[0], Bare))], JsonRows(es[1..], Bare));
    }
  }

  /** An entity read from Atom is the JSON dictionary without annotations exactly when, in itself and
      in what it inlines, no collection is empty and no date is written differently. */
  lemma {:induction false} EntryParityExactly(e: Entity, floats: Floats)
    requires IsEntity(e, floats)
    ensures ReadEntry(AtomEntry(e), floats) == Json(e, Bare) <==> Literal(e)
  {
    EntryIsRead(e, floats);
    SeenExactly(e);
  }

  /** A page read from Atom: every row of the feed and no other, in order, and its own next link. */
  lemma {:induction false} FeedParityExactly(rows: Collection, floats: Floats)
    requires IsCollection(rows, floats)
    ensures ReadFeed(AtomFeed(rows), floats) == (JsonRows(rows.entities, Bare), rows.next) <==>
            AreLiteral(rows.entities)
  {
    CollectionIsRead(rows, floats);
    NextIsOwn(rows);
    RowsSeenExactly(rows.entities);
  }

  // ---- which types are read as what ----

  /** A property that is not null and holds no elements, by its type: a truth value, a whole number, a
      number; any other type, 64-bit and decimal numbers and dates included, is read as its text, and so
      is a number that does not parse. */
  lemma TypesAreRead(tag: Tag, edm: string, text: string, floats: Floats)
    ensures var value := ReadValue(Element(tag, map["m:type" := edm], text, []), floats);
      if edm == "Edm.Boolean" then value == Bool(Lower(Strip(text)) == "true")
      else if edm == "Edm.Int16" || edm == "Edm.Int32" || edm == "Edm.Byte" || edm == "Edm.SByte" then
        value == if ReadInt(Strip(text)).Some? then Int(ReadInt(Strip(text)).value) else Text(text)
      else if edm == "Edm.Double" || edm == "Edm.Single" then
        value == if floats(Strip(text)).Some? then Float(floats(Strip(text)).value) else Text(text)
      else value == Text(text)
  {
    TruthIsRead(true);
  }

  /** A property marked as null is read as null, whatever else it says; one with elements as a collection
      of their texts. */
  lemma NullsAndCollectionsAreRead(el: Element, floats: Floats)
    ensures "m:null" in el.attributes && Lower(Strip(el.attributes["m:null"])) == "true" ==>
              ReadValue(el, floats) == Null
    ensures "m:null" !in el.attributes && el.children != [] ==>
      ReadValue(el, floats) == Dict([("results", List(Texts(el.children)))])
  {
    TruthIsRead(true);
  }

  /** A navigation link that is not expanded is read as a deferred one, under the name behind the last
      `/related/` of its relation. */
  lemma {:induction false} UnexpandedIsRead(base: string, name: string, href: string, row: Row, floats: Floats)
    requires IsName(name)
    ensures var link := Element(LINK, map["rel" := base + "/related/" + name, "href" := href], "", []);
      ReadLinks([link], row, floats) == Put(row, name, Dict([("__deferred", Dict([("uri", Text(href))]))]))
  {
    var link := Element(LINK, map["rel" := base + "/related/" + name, "href" := href], "", []);
    RelationBehind(base, name);
    assert base + RELATED + name == base + "/related/" + name;
    assert [link] == [link] + [];
    FirstLink(link, name, Dict([("__deferred", Dict([("uri", Text(href))]))]), [], row, floats);
  }

  /** An expanded link holds its entry's dictionary, or its feed's in a collection. */
  lemma {:induction false} ExpandedIsRead(link: Element, inner: Element, floats: Floats)
    requires link.children == [Element(INLINE, map[], "", [inner])]
    ensures inner.tag == ENTRY ==> ReadTarget(link, floats) == Some(Dict(ReadEntry(inner, floats)))
    ensures inner.tag == FEED ==>
      ReadTarget(link, floats) == Some(Dict([("results", List(ReadEntries(inner.children, floats)))]))
  {
  }
}
