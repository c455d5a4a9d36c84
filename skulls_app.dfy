/** The mock explorer of the skulls front end: it reads a hypermedia response,
    collects its links into action buttons, and lists the resource data it
    carries. The HTML text around the selected data is not modelled; the
    model keeps what is selected, in the order it is shown. */
module SkullsApp {
  import opened Common
  import LinkBuilder

  // ---------------------------------------------------------------------------
  // JSON values as the browser holds them
  // ---------------------------------------------------------------------------

  /** A parsed JSON value. An object is the list of its properties in
      insertion order; numbers are integral. */
  datatype JsValue =
    | JNull
    | JBool(b: bool)
    | JNum(n: int)
    | JStr(s: string)
    | JArr(items: seq<JsValue>)
    | JObj(props: seq<Entry>)

  type Entry = (string, JsValue)

  /** Reading a property of null throws. */
  datatype TypeError = TypeError

  /** Truthiness of a defined value. */
  predicate TruthyValue(v: JsValue) {
    match v
    case JNull => false
    case JBool(b) => b
    case JNum(n) => n != 0
    case JStr(s) => s != []
    case JArr(_) => true
    case JObj(_) => true
  }

  /** Truthiness of a property read, where None is `undefined`. */
  predicate Truthy(o: Option<JsValue>) {
    o.Some? && TruthyValue(o.value)
  }

  /** typeof v === 'object': objects, arrays and null. */
  predicate IsObjectType(v: JsValue) {
    v.JObj? || v.JArr? || v.JNull?
  }

  /** The value of the first property named `k`. */
  function Lookup(ps: seq<Entry>, k: string): (r: Option<JsValue>)
    ensures r.Some? ==> (k, r.value) in ps
    ensures r.None? ==> forall i | 0 <= i < |ps| :: ps[i].0 != k
  {
    if ps == [] then None
    else if ps[0].0 == k then Some(ps[0].1)
    else Lookup(ps[1..], k)
  }

  /** The value of the last property named `k`: what a later duplicate
      leaves behind when properties are copied one after another. */
  function LastLookup(ps: seq<Entry>, k: string): (r: Option<JsValue>)
    ensures r.Some? ==> (k, r.value) in ps
    ensures r.None? ==> forall i | 0 <= i < |ps| :: ps[i].0 != k
  {
    if ps == [] then None
    else if ps[|ps| - 1].0 == k then Some(ps[|ps| - 1].1)
    else LastLookup(ps[..|ps| - 1], k)
  }

  /** No two properties share a name. */
  predicate DistinctKeys(ps: seq<Entry>) {
    forall i, j | 0 <= i < j < |ps| :: ps[i].0 != ps[j].0
  }

  /** In a list without duplicate names, first and last lookups agree. */
  lemma {:induction false} LookupsAgree(ps: seq<Entry>, k: string)
    requires DistinctKeys(ps)
    ensures Lookup(ps, k) == LastLookup(ps, k)
  {
    if ps != [] {
      var last := |ps| - 1;
      if ps[last].0 == k {
        if ps[0].0 == k {
          assert last == 0;
        } else {
          LookupsAgree(ps[1..], k);
          assert ps[1..][|ps[1..]| - 1] == ps[last];
        }
      } else if ps[0].0 == k {
        assert LastLookup(ps, k) == LastLookup(ps[..last], k);
        LookupsAgree(ps[..last], k);
      } else {
        LookupsAgree(ps[1..], k);
        LookupsAgree(ps[..last], k);
        if Lookup(ps, k).Some? {
          assert (k, Lookup(ps, k).value) in ps;
        }
        if LastLookup(ps, k).Some? {
          assert (k, LastLookup(ps, k).value) in ps;
        }
      }
    }
  }

  /** A property of a value: an own property of an object, `undefined` for
      every other kind. When a JSON text repeats a name, JSON.parse keeps the
      last value, so the last entry of that name is the property. The
      property names read by this code are carried by no prototype of a
      JSON value, so inherited members are not modelled. */
  function Property(v: JsValue, k: string): (r: Option<JsValue>)
    ensures !v.JObj? ==> r.None?
    ensures r.Some? ==> (k, r.value) in v.props
  {
    if v.JObj? then LastLookup(v.props, k) else None
  }

  /** The own enumerable properties Object.entries and Object.assign see:
      an object's properties, an array's or a string's indices. */
  function Entries(v: JsValue): (es: seq<Entry>)
    ensures v.JObj? ==> es == v.props
    ensures v.JArr? ==> |es| == |v.items|
    ensures v.JStr? ==> |es| == |v.s|
    ensures !(v.JObj? || v.JArr? || v.JStr?) ==> es == []
  {
    match v
    case JObj(ps) => ps
    case JArr(items) => seq(|items|, i requires 0 <= i < |items| => (NatToDecimal(i), items[i]))
    case JStr(s) => seq(|s|, i requires 0 <= i < |s| => (NatToDecimal(i), JStr([s[i]])))
    case _ => []
  }

  // ---------------------------------------------------------------------------
  // Writing properties
  // ---------------------------------------------------------------------------

  /** Assigning `v` to property `k`: an existing property keeps its place and
      takes the new value; a new one goes at the end. */
  function Put(ps: seq<Entry>, k: string, v: JsValue): (r: seq<Entry>)
    ensures Lookup(r, k) == Some(v)
    ensures forall k' | k' != k :: Lookup(r, k') == Lookup(ps, k')
    ensures |r| == (if Lookup(ps, k).Some? then |ps| else |ps| + 1)
    ensures forall i | 0 <= i < |ps| :: r[i].0 == ps[i].0
    ensures |r| == |ps| + 1 ==> r[|ps|] == (k, v)
  {
    if ps == [] then [(k, v)]
    else if ps[0].0 == k then [(k, v)] + ps[1..]
    else
      var rest := Put(ps[1..], k, v);
      var r := [ps[0]] + rest;
      assert forall i | 1 <= i < |r| :: r[i] == rest[i - 1];
      r
  }

  /** Assignment never creates a second property of the same name. */
  lemma PutKeepsKeysDistinct(ps: seq<Entry>, k: string, v: JsValue)
    requires DistinctKeys(ps)
    ensures DistinctKeys(Put(ps, k, v))
  {
    var r := Put(ps, k, v);
    forall i, j | 0 <= i < j < |r| ensures r[i].0 != r[j].0 {
      if j == |ps| {
        assert r[j].0 == k && r[i].0 == ps[i].0;
      }
    }
  }

  /** Object.assign(target, source): the source's properties are assigned
      one by one, in order. */
  function Assign(ps: seq<Entry>, src: seq<Entry>): (r: seq<Entry>)
    ensures forall k :: Lookup(r, k) == (if LastLookup(src, k).Some? then LastLookup(src, k) else Lookup(ps, k))
    ensures DistinctKeys(ps) ==> DistinctKeys(r)
  {
    if src == [] then ps
    else
      var last := src[|src| - 1];
      var before := Assign(ps, src[..|src| - 1]);
      if DistinctKeys(ps) then
        PutKeepsKeysDistinct(before, last.0, last.1);
        Put(before, last.0, last.1)
      else
        Put(before, last.0, last.1)
  }

  // ---------------------------------------------------------------------------
  // extractLinks
  // ---------------------------------------------------------------------------

  /** Which link each relation ends up with: a truthy root `href` is `self`;
      otherwise the direct `links` map wins over the HAL `_links` map. */
  function LinkPrecedence(data: JsValue, k: string): Option<JsValue> {
    var href := Property(data, "href");
    var direct := Property(data, "links");
    var hal := Property(data, "_links");
    if k == "self" && Truthy(href) then href
    else if Truthy(direct) && LastLookup(Entries(direct.value), k).Some? then LastLookup(Entries(direct.value), k)
    else if Truthy(hal) then LastLookup(Entries(hal.value), k)
    else None
  }

  /** The links of a response, as extractLinks collects them. */
  function LinksOf(data: JsValue): (r: Result<seq<Entry>, TypeError>)
    ensures r.Err? <==> data.JNull?
    ensures r.Ok? ==> DistinctKeys(r.value)
  {
    if data.JNull? then Err(TypeError)
    else
      var hal := Property(data, "_links");
      var direct := Property(data, "links");
      var href := Property(data, "href");
      var l1 := if Truthy(hal) then Assign([], Entries(hal.value)) else [];
      var l2 := if Truthy(direct) then Assign(l1, Entries(direct.value)) else l1;
      var l3 := if Truthy(href) then Put(l2, "self", href.value) else l2;
      assert DistinctKeys(l2);
      if Truthy(href) then
        PutKeepsKeysDistinct(l2, "self", href.value);
        Ok(l3)
      else
        Ok(l3)
  }

  /** Every relation resolves as LinkPrecedence says: `href` over `links`
      over `_links`. */
  lemma LinksFollowPrecedence(data: JsValue, k: string)
    requires !data.JNull?
    ensures Lookup(LinksOf(data).value, k) == LinkPrecedence(data, k)
  {
  }

  /** A response without `_links`, `links` or `href` has no links. */
  lemma NoLinkSourcesNoLinks(data: JsValue)
    requires !data.JNull?
    requires !Truthy(Property(data, "_links")) && !Truthy(Property(data, "links")) && !Truthy(Property(data, "href"))
    ensures LinksOf(data) == Ok([])
  {
  }

  /** extractLinks: an empty object, then the HAL map, then the direct map,
      then the root href as self. */
  method ExtractLinks(data: JsValue) returns (r: Result<seq<Entry>, TypeError>)
    ensures r == LinksOf(data)
  {
    if data.JNull? {
      return Err(TypeError);
    }
    var links: seq<Entry> := [];
    var hal := Property(data, "_links");
    if Truthy(hal) {
      links := Assign(links, Entries(hal.value));
    }
    var direct := Property(data, "links");
    if Truthy(direct) {
      links := Assign(links, Entries(direct.value));
    }
    var href := Property(data, "href");
    if Truthy(href) {
      links := Put(links, "self", href.value);
    }
    return Ok(links);
  }

  // ---------------------------------------------------------------------------
  // Buttons: label, verb and target of one link
  // ---------------------------------------------------------------------------

  /** The button label: every '-' and '_' becomes a space, letters are
      upper-cased. */
  function Label(rel: string): (l: string)
    ensures |l| == |rel|
    ensures forall i | 0 <= i < |rel| ::
      (l[i] == ' ' <==> rel[i] == ' ' || rel[i] == '-' || rel[i] == '_')
    ensures forall i | 0 <= i < |rel| :: !('a' <= l[i] <= 'z') && l[i] != '-' && l[i] != '_'
    ensures forall i | 0 <= i < |rel| && 'a' <= rel[i] <= 'z' :: l[i] == ToUpperAscii(rel[i]) && l[i] != rel[i]
    ensures forall i | 0 <= i < |rel| && rel[i] != '-' && rel[i] != '_' && !('a' <= rel[i] <= 'z') :: l[i] == rel[i]
  {
    seq(|rel|, i requires 0 <= i < |rel| => if rel[i] == '-' || rel[i] == '_' then ' ' else ToUpperAscii(rel[i]))
  }

  /** Labelling a label changes nothing. */
  lemma LabelIdempotent(rel: string)
    ensures Label(Label(rel)) == Label(rel)
  {
    var l := Label(rel);
    assert forall i | 0 <= i < |l| :: ToUpperAscii(l[i]) == l[i];
  }

  /** The verb a relation implies when the link does not name one: create
      posts, update and edit put, delete deletes, and every other relation
      is followed with GET. */
  function InferredMethod(rel: string): (m: string)
    ensures m in ["GET", "POST", "PUT", "DELETE"]
    ensures m == "POST" <==> rel == "create"
    ensures m == "PUT" <==> rel == "update" || rel == "edit"
    ensures m == "DELETE" <==> rel == "delete"
    ensures m == "GET" <==> rel !in ["create", "update", "edit", "delete"]
  {
    if rel == "create" then "POST"
    else if rel == "update" || rel == "edit" then "PUT"
    else if rel == "delete" then "DELETE"
    else "GET"
  }

  /** The verbs of the relations the change-request service emits. */
  lemma InferredVerbs()
    ensures InferredMethod("self") == "GET"
    ensures InferredMethod("all-change-requests") == "GET"
    ensures InferredMethod("update") == "PUT"
    ensures InferredMethod("delete") == "DELETE"
    ensures InferredMethod("create") == "POST"
    ensures InferredMethod("search-pending") == "GET"
    ensures InferredMethod("search-in-progress") == "GET"
    ensures InferredMethod("search-completed") == "GET"
  {
    assert "self" != "create" && "self" != "update" && "self" != "edit" && "self" != "delete" by {
      assert "self"[0] == 's';
    }
    assert "all-change-requests" != "create" && "all-change-requests" != "update"
        && "all-change-requests" != "edit" && "all-change-requests" != "delete" by {
      assert |"all-change-requests"| == 19;
    }
    assert "search-pending" != "create" && "search-pending" != "update"
        && "search-pending" != "edit" && "search-pending" != "delete" by {
      assert |"search-pending"| == 14;
    }
    assert "search-in-progress" != "create" && "search-in-progress" != "update"
        && "search-in-progress" != "edit" && "search-in-progress" != "delete" by {
      assert |"search-in-progress"| == 18;
    }
    assert "search-completed" != "create" && "search-completed" != "update"
        && "search-completed" != "edit" && "search-completed" != "delete" by {
      assert |"search-completed"| == 16;
    }
    assert "update" != "create" by { assert "update"[0] == 'u'; }
    assert "delete" != "create" && "delete" != "update" && "delete" != "edit" by {
      assert "delete"[0] == 'd';
    }
  }

  /** The relations the change-request service emits are followed with the
      verbs its handlers are mapped to: the item links with GET, GET, PUT and
      DELETE, the page links with GET, POST and GET for the searches. */
  lemma ServiceRelationsGetTheirVerbs(base: string, id: int, q: LinkBuilder.ListQuery)
    ensures var rels := LinkBuilder.Rels(LinkBuilder.ItemLinks(base, id));
      |rels| == 4
      && InferredMethod(rels[0]) == "GET" && InferredMethod(rels[1]) == "GET"
      && InferredMethod(rels[2]) == "PUT" && InferredMethod(rels[3]) == "DELETE"
    ensures var rels := LinkBuilder.Rels(LinkBuilder.CollectionLinks(base, q));
      |rels| == 5
      && InferredMethod(rels[0]) == "GET" && InferredMethod(rels[1]) == "POST"
      && InferredMethod(rels[2]) == "GET" && InferredMethod(rels[3]) == "GET" && InferredMethod(rels[4]) == "GET"
  {
    InferredVerbs();
  }

  /** The verb of a button: a truthy `method` of a link object wins,
      otherwise the relation decides. */
  function MethodFor(rel: string, link: JsValue): (m: JsValue)
    ensures !Truthy(Property(link, "method")) ==> m == JStr(InferredMethod(rel))
    ensures link.JObj? && Truthy(Property(link, "method")) ==> m == Property(link, "method").value
  {
    if (link.JObj? || link.JArr?) && Truthy(Property(link, "method")) then Property(link, "method").value
    else JStr(InferredMethod(rel))
  }

  /** The target of a button: the link itself when it is a string, its
      `href` otherwise (undefined when it has none). */
  function HrefOf(link: JsValue): Option<JsValue> {
    if link.JStr? then Some(link) else Property(link, "href")
  }

  /** One button. */
  datatype Action = Action(rel: string, caption: string, href: Option<JsValue>, verb: JsValue)

  /** The button for one link: captioned with the relation's label; aimed at
      the link when it is a string and at its `href` when it is an object;
      followed with the link's own truthy `method`, or else with POST for
      create, PUT for update and edit, DELETE for delete and GET otherwise. */
  function ActionFor(rel: string, link: JsValue): (a: Action)
    ensures a.rel == rel && a.caption == Label(rel)
    ensures link.JStr? ==> a.href == Some(link)
    ensures link.JObj? ==> a.href == LastLookup(link.props, "href")
    ensures !link.JStr? && !link.JObj? ==> a.href.None?
    ensures link.JObj? && Truthy(LastLookup(link.props, "method")) ==> a.verb == LastLookup(link.props, "method").value
    ensures !(link.JObj? && Truthy(LastLookup(link.props, "method"))) ==>
      && (a.verb == JStr("POST") <==> rel == "create")
      && (a.verb == JStr("PUT") <==> rel == "update" || rel == "edit")
      && (a.verb == JStr("DELETE") <==> rel == "delete")
      && (a.verb == JStr("GET") <==> rel !in ["create", "update", "edit", "delete"])
  {
    Action(rel, Label(rel), HrefOf(link), MethodFor(rel, link))
  }

  /** Some link is null, so reading its `href` throws. */
  predicate NullLinkIn(ls: seq<Entry>) {
    exists i | 0 <= i < |ls| :: ls[i].1.JNull?
  }

  // ---------------------------------------------------------------------------
  // renderResource
  // ---------------------------------------------------------------------------

  /** The properties shown first, in this order. */
  const ImportantProps: seq<string> := ["id", "title", "name", "description", "status", "type"]

  /** The position of a property among the important ones, 6 for any other. */
  function Rank(k: string): (n: nat)
    ensures n <= 6
    ensures n < 6 ==> ImportantProps[n] == k
    ensures n == 6 <==> k !in ImportantProps
  {
    if k == "id" then 0
    else if k == "title" then 1
    else if k == "name" then 2
    else if k == "description" then 3
    else if k == "status" then 4
    else if k == "type" then 5
    else 6
  }

  /** One shown property. */
  type Row = Entry

  /** The important properties among the first `n` that are defined, in
      their fixed order. */
  function ImportantRows(v: JsValue, n: nat): (rows: seq<Row>)
    requires n <= |ImportantProps|
    ensures forall i | 0 <= i < |rows| :: Rank(rows[i].0) < n && Property(v, rows[i].0) == Some(rows[i].1)
    ensures forall i, j | 0 <= i < j < |rows| :: Rank(rows[i].0) < Rank(rows[j].0)
    ensures forall m | 0 <= m < n && Property(v, ImportantProps[m]).Some? ::
      (ImportantProps[m], Property(v, ImportantProps[m]).value) in rows
  {
    if n == 0 then []
    else
      var prop := ImportantProps[n - 1];
      var value := Property(v, prop);
      assert Rank(prop) == n - 1;
      ImportantRows(v, n - 1) + (if value.Some? then [(prop, value.value)] else [])
  }

  /** Whether a property outside the important ones is shown: it is not
      `_links` and its value is not an object, an array or null. */
  predicate ShownOther(e: Entry) {
    e.0 !in ImportantProps && e.0 != "_links" && !IsObjectType(e.1)
  }

  /** The other shown properties, in their order. */
  function OtherRows(es: seq<Entry>): seq<Row> {
    if es == [] then []
    else
      var last := es[|es| - 1];
      OtherRows(es[..|es| - 1]) + (if ShownOther(last) then [last] else [])
  }

  /** The other rows are exactly the shown entries, and keep their keys
      distinct. */
  lemma {:induction false} OtherRowsSelects(es: seq<Entry>)
    ensures forall r | r in OtherRows(es) :: r in es && ShownOther(r)
    ensures forall e | e in es && ShownOther(e) :: e in OtherRows(es)
    ensures DistinctKeys(es) ==> DistinctKeys(OtherRows(es))
  {
    if es != [] {
      var init := es[..|es| - 1];
      var last := es[|es| - 1];
      OtherRowsSelects(init);
      var before := OtherRows(init);
      assert forall e | e in es :: e in init || e == last;
      assert forall e | e in init :: e in es;
      if DistinctKeys(es) {
        forall r | r in before ensures r.0 != last.0 {
          var i :| 0 <= i < |init| && init[i] == r;
          assert es[i] == r;
        }
      }
    }
  }

  /** What renderResource shows of a value: the important properties, then
      the others. */
  function ResourceRows(v: JsValue): (rows: seq<Row>) {
    ImportantRows(v, |ImportantProps|) + OtherRows(Entries(v))
  }

  /** Rows of rank below 6 in increasing rank, followed by rows of rank 6
      with distinct keys: the rank order is kept and no key repeats. */
  lemma JoinRanked(imp: seq<Row>, oth: seq<Row>)
    requires forall i, j | 0 <= i < j < |imp| :: Rank(imp[i].0) < Rank(imp[j].0)
    requires forall i | 0 <= i < |imp| :: Rank(imp[i].0) < 6
    requires forall i | 0 <= i < |oth| :: Rank(oth[i].0) == 6
    requires DistinctKeys(oth)
    ensures forall i, j | 0 <= i < j < |imp + oth| ::
      Rank((imp + oth)[i].0) < Rank((imp + oth)[j].0) || Rank((imp + oth)[j].0) == 6
    ensures DistinctKeys(imp + oth)
  {
    var rows := imp + oth;
    forall i, j | 0 <= i < j < |rows|
      ensures (Rank(rows[i].0) < Rank(rows[j].0) || Rank(rows[j].0) == 6) && rows[i].0 != rows[j].0
    {
      if j < |imp| {
        assert rows[i] == imp[i] && rows[j] == imp[j];
      } else if i < |imp| {
        assert rows[i] == imp[i] && rows[j] == oth[j - |imp|];
      } else {
        assert rows[i] == oth[i - |imp|] && rows[j] == oth[j - |imp|];
      }
    }
  }

  /** The important properties come first, in their fixed order; every
      defined one is shown; every other row is an own property that is
      neither `_links` nor an object; and no property is shown twice. */
  lemma ResourceRowsShape(v: JsValue)
    requires DistinctKeys(Entries(v))
    ensures var rows := ResourceRows(v);
      && (forall i, j | 0 <= i < j < |rows| :: Rank(rows[i].0) < Rank(rows[j].0) || Rank(rows[j].0) == 6)
      && (forall p | p in ImportantProps && Property(v, p).Some? :: (p, Property(v, p).value) in rows)
      && (forall r | r in rows && Rank(r.0) == 6 :: r in Entries(v) && r.0 != "_links" && !IsObjectType(r.1))
      && DistinctKeys(rows)
  {
    var imp := ImportantRows(v, |ImportantProps|);
    var oth := OtherRows(Entries(v));
    OtherRowsSelects(Entries(v));
    assert forall i | 0 <= i < |oth| :: Rank(oth[i].0) == 6 by {
      forall i | 0 <= i < |oth| ensures Rank(oth[i].0) == 6 {
        assert oth[i] in oth;
      }
    }
    JoinRanked(imp, oth);
    forall p | p in ImportantProps && Property(v, p).Some?
      ensures (p, Property(v, p).value) in imp + oth
    {
      assert ImportantProps[Rank(p)] == p;
      assert (p, Property(v, p).value) in imp;
    }
    forall r | r in imp + oth && Rank(r.0) == 6
      ensures r in Entries(v) && r.0 != "_links" && !IsObjectType(r.1)
    {
      assert r in oth;
    }
  }

  /** renderResource: the important properties in their order, then every
      other own property that is shown. Reading a property of null throws. */
  method RenderResource(resource: JsValue) returns (r: Result<seq<Row>, TypeError>)
    ensures r == (if resource.JNull? then Err(TypeError) else Ok(ResourceRows(resource)))
  {
    if resource.JNull? {
      return Err(TypeError);
    }
    var rows: seq<Row> := [];
    for i := 0 to |ImportantProps|
      invariant rows == ImportantRows(resource, i)
    {
      var prop := ImportantProps[i];
      var value := Property(resource, prop);
      ImportantRowsStep(resource, i);
      if value.Some? {
        rows := rows + [(prop, value.value)];
      }
    }
    ghost var important := rows;
    var es := Entries(resource);
    for i := 0 to |es|
      invariant rows == important + OtherRows(es[..i])
    {
      OtherRowsStep(es, i);
      if ShownOther(es[i]) {
        rows := rows + [es[i]];
      }
    }
    assert es[..|es|] == es;
    return Ok(rows);
  }

  /** One more important property adds its row exactly when it is defined. */
  lemma ImportantRowsStep(v: JsValue, i: nat)
    requires i < |ImportantProps|
    ensures ImportantRows(v, i + 1) == ImportantRows(v, i)
      + (if Property(v, ImportantProps[i]).Some? then [(ImportantProps[i], Property(v, ImportantProps[i]).value)] else [])
  {
  }

  /** One more entry adds its row exactly when it is shown. */
  lemma OtherRowsStep(es: seq<Entry>, i: nat)
    requires i < |es|
    ensures OtherRows(es[..i + 1]) == OtherRows(es[..i]) + (if ShownOther(es[i]) then [es[i]] else [])
  {
    assert es[..i + 1][..i] == es[..i] && es[..i + 1][i] == es[i];
  }

  // ---------------------------------------------------------------------------
  // renderEmbeddedData
  // ---------------------------------------------------------------------------

  /** The rows of each item of an array, in array order. */
  function ItemRows(items: seq<JsValue>): (rs: seq<seq<Row>>)
    ensures |rs| == |items|
  {
    seq(|items|, i requires 0 <= i < |items| => ResourceRows(items[i]))
  }

  /** One embedded collection: its heading and the rows of its items. */
  datatype Section = Section(heading: string, items: seq<seq<Row>>)

  /** The section an array-valued entry renders as. */
  function SectionFor(e: Entry): Section
    requires e.1.JArr?
  {
    Section(Label(e.0), ItemRows(e.1.items))
  }

  /** The sections of the embedded entries, in entry order. */
  function SectionsOf(es: seq<Entry>): seq<Section> {
    if es == [] then []
    else
      var last := es[|es| - 1];
      SectionsOf(es[..|es| - 1]) + (if last.1.JArr? then [SectionFor(last)] else [])
  }

  /** The sections follow the array-valued entries in entry order: `idx`
      lists the positions of those entries in increasing order, and section
      `j` is the label and rendered items of entry `idx[j]`. */
  lemma {:induction false} SectionPositions(es: seq<Entry>) returns (idx: seq<nat>)
    ensures forall j | 0 <= j < |idx| :: idx[j] < |es| && es[idx[j]].1.JArr?
    ensures forall j, k | 0 <= j < k < |idx| :: idx[j] < idx[k]
    ensures forall i | 0 <= i < |es| && es[i].1.JArr? :: i in idx
    ensures |SectionsOf(es)| == |idx|
    ensures forall j | 0 <= j < |idx| :: SectionsOf(es)[j] == SectionFor(es[idx[j]])
  {
    if es == [] {
      return [];
    }
    var init := es[..|es| - 1];
    var last := es[|es| - 1];
    var before := SectionPositions(init);
    var ss, ss0 := SectionsOf(es), SectionsOf(init);
    assert forall i | 0 <= i < |init| :: es[i] == init[i];
    if last.1.JArr? {
      idx := before + [|es| - 1];
      assert ss == ss0 + [SectionFor(last)];
    } else {
      idx := before;
      assert ss == ss0;
    }
    forall i | 0 <= i < |es| && es[i].1.JArr?
      ensures i in idx
    {
      if i < |init| {
        assert init[i].1.JArr?;
      }
    }
    forall j | 0 <= j < |idx|
      ensures ss[j] == SectionFor(es[idx[j]])
    {
      if j < |before| {
        assert ss[j] == ss0[j];
      }
    }
  }

  /** There is one section per array-valued entry and nothing else, in entry
      order; in particular each section is some array entry's section and
      each array entry has its section. */
  lemma SectionsMatchArrays(es: seq<Entry>) returns (idx: seq<nat>)
    ensures forall j | 0 <= j < |idx| :: idx[j] < |es| && es[idx[j]].1.JArr?
    ensures forall j, k | 0 <= j < k < |idx| :: idx[j] < idx[k]
    ensures forall i | 0 <= i < |es| && es[i].1.JArr? :: i in idx
    ensures |SectionsOf(es)| == |idx|
    ensures forall j | 0 <= j < |idx| :: SectionsOf(es)[j] == SectionFor(es[idx[j]])
    ensures forall s | s in SectionsOf(es) :: exists e | e in es && e.1.JArr? :: s == SectionFor(e)
    ensures forall e | e in es && e.1.JArr? :: SectionFor(e) in SectionsOf(es)
  {
    idx := SectionPositions(es);
    var ss := SectionsOf(es);
    forall s | s in ss
      ensures exists e | e in es && e.1.JArr? :: s == SectionFor(e)
    {
      var j :| 0 <= j < |ss| && ss[j] == s;
      assert es[idx[j]] in es;
    }
    forall e | e in es && e.1.JArr?
      ensures SectionFor(e) in ss
    {
      var i :| 0 <= i < |es| && es[i] == e;
      var j :| 0 <= j < |idx| && idx[j] == i;
      assert ss[j] == SectionFor(e);
    }
  }

  /** Some embedded array holds a null item, whose rendering throws. */
  predicate NullItemIn(es: seq<Entry>) {
    exists i | 0 <= i < |es| :: es[i].1.JArr? && JNull in es[i].1.items
  }

  /** Embedded entries that are not arrays contribute nothing. */
  lemma {:induction false} NonArraysSkipped(es: seq<Entry>)
    requires forall i | 0 <= i < |es| :: !es[i].1.JArr?
    ensures SectionsOf(es) == []
  {
    if es != [] {
      NonArraysSkipped(es[..|es| - 1]);
    }
  }

  /** The forEach over one embedded array: each item rendered in turn. */
  method RenderItems(items: seq<JsValue>) returns (r: Result<seq<seq<Row>>, TypeError>)
    ensures r == (if JNull in items then Err(TypeError) else Ok(ItemRows(items)))
  {
    var rendered: seq<seq<Row>> := [];
    for j := 0 to |items|
      invariant JNull !in items[..j]
      invariant rendered == ItemRows(items[..j])
    {
      var rows := RenderResource(items[j]);
      if rows.Err? {
        assert items[j] in items;
        return Err(TypeError);
      }
      ItemRowsStep(items, j);
      rendered := rendered + [rows.value];
    }
    assert items[..|items|] == items;
    return Ok(rendered);
  }

  /** One more item adds its rows at the end. */
  lemma ItemRowsStep(items: seq<JsValue>, j: nat)
    requires j < |items|
    ensures ItemRows(items[..j + 1]) == ItemRows(items[..j]) + [ResourceRows(items[j])]
    ensures items[..j + 1] == items[..j] + [items[j]]
  {
    assert items[..j + 1] == items[..j] + [items[j]];
  }

  /** renderEmbeddedData: one section per array-valued entry, one item per
      element, in order. */
  method RenderEmbeddedData(embedded: JsValue) returns (r: Result<seq<Section>, TypeError>)
    ensures r == (if NullItemIn(Entries(embedded)) then Err(TypeError) else Ok(SectionsOf(Entries(embedded))))
  {
    var es := Entries(embedded);
    var sections: seq<Section> := [];
    for i := 0 to |es|
      invariant forall k | 0 <= k < i && es[k].1.JArr? :: JNull !in es[k].1.items
      invariant sections == SectionsOf(es[..i])
    {
      assert es[..i + 1][..i] == es[..i];
      var key := es[i].0;
      var items := es[i].1;
      if items.JArr? {
        var rendered := RenderItems(items.items);
        if rendered.Err? {
          return Err(TypeError);
        }
        sections := sections + [Section(Label(key), rendered.value)];
      }
    }
    assert es[..|es|] == es;
    return Ok(sections);
  }

  // ---------------------------------------------------------------------------
  // mockAIGeneration
  // ---------------------------------------------------------------------------

  /** The link panel: the "no hypermedia links" notice, or the buttons. */
  datatype LinkPanel = NoLinks | Buttons(actions: seq<Action>)

  /** What is shown below the panel. */
  datatype Body = Embedded(sections: seq<Section>) | Resource(rows: seq<Row>) | NoData

  datatype View = View(panel: LinkPanel, body: Body)

  /** The buttons of a list of links, in link order. */
  function ActionsOf(ls: seq<Entry>): (as_: seq<Action>)
    requires !NullLinkIn(ls)
    ensures |as_| == |ls|
    ensures forall i | 0 <= i < |ls| :: as_[i] == ActionFor(ls[i].0, ls[i].1)
  {
    seq(|ls|, i requires 0 <= i < |ls| => ActionFor(ls[i].0, ls[i].1))
  }

  /** The panel for a list of links. */
  function PanelOf(ls: seq<Entry>): LinkPanel
    requires !NullLinkIn(ls)
  {
    if |ls| > 0 then Buttons(ActionsOf(ls)) else NoLinks
  }

  /** Whether the response is shown as a single resource: it has a truthy
      `id`, `title` or `name`. */
  predicate LooksLikeResource(data: JsValue) {
    Truthy(Property(data, "id")) || Truthy(Property(data, "title")) || Truthy(Property(data, "name"))
  }

  /** What the mock explorer shows for a response: null data, a null link
      or a null embedded item make it throw. */
  function Explore(data: JsValue): (r: Result<View, TypeError>)
    ensures r.Err? <==>
      || data.JNull?
      || NullLinkIn(LinksOf(data).value)
      || (Truthy(Property(data, "_embedded")) && NullItemIn(Entries(Property(data, "_embedded").value)))
    ensures r.Ok? ==> (r.value.panel.NoLinks? <==> LinksOf(data).value == [])
    ensures r.Ok? && r.value.panel.Buttons? ==> r.value.panel.actions == ActionsOf(LinksOf(data).value)
    ensures r.Ok? ==> (r.value.body.Embedded? <==> Truthy(Property(data, "_embedded")))
    ensures r.Ok? ==> (r.value.body.Resource? <==> !Truthy(Property(data, "_embedded")) && LooksLikeResource(data))
    ensures r.Ok? && r.value.body.Embedded? ==>
      r.value.body.sections == SectionsOf(Entries(Property(data, "_embedded").value))
    ensures r.Ok? && r.value.body.Resource? ==> r.value.body.rows == ResourceRows(data)
  {
    if data.JNull? then Err(TypeError)
    else
      var links := LinksOf(data).value;
      if NullLinkIn(links) then Err(TypeError)
      else
        var panel := PanelOf(links);
        var embedded := Property(data, "_embedded");
        if Truthy(embedded) then
          if NullItemIn(Entries(embedded.value)) then Err(TypeError)
          else Ok(View(panel, Embedded(SectionsOf(Entries(embedded.value)))))
        else if LooksLikeResource(data) then Ok(View(panel, Resource(ResourceRows(data))))
        else Ok(View(panel, NoData))
  }

  /** A response with no link sources shows the "no hypermedia links"
      notice. */
  lemma NoLinkSourcesShowNotice(data: JsValue)
    requires !data.JNull?
    requires !Truthy(Property(data, "_links")) && !Truthy(Property(data, "links")) && !Truthy(Property(data, "href"))
    requires !(Truthy(Property(data, "_embedded")) && NullItemIn(Entries(Property(data, "_embedded").value)))
    ensures Explore(data).Ok? && Explore(data).value.panel == NoLinks
  {
    NoLinkSourcesNoLinks(data);
  }

  /** A link object without a `method`, or a plain string link, is followed
      with the verb its relation implies. */
  lemma PlainLinksUseInferredVerb(rel: string, link: JsValue)
    requires link.JStr? || (link.JObj? && Property(link, "method").None?)
    ensures ActionFor(rel, link).verb == JStr(InferredMethod(rel))
    ensures link.JStr? ==> ActionFor(rel, link).href == Some(link)
  {
  }

  /** The for-of over the links: one button per link, in order. */
  method RenderActions(links: seq<Entry>) returns (r: Result<seq<Action>, TypeError>)
    ensures r == (if NullLinkIn(links) then Err(TypeError) else Ok(ActionsOf(links)))
  {
    var actions: seq<Action> := [];
    for i := 0 to |links|
      invariant |actions| == i
      invariant forall j | 0 <= j < i :: !links[j].1.JNull? && actions[j] == ActionFor(links[j].0, links[j].1)
    {
      var rel := links[i].0;
      var link := links[i].1;
      if link.JNull? {
        return Err(TypeError);
      }
      var href := if link.JStr? then Some(link) else Property(link, "href");
      var verb := JStr("GET");
      if (link.JObj? || link.JArr?) && Truthy(Property(link, "method")) {
        verb := Property(link, "method").value;
      } else if rel == "create" {
        verb := JStr("POST");
      } else if rel == "update" || rel == "edit" {
        verb := JStr("PUT");
      } else if rel == "delete" {
        verb := JStr("DELETE");
      }
      actions := actions + [Action(rel, Label(rel), href, verb)];
    }
    assert !NullLinkIn(links);
    assert actions == ActionsOf(links);
    return Ok(actions);
  }

  /** mockAIGeneration, without the markup: the links become buttons, then
      the embedded collections or the single resource are listed. */
  method MockAIGeneration(data: JsValue) returns (r: Result<View, TypeError>)
    ensures r == Explore(data)
  {
    var extracted := ExtractLinks(data);
    if extracted.Err? {
      return Err(TypeError);
    }
    var links := extracted.value;
    var panel := NoLinks;
    if |links| > 0 {
      var actions := RenderActions(links);
      if actions.Err? {
        return Err(TypeError);
      }
      panel := Buttons(actions.value);
    }
    var embedded := Property(data, "_embedded");
    if Truthy(embedded) {
      var sections := RenderEmbeddedData(embedded.value);
      if sections.Err? {
        return Err(TypeError);
      }
      return Ok(View(panel, Embedded(sections.value)));
    } else if LooksLikeResource(data) {
      var rows := RenderResource(data);
      return Ok(View(panel, Resource(rows.value)));
    }
    return Ok(View(panel, NoData));
  }
}
