/** The links the change-request handlers attach to what they return. A link
    is a relation name and a target; the target is the base URI, a path, and,
    for a call of the collection handler, the arguments of that call. The text
    of the query string is not modelled. */
module LinkBuilder {
  import opened Common
  import opened Model

  /** The path the change-request handlers are mapped under. */
  const CollectionPath: string := "/change-requests"

  /** The arguments of the collection handler: page, size, sortBy, sortDir
      and the optional status filter. */
  datatype ListQuery = ListQuery(page: int, size: int, sortBy: string, sortDir: string, status: Option<Status>)

  datatype Href = Href(base: string, path: string, query: Option<ListQuery>)

  datatype Link = Link(rel: string, href: Href, mediaType: Option<string>)

  /** What a link points at: the bare collection, a call of the collection
      handler with these arguments, or one record's handlers. */
  datatype Target = Collection | Listing(query: ListQuery) | Item(id: int)

  /** The href without its query. */
  function Location(h: Href): string {
    h.base + h.path
  }

  /** The record identifier the `/{id}` handlers under the collection path
      receive when this href is followed, if it reaches one of them. */
  function RoutedId(h: Href): (r: Option<int>)
  {
    var prefix := CollectionPath + "/";
    if h.query.None? && StartsWith(h.path, prefix) then ParseInt(h.path[|prefix|..]) else None
  }

  /** Where a target lives under `base`. */
  function HrefOf(base: string, t: Target): (h: Href)
    ensures h.base == base
    ensures t.Item? ==> RoutedId(h) == Some(t.id) && h.query.None?
    ensures t.Collection? ==> h == Href(base, CollectionPath, None) && RoutedId(h).None?
    ensures t.Listing? ==> Location(h) == base + CollectionPath && h.query == Some(t.query)
  {
    match t
    case Collection => Href(base, CollectionPath, None)
    case Listing(q) => Href(base, CollectionPath, Some(q))
    case Item(id) =>
      var path := CollectionPath + "/" + IntToDecimal(id);
      assert path[|CollectionPath + "/"|..] == IntToDecimal(id);
      IntToDecimalRoundTrip(id);
      Href(base, path, None)
  }

  /** A link with relation `rel` to `t`. */
  function LinkTo(base: string, rel: string, t: Target): Link {
    Link(rel, HrefOf(base, t), None)
  }

  /** The relation names of a list of links, in order. */
  function Rels(links: seq<Link>): seq<string> {
    seq(|links|, i requires 0 <= i < |links| => links[i].rel)
  }

  // ---------------------------------------------------------------------------
  // Links of one record
  // ---------------------------------------------------------------------------

  /** The arguments of the collection link every record carries: the first
      page of ten, newest identifier first, no filter. */
  const DefaultQuery: ListQuery := ListQuery(0, 10, "id", "desc", None)

  /** The links of one record's presentation: exactly the relations self,
      all-change-requests, update and delete, in this order, each once;
      self, update and delete lead back to this record, the second to the
      listing. */
  function ItemLinks(base: string, id: int): (ls: seq<Link>)
    ensures |ls| == 4
    ensures Rels(ls) == ["self", "all-change-requests", "update", "delete"]
    ensures Distinct(Rels(ls))
    ensures RoutedId(ls[0].href) == Some(id) && RoutedId(ls[2].href) == Some(id) && RoutedId(ls[3].href) == Some(id)
    ensures ls[1].href.query.Some? && RoutedId(ls[1].href).None?
  {
    [ LinkTo(base, "self", Item(id)),
      LinkTo(base, "all-change-requests", Listing(DefaultQuery)),
      LinkTo(base, "update", Item(id)),
      LinkTo(base, "delete", Item(id)) ]
  }

  /** self, update and delete point at one and the same URI, the record's,
      which ends in the collection path, a slash and the identifier. */
  lemma ItemLinksShareRecordUri(base: string, id: int)
    ensures var ls := ItemLinks(base, id);
      && ls[0].href == ls[2].href == ls[3].href
      && RoutedId(ls[0].href) == Some(id)
      && Location(ls[0].href) == base + "/change-requests/" + IntToDecimal(id)
      && EndsWith(Location(ls[0].href), "/change-requests/" + IntToDecimal(id))
  {
    var ls := ItemLinks(base, id);
    var h := HrefOf(base, Item(id));
    assert ls[0].href == h && ls[2].href == h && ls[3].href == h;
    var tail := "/change-requests/" + IntToDecimal(id);
    assert h.path == tail;
    var loc := Location(h);
    assert loc == base + tail;
    assert loc[|loc| - |tail|..] == tail;
  }

  /** The collection link is the same for every record: it orients, it does
      not remember where the client came from. */
  lemma CollectionLinkIsFixed(base: string, id1: int, id2: int)
    ensures ItemLinks(base, id1)[1] == ItemLinks(base, id2)[1]
    ensures ItemLinks(base, id1)[1].href == Href(base, CollectionPath, Some(ListQuery(0, 10, "id", "desc", None)))
  {
  }

  /** Different records get different URIs. */
  lemma RecordUrisDistinct(base: string, id1: int, id2: int)
    ensures HrefOf(base, Item(id1)) == HrefOf(base, Item(id2)) <==> id1 == id2
  {
  }

  // ---------------------------------------------------------------------------
  // Links of a page
  // ---------------------------------------------------------------------------

  /** The links the collection handler adds to a page, in the order it adds
      them: the page itself, the creation affordance, and one search per
      shortcut status. */
  function CollectionLinks(base: string, q: ListQuery): (ls: seq<Link>)
    ensures Rels(ls) == ["self", "create", "search-pending", "search-in-progress", "search-completed"]
    ensures Distinct(Rels(ls))
    ensures forall l | l in ls :: Location(l.href) == base + CollectionPath && RoutedId(l.href).None?
  {
    [ LinkTo(base, "self", Listing(q)),
      Link("create", HrefOf(base, Collection), Some("application/json")),
      LinkTo(base, "search-pending", Listing(q.(status := Some(Pending)))),
      LinkTo(base, "search-in-progress", Listing(q.(status := Some(InProgress)))),
      LinkTo(base, "search-completed", Listing(q.(status := Some(Completed)))) ]
  }

  /** self repeats the request's own arguments; create is the bare collection
      URI, typed application/json. */
  lemma SelfAndCreate(base: string, q: ListQuery)
    ensures CollectionLinks(base, q)[0].href == Href(base, CollectionPath, Some(q))
    ensures CollectionLinks(base, q)[1].href == Href(base, CollectionPath, None)
    ensures CollectionLinks(base, q)[1].mediaType == Some("application/json")
  {
  }

  /** Each search keeps page, size and sort and differs from self only in
      the status it forces. */
  lemma SearchesDifferFromSelfOnlyInStatus(base: string, q: ListQuery)
    ensures var ls := CollectionLinks(base, q);
      && ls[2].href == ls[0].href.(query := Some(q.(status := Some(Pending))))
      && ls[3].href == ls[0].href.(query := Some(q.(status := Some(InProgress))))
      && ls[4].href == ls[0].href.(query := Some(q.(status := Some(Completed))))
  {
  }

  /** The searches are the same whatever filter is active. */
  lemma SearchesIgnoreActiveFilter(base: string, q: ListQuery, s: Option<Status>)
    ensures CollectionLinks(base, q)[2..] == CollectionLinks(base, q.(status := s))[2..]
  {
    assert q.(status := s).(status := Some(Pending)) == q.(status := Some(Pending));
    assert q.(status := s).(status := Some(InProgress)) == q.(status := Some(InProgress));
    assert q.(status := s).(status := Some(Completed)) == q.(status := Some(Completed));
  }
}
