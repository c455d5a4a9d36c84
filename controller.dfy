/** The change-request handlers: list, read, create, update and delete, each
    over the repository object, and the presentations they answer with. */
module Controller {
  import opened Common
  import opened Model
  import opened Repository
  import opened LinkBuilder

  // ---------------------------------------------------------------------------
  // Presentations
  // ---------------------------------------------------------------------------

  /** One record as clients see it: its presented fields and its links. */
  datatype EntityModel = EntityModel(content: Fields, links: seq<Link>)

  /** The presentation of a stored record. Stored records always carry an
      identifier, and their links are built from it. */
  function ToEntityModel(base: string, r: Record): (m: EntityModel)
    requires r.id.Some?
    ensures m.content == Presented(r)
    ensures Rels(m.links) == ["self", "all-change-requests", "update", "delete"]
    ensures RoutedId(m.links[0].href) == r.id
    ensures m.links[2].href == m.links[0].href && m.links[3].href == m.links[0].href
    ensures m.links[1].href == Href(base, CollectionPath, Some(DefaultQuery))
  {
    ItemLinksShareRecordUri(base, r.id.value);
    EntityModel(Presented(r), ItemLinks(base, r.id.value))
  }

  /** Presentations of different records differ, because their self links
      lead to different identifiers. */
  lemma PresentationsOfDistinctRecordsDiffer(base: string, r1: Record, r2: Record)
    requires r1.id.Some? && r2.id.Some? && r1.id != r2.id
    ensures ToEntityModel(base, r1).links[0] != ToEntityModel(base, r2).links[0]
  {
  }

  /** What a single-record handler answers: the presentation with status 200,
      an empty 404, or an empty 204. A save that fails is reported as such. */
  datatype Response =
    | Success(model: EntityModel)
    | NotFound
    | NoContent
    | Failed(error: StoreError)

  // ---------------------------------------------------------------------------
  // Sorting and dispatch of the collection handler
  // ---------------------------------------------------------------------------

  /** The sort the collection handler builds: by `sortBy`, descending when
      `sortDir` is "desc" in any letter case, ascending otherwise. */
  function SortFor(sortBy: string, sortDir: string): (s: Sort)
    ensures s.property == sortBy
    ensures s.direction == Descending <==> EqualsIgnoreCase(sortDir, "desc")
  {
    Sort(sortBy, if EqualsIgnoreCase(sortDir, "desc") then Descending else Ascending)
  }

  /** Only the four letters d, e, s, c in some case select descending order;
      "asc", the empty text and anything longer select ascending. */
  lemma SortDirections(sortBy: string)
    ensures SortFor(sortBy, "desc").direction == Descending
    ensures SortFor(sortBy, "DESC").direction == Descending
    ensures SortFor(sortBy, "dEsC").direction == Descending
    ensures SortFor(sortBy, "asc").direction == Ascending
    ensures SortFor(sortBy, "").direction == Ascending
    ensures SortFor(sortBy, "descending").direction == Ascending
  {
    assert LowerAscii("DESC") == "desc";
    assert LowerAscii("dEsC") == "desc";
    assert LowerAscii("asc") != "desc" by { assert |LowerAscii("asc")| == 3; }
    assert LowerAscii("descending") != "desc" by { assert |LowerAscii("descending")| == 10; }
  }

  /** Character.isWhitespace, for the characters below 128. */
  predicate IsJavaWhitespace(c: char) {
    c == ' ' || 9 <= c as int <= 13 || 28 <= c as int <= 31
  }

  /** StringUtils.hasText: some character is not whitespace. Sort.by refuses
      a property without text. */
  predicate HasText(s: string) {
    exists i | 0 <= i < |s| :: !IsJavaWhitespace(s[i])
  }

  /** The page the collection handler asks the repository for: the status
      query when a status is given, every record otherwise. */
  function Fetch(repo: ChangeRequestRepository, status: Option<Status>, p: Pageable): (pg: Page)
    reads repo
    requires repo.Valid() && p.size >= 1
    ensures pg == Query(repo.records, repo.nextId, if status.Some? then StatusIs(status.value) else Everything, p)
    ensures status.Some? ==> pg.totalElements == repo.CountByStatus(status.value)
    ensures status.None? ==> pg.totalElements == |repo.records|
    ensures forall r | r in pg.content :: r.id.Some? && repo.FindById(r.id.value) == Some(r)
    ensures status.Some? ==> forall r | r in pg.content :: r.status == status
    ensures |pg.content| <= p.size && pg.number == p.page && pg.size == p.size
  {
    if status.Some? then repo.FindByStatus(status.value, p) else repo.FindAll(p)
  }

  // ---------------------------------------------------------------------------
  // The paged presentation
  // ---------------------------------------------------------------------------

  /** size, totalElements, totalPages and number of the page shown. */
  datatype PageMetadata = PageMetadata(size: nat, totalElements: nat, totalPages: nat, number: nat)

  /** The presentations of a page's records, in the page's order. */
  function Presentations(base: string, rs: seq<Record>): (ms: seq<EntityModel>)
    requires forall r | r in rs :: r.id.Some?
    ensures |ms| == |rs|
    ensures forall i | 0 <= i < |rs| :: ms[i] == ToEntityModel(base, rs[i])
  {
    seq(|rs|, i requires 0 <= i < |rs| => ToEntityModel(base, rs[i]))
  }

  /** A page of presentations. Links are appended one at a time. */
  class PagedModel {
    const content: seq<EntityModel>
    const metadata: PageMetadata
    var links: seq<Link>

    /** What the pagination assembler returns: the presentations, the page
        metadata and the links it adds itself. */
    constructor (content: seq<EntityModel>, metadata: PageMetadata, links: seq<Link>)
      ensures this.content == content && this.metadata == metadata && this.links == links
    {
      this.content, this.metadata, this.links := content, metadata, links;
    }

    /** RepresentationModel.add: appends one link. */
    method Add(link: Link)
      modifies this`links
      ensures links == old(links) + [link]
    {
      links := links + [link];
    }
  }

  /** The five links the collection handler appends to its page, one at a
      time, in the order of `CollectionLinks`. */
  method AddCollectionLinks(pm: PagedModel, base: string, q: ListQuery)
    modifies pm`links
    ensures pm.links == old(pm.links) + CollectionLinks(base, q)
  {
    var self := LinkTo(base, "self", Listing(q));
    var create := Link("create", HrefOf(base, Collection), Some("application/json"));
    var pending := LinkTo(base, "search-pending", Listing(q.(status := Some(Pending))));
    var inProgress := LinkTo(base, "search-in-progress", Listing(q.(status := Some(InProgress))));
    var completed := LinkTo(base, "search-completed", Listing(q.(status := Some(Completed))));
    pm.Add(self);
    pm.Add(create);
    pm.Add(pending);
    pm.Add(inProgress);
    pm.Add(completed);
    assert pm.links == old(pm.links) + [self, create, pending, inProgress, completed];
    assert [self, create, pending, inProgress, completed] == CollectionLinks(base, q);
  }

  /** The collection handler. The links the pagination assembler adds itself
      are given as `assemblerLinks`; the handler appends its own five. */
  method GetAllChangeRequests(repo: ChangeRequestRepository, base: string,
                              page: int, size: int, sortBy: string, sortDir: string,
                              status: Option<Status>, assemblerLinks: seq<Link>)
    returns (pm: PagedModel)
    requires repo.Valid()
    requires page >= 0 && size >= 1 && HasText(sortBy)
    ensures fresh(pm)
    ensures var pg := Fetch(repo, status, Pageable(page, size, SortFor(sortBy, sortDir)));
      && pm.content == Presentations(base, pg.content)
      && pm.metadata == PageMetadata(pg.size, pg.totalElements, pg.totalPages, pg.number)
    ensures pm.links == assemblerLinks + CollectionLinks(base, ListQuery(page, size, sortBy, sortDir, status))
  {
    var sort := SortFor(sortBy, sortDir);
    var pageable := Pageable(page, size, sort);
    var changeRequests: Page;
    if status.Some? {
      changeRequests := repo.FindByStatus(status.value, pageable);
    } else {
      changeRequests := repo.FindAll(pageable);
    }
    assert changeRequests == Fetch(repo, status, pageable);
    var metadata := PageMetadata(changeRequests.size, changeRequests.totalElements,
                                 changeRequests.totalPages, changeRequests.number);
    pm := new PagedModel(Presentations(base, changeRequests.content), metadata, assemblerLinks);
    var q := ListQuery(page, size, sortBy, sortDir, status);
    AddCollectionLinks(pm, base, q);
  }

  // ---------------------------------------------------------------------------
  // Single-record handlers
  // ---------------------------------------------------------------------------

  /** GET of one record: its presentation when it is stored, 404 otherwise. */
  method GetChangeRequest(repo: ChangeRequestRepository, base: string, id: int) returns (resp: Response)
    requires repo.Valid()
    ensures resp.Success? <==> id in repo.records
    ensures resp.Success? ==> resp.model == ToEntityModel(base, repo.records[id])
    ensures resp.Success? ==> resp.model.content == Presented(repo.records[id])
    ensures resp.Success? ==> RoutedId(resp.model.links[0].href) == Some(id)
    ensures !resp.Success? ==> resp == NotFound
  {
    var found := repo.FindById(id);
    if found.Some? {
      resp := Success(ToEntityModel(base, found.value));
    } else {
      resp := NotFound;
    }
  }

  /** POST: saves the body as it was read from the request and presents what
      was stored; a body without a title or a requester is refused by the
      store and nothing is written. */
  method CreateChangeRequest(repo: ChangeRequestRepository, base: string, body: ChangeRequest, now: Instant)
    returns (resp: Response)
    requires repo.Valid()
    modifies repo, body
    ensures repo.Valid()
    ensures match SaveOf(old(repo.records), old(repo.nextId), old(body.Value()), now)
      case Saved(s, rs, n) => resp == Success(ToEntityModel(base, s)) && repo.records == rs && repo.nextId == n
      case Refused(err) => resp == Failed(err) && repo.records == old(repo.records) && repo.nextId == old(repo.nextId)
    ensures old(body.id).None? && !NotNullColumnsSet(old(body.Value())) ==>
      resp == Failed(NullColumn) && repo.records == old(repo.records)
    ensures old(body.id).None? && NotNullColumnsSet(old(body.Value())) ==>
      && resp.Success? && resp.model.content == Presented(old(body.Value())).(id := resp.model.content.id)
      && resp.model.content.id.Some? && resp.model.content.id.value !in old(repo.records)
      && RoutedId(resp.model.links[0].href) == resp.model.content.id
      && repo.FindById(resp.model.content.id.value) == Some(old(body.Value()).(id := resp.model.content.id))
  {
    var saved := repo.Save(body, now);
    match saved
    case Ok(s) =>
      resp := Success(ToEntityModel(base, s));
    case Err(e) =>
      resp := Failed(e);
  }

  /** PUT: 404 without touching anything when the identifier is not stored;
      otherwise the body takes the path's identifier and is saved over the
      stored record, which the store refuses when the body has no title or
      no requester. */
  method UpdateChangeRequest(repo: ChangeRequestRepository, base: string, id: int, body: ChangeRequest, now: Instant)
    returns (resp: Response)
    requires repo.Valid()
    modifies repo, body
    ensures repo.Valid()
    ensures id !in old(repo.records) ==>
      && resp == NotFound
      && repo.records == old(repo.records) && repo.nextId == old(repo.nextId)
      && body.Value() == old(body.Value())
    ensures id in old(repo.records) ==>
      && body.Value() == old(body.Value()).(id := Some(id))
      && match SaveOf(old(repo.records), old(repo.nextId), old(body.Value()).(id := Some(id)), now)
        case Saved(s, rs, n) => resp == Success(ToEntityModel(base, s)) && repo.records == rs && repo.nextId == n
        case Refused(err) => resp == Failed(err) && repo.records == old(repo.records) && repo.nextId == old(repo.nextId)
    ensures id in old(repo.records) ==>
      (resp.Success? <==> NotNullColumnsSet(old(body.Value())))
      && (!resp.Success? ==> resp == Failed(NullColumn))
    ensures resp.Success? ==>
      && resp.model.content.id == Some(id)
      && RoutedId(resp.model.links[0].href) == Some(id)
      && repo.records.Keys == old(repo.records.Keys)
  {
    if !repo.ExistsById(id) {
      return NotFound;
    }
    body.SetId(Some(id));
    var updated := repo.Save(body, now);
    match updated
    case Ok(s) =>
      resp := Success(ToEntityModel(base, s));
    case Err(e) =>
      resp := Failed(e);
  }

  /** DELETE: 404 without touching anything when the identifier is not
      stored; otherwise that record, and only it, is removed. */
  method DeleteChangeRequest(repo: ChangeRequestRepository, id: int) returns (resp: Response)
    requires repo.Valid()
    modifies repo
    ensures repo.Valid()
    ensures resp == (if id in old(repo.records) then NoContent else NotFound)
    ensures repo.records == old(repo.records) - {id} && repo.nextId == old(repo.nextId)
    ensures id !in repo.records
  {
    if !repo.ExistsById(id) {
      return NotFound;
    }
    repo.DeleteById(id);
    resp := NoContent;
  }

  /** An update under a stored identifier keeps the body's creation time,
      which the entity's initialiser set when the request was read, and
      stamps the modification time: the stored creation time is lost. */
  lemma UpdateReplacesCreationTime(records: map<int, Record>, nextId: int, id: int, body: Record, now: Instant)
    requires WellKeyed(records, nextId) && id in records && NotNullColumnsSet(body)
    requires body.createdAt != records[id].createdAt
    ensures var o := SaveOf(records, nextId, body.(id := Some(id)), now);
      && o.Saved? && o.stored.createdAt == body.createdAt
      && o.stored.updatedAt == Some(now)
      && o.records[id].createdAt != records[id].createdAt
  {
  }

  /** Creating, then reading under the identifier the self link carries,
      gives back the created record's presentation. */
  lemma CreateThenGet(records: map<int, Record>, nextId: int, body: Record, now: Instant, base: string)
    requires WellKeyed(records, nextId) && body.id.None? && NotNullColumnsSet(body)
    ensures var o := SaveOf(records, nextId, body, now);
      && o.Saved?
      && var created := ToEntityModel(base, o.stored);
      && RoutedId(created.links[0].href).Some?
      && var id := RoutedId(created.links[0].href).value;
      && id in o.records && ToEntityModel(base, o.records[id]) == created
  {
  }
}
