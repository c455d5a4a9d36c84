# Change requests over hypermedia: a Dafny model

This project models the core of a small hypermedia service for change
requests, together with the pure helpers of its browser front end.

- **Backend.** The service stores change requests. Each one has a title, a
  description, a requester, a status out of five, and two timestamps.
  Every response carries links that tell the client what it can do next.
  - `Model` covers the `ChangeRequest` entity: the `Status` enumeration,
    the mutable entity object with its constructors, setters and
    `@PreUpdate` callback, the fields that clients see, and the field
    bounds the entity declares.
  - `Repository` covers the store. It is a map from identifier to record
    plus the next identity to hand out, with `save` and `deleteById` as
    methods. The derived queries (by status, by requester, by title
    fragment, count by status) and the page envelope they return are
    functions over that map.
  - `LinkBuilder` turns a relation name and a target into a link. The
    target is the bare collection, a call of the collection handler with
    its arguments, or one record. It also defines the four links of a
    record and the five links the collection handler adds to a page.
  - `Controller` covers the handlers: list (sort choice, dispatch, links
    appended one at a time to the paged model), get, create, update and
    delete. Update and delete check for the identifier before they touch
    the store.
  - `Root` covers the entry point, a resource with a single link to the
    collection.
- **Front end.**
  - `AIProvider` covers `stripCodeFences`, which removes a Markdown fence
    anchored at the start and at the end of the text and then trims it.
    It also covers `processAndValidateContent`, which wraps the result.
  - `SkullsApp` covers the mock explorer. JSON values are modelled with
    objects as insertion-ordered property lists. It models how
    `extractLinks` merges `_links`, `links` and `href`, how a relation
    becomes a button (label, verb, target), which properties
    `renderResource` shows and in what order, and which entries
    `renderEmbeddedData` shows.

Hrefs are values `Href(base, path, query)` over an abstract base URI. For a
call of the collection handler, the query holds that call's arguments.
`Location` is the text of base plus path, so `http://localhost` gives
`http://localhost/change-requests/7` for record 7. Clock readings are
integers passed in as parameters.

Behaviour of the code that the model keeps:
- The handler adds no `prev` link to a page of its own. The `next`/`prev`
  links come from the pagination assembler and are not modelled (see
  "Left out").
- An update saves the request body over the stored record. The body's
  creation time was set when the request was read, and the column is
  updatable, so the stored creation time is replaced by it
  (`Controller.UpdateReplacesCreationTime`).
- The modification time is refreshed only when the merged state differs
  from the stored one, because `@PreUpdate` only runs on a dirty entity.
- Creating from a body that carries an identifier the store does not hold
  fails as a stale merge (`StaleEntity`). It does not create a record.
- The title, requester and creation-time columns are declared not null, so
  the store refuses a body that leaves the title or the requester out
  (`NullColumn`). The handlers do not check this themselves, so a create or
  update with such a body fails and writes nothing.

## Model

| member | source | states |
|---|---|---|
| `Model.Values` | hate/src/main/java/com/hateskulls/hate/model/ChangeRequest.java:78-80 | `Status` has exactly five distinct constants, and each sits at its ordinal |
| `Model.Ordinal` | hate/src/main/java/com/hateskulls/hate/model/ChangeRequest.java:78-80 | each constant's declaration position is below five |
| `Model.ValueOf` | hate/src/main/java/com/hateskulls/hate/model/ChangeRequest.java:78-80 | looking up a name gives back only the constant with exactly that name |
| `Model.ValueOfName` | hate/src/main/java/com/hateskulls/hate/model/ChangeRequest.java:78-80 | every constant is found again under its own name, so names identify constants |
| `Model.ChangeRequest.constructor` | hate/src/main/java/com/hateskulls/hate/model/ChangeRequest.java:14-42 | a new entity has status PENDING, creation time now, and every other field null |
| `Model.ChangeRequest.Of` | hate/src/main/java/com/hateskulls/hate/model/ChangeRequest.java:45-49 | the three-argument constructor sets exactly title, description and requester; the id stays null and the status is PENDING |
| `Model.ChangeRequest.SetId` | hate/src/main/java/com/hateskulls/hate/model/ChangeRequest.java:53 | changes the id and no other field |
| `Model.ChangeRequest.SetTitle` | hate/src/main/java/com/hateskulls/hate/model/ChangeRequest.java:56 | changes the title and no other field |
| `Model.ChangeRequest.SetDescription` | hate/src/main/java/com/hateskulls/hate/model/ChangeRequest.java:59 | changes the description and no other field |
| `Model.ChangeRequest.SetStatus` | hate/src/main/java/com/hateskulls/hate/model/ChangeRequest.java:62 | changes the status and no other field |
| `Model.ChangeRequest.SetRequestedBy` | hate/src/main/java/com/hateskulls/hate/model/ChangeRequest.java:65 | changes the requester and no other field |
| `Model.ChangeRequest.SetCreatedAt` | hate/src/main/java/com/hateskulls/hate/model/ChangeRequest.java:68 | changes the creation time and no other field |
| `Model.ChangeRequest.SetUpdatedAt` | hate/src/main/java/com/hateskulls/hate/model/ChangeRequest.java:71 | changes the modification time and no other field |
| `Model.ChangeRequest.PreUpdate` | hate/src/main/java/com/hateskulls/hate/model/ChangeRequest.java:73-76 | sets the modification time to the supplied clock value and leaves every other field as it was |
| `Model.Stamped` | hate/src/main/java/com/hateskulls/hate/model/ChangeRequest.java:73-76 | the value the callback leaves: modification time is now, and undoing that one field gives back the original |
| `Model.PresentedIgnoresOnlyTimestamps` | hate/src/main/java/com/hateskulls/hate/model/ChangeRequest.java:33-39 | two records look the same to clients exactly when they differ at most in their two timestamps |
| `Model.Violations` | hate/src/main/java/com/hateskulls/hate/model/ChangeRequest.java:16-31 | no constraint is broken iff the title is non-blank with 3 to 100 characters, the description has at most 1000, and the requester is non-blank with 2 to 50 |
| `Model.ViolationsIgnoreBookkeeping` | hate/src/main/java/com/hateskulls/hate/model/ChangeRequest.java:14-39 | id, status and timestamps carry no constraint |
| `Model.NullTitleIsOnlyRequired` | hate/src/main/java/com/hateskulls/hate/model/ChangeRequest.java:16-19 | a null title breaks `@NotBlank` but passes `@Size` |
| `Model.BlankShortTitleBreaksBoth` | hate/src/main/java/com/hateskulls/hate/model/ChangeRequest.java:16-19 | a title of two spaces breaks both title constraints |
| `Repository.ChangeRequestRepository.FindById` | hate/src/main/java/com/hateskulls/hate/repository/ChangeRequestRepository.java:14 | finds something iff the identifier is stored, and then exactly the record stored under it |
| `Repository.ChangeRequestRepository.ExistsById` | hate/src/main/java/com/hateskulls/hate/repository/ChangeRequestRepository.java:14 | true iff some stored record carries the identifier |
| `Repository.ChangeRequestRepository.FindAll` | hate/src/main/java/com/hateskulls/hate/repository/ChangeRequestRepository.java:14 | the page `Query` gives for every stored record: at most `size` stored records, with the number of stored records as total |
| `Repository.ChangeRequestRepository.FindByStatus` | hate/src/main/java/com/hateskulls/hate/repository/ChangeRequestRepository.java:17 | the page `Query` gives for that status: only stored records with that status, with `countByStatus` as total |
| `Repository.ChangeRequestRepository.FindByRequestedBy` | hate/src/main/java/com/hateskulls/hate/repository/ChangeRequestRepository.java:20 | the page `Query` gives for that requester: only stored records with that requester, with the number of such records as total |
| `Repository.ChangeRequestRepository.FindByTitleContainingIgnoreCase` | hate/src/main/java/com/hateskulls/hate/repository/ChangeRequestRepository.java:23-24 | the page `Query` gives for the fragment: only stored records whose lower-cased title contains the lower-cased fragment, with the number of such records as total |
| `Repository.ChangeRequestRepository.CountByStatus` | hate/src/main/java/com/hateskulls/hate/repository/ChangeRequestRepository.java:27 | the number of stored records with that status |
| `Repository.ChangeRequestRepository.Save` | hate/src/main/java/com/hateskulls/hate/repository/ChangeRequestRepository.java:14 | the store and the entity end as `SaveOf` describes: a new entity gets its fresh id in place; a refused one (stale, or a null in a not-null column) changes nothing and reports why |
| `Repository.ChangeRequestRepository.DeleteById` | hate/src/main/java/com/hateskulls/hate/repository/ChangeRequestRepository.java:14 | removes exactly that identifier, after which `FindById` finds nothing |
| `Repository.SaveOf` | hate/src/main/java/com/hateskulls/hate/repository/ChangeRequestRepository.java:14 | refused iff the id is unknown (stale) or a not-null column (title, requester, creation time) is null, the stale case first; otherwise without id: stored under an identity the store did not hold; with a stored id: replaced under the same id, stamped with the clock iff it differs from the stored record; what is stored always has its not-null columns set |
| `Repository.SaveNewIsFound` | hate/src/test/java/com/hateskulls/hate/integration/ChangeRequestIntegrationTest.java:57-61 | a new entity with its not-null columns set gets a fresh id, is found under it, and is presented with the fields it was given |
| `Repository.SaveExistingReplaces` | hate/src/test/java/com/hateskulls/hate/integration/ChangeRequestIntegrationTest.java:76-84 | saving an entity with its not-null columns set under a stored id keeps the id and the key set, stores the entity's fields, and leaves other records alone |
| `Repository.Ordered` | hate/src/main/java/com/hateskulls/hate/controller/ChangeRequestController.java:40-43 | exactly the selected records, each once, strictly increasing by id when ascending and decreasing when descending |
| `Repository.PageOf` | hate/src/main/java/com/hateskulls/hate/repository/ChangeRequestRepository.java:17 | at most `size` items, taken from the right offset; the total is the full count and total pages is the ceiling of count over size; the page is non-empty iff its index is below total pages |
| `Repository.Query` | hate/src/main/java/com/hateskulls/hate/repository/ChangeRequestRepository.java:17-24 | a page of stored records that all meet the criterion, with the number of matches as total, total pages the ceiling of that number over the size, the page index and size asked for, and the requested order |
| `Repository.QueryWindow` | hate/src/main/java/com/hateskulls/hate/repository/ChangeRequestRepository.java:17-24 | the page is the slice of the ordered matches that starts at page × size, as long as the matches allow and at most `size`; it is non-empty iff the index is below total pages |
| `Repository.QueryFindsEveryMatch` | hate/src/main/java/com/hateskulls/hate/repository/ChangeRequestRepository.java:17-24 | every stored record that meets the criterion is on some page below total pages |
| `Repository.TitleSearchFindsEveryMatch` | hate/src/main/java/com/hateskulls/hate/repository/ChangeRequestRepository.java:23-24 | every stored record whose lower-cased title contains the lower-cased fragment is found on some page |
| `Repository.FirstPageHoldsEveryMatch` | hate/src/main/java/com/hateskulls/hate/repository/ChangeRequestRepository.java:17-24 | when the matches fit in one page, page 0 holds every one of them |
| `Repository.FiveRecordsInPagesOfThree` | hate/src/test/java/com/hateskulls/hate/integration/ChangeRequestIntegrationTest.java:104-111 | five records, page 0, size 3: three items, five in total, two pages, and a page after the first |
| `Repository.PagePastTheEndIsEmpty` | hate/src/main/java/com/hateskulls/hate/controller/ChangeRequestController.java:43 | a page index past the end gives an empty page with the full total, not an error |
| `Repository.StatusQueryScenario` | hate/src/test/java/com/hateskulls/hate/integration/ChangeRequestIntegrationTest.java:133-139 | with one PENDING and one APPROVED record, the PENDING query yields exactly the PENDING one |
| `Repository.TitleLikeAsWritten` | hate/src/main/java/com/hateskulls/hate/repository/ChangeRequestRepository.java:23-24 | the LIKE query as written never misses a title that contains the fragment, ignoring case, and never matches a null title |
| `Repository.TitleLikeAgreesWhenLiteral` | hate/src/main/java/com/hateskulls/hate/repository/ChangeRequestRepository.java:23-24 | when the fragment has no `%` or `_`, the LIKE query as written selects exactly the titles that contain the fragment, ignoring case |
| `Repository.UnderscoreFragmentMatchesNonSubstring` | hate/src/main/java/com/hateskulls/hate/repository/ChangeRequestRepository.java:23-24 | the query as written finds "abc" for the fragment "a_c", which is not a substring |
| `LinkBuilder.HrefOf` | hate/src/main/java/com/hateskulls/hate/controller/ChangeRequestController.java:123-130 | a record's href routes back to its id; the collection's href is the bare collection; a listing href is the collection plus the call's arguments |
| `LinkBuilder.ItemLinks` | hate/src/main/java/com/hateskulls/hate/controller/ChangeRequestController.java:121-131 | a record carries `self`, `all-change-requests`, `update`, `delete`, in that order, each once; all but the second route to its id, and the second is a listing |
| `LinkBuilder.ItemLinksShareRecordUri` | hate/src/main/java/com/hateskulls/hate/controller/ChangeRequestController.java:123-130 | `self`, `update` and `delete` share one href: base, `/change-requests/`, then the id |
| `LinkBuilder.CollectionLinkIsFixed` | hate/src/main/java/com/hateskulls/hate/controller/ChangeRequestController.java:125-126 | `all-change-requests` is the same for every record: page 0, size 10, `id`, `desc`, no status |
| `LinkBuilder.RecordUrisDistinct` | hate/src/main/java/com/hateskulls/hate/controller/ChangeRequestController.java:123-124 | two records' hrefs are equal iff their ids are |
| `LinkBuilder.CollectionLinks` | hate/src/main/java/com/hateskulls/hate/controller/ChangeRequestController.java:55-71 | the handler adds `self`, `create`, `search-pending`, `search-in-progress`, `search-completed`, in that order, each once, all at the bare collection path and none routed to a record |
| `LinkBuilder.SelfAndCreate` | hate/src/main/java/com/hateskulls/hate/controller/ChangeRequestController.java:55-60 | `self` repeats the request's arguments; `create` is the bare collection typed `application/json` |
| `LinkBuilder.SearchesDifferFromSelfOnlyInStatus` | hate/src/main/java/com/hateskulls/hate/controller/ChangeRequestController.java:63-71 | each search keeps page, size and sort, and differs from `self` only in its forced status |
| `LinkBuilder.SearchesIgnoreActiveFilter` | hate/src/main/java/com/hateskulls/hate/controller/ChangeRequestController.java:63-71 | the three searches are the same whatever filter is active |
| `Controller.ToEntityModel` | hate/src/main/java/com/hateskulls/hate/controller/ChangeRequestController.java:121-131 | a record is presented with its visible fields and its four links; `self` routes to its id and `update`/`delete` equal `self` |
| `Controller.PresentationsOfDistinctRecordsDiffer` | hate/src/main/java/com/hateskulls/hate/controller/ChangeRequestController.java:121-124 | records with different ids get different `self` links |
| `Controller.SortFor` | hate/src/main/java/com/hateskulls/hate/controller/ChangeRequestController.java:40-41 | sorts by `sortBy`; descending iff `sortDir` equals `desc` ignoring case |
| `Controller.SortDirections` | hate/src/main/java/com/hateskulls/hate/controller/ChangeRequestController.java:40-41 | `desc`, `DESC`, `dEsC` sort descending; `asc`, the empty text and `descending` sort ascending |
| `Controller.Fetch` | hate/src/main/java/com/hateskulls/hate/controller/ChangeRequestController.java:46-50 | the page `Query` gives for the status when there is one, for every record otherwise; with a status, counted by `countByStatus`; each record is the one stored under its id |
| `Controller.Presentations` | hate/src/main/java/com/hateskulls/hate/controller/ChangeRequestController.java:52 | one presentation per record of the page, in the page's order |
| `Controller.PagedModel.constructor` | hate/src/main/java/com/hateskulls/hate/controller/ChangeRequestController.java:52 | the assembled page holds the given presentations, metadata and links |
| `Controller.PagedModel.Add` | hate/src/main/java/com/hateskulls/hate/controller/ChangeRequestController.java:55-71 | appends one link and changes nothing else (content and metadata are fixed when the page is built) |
| `Controller.AddCollectionLinks` | hate/src/main/java/com/hateskulls/hate/controller/ChangeRequestController.java:55-71 | appends exactly the five collection links, in order, to the links already on the page |
| `Controller.GetAllChangeRequests` | hate/src/main/java/com/hateskulls/hate/controller/ChangeRequestController.java:33-74 | the page fetched for the request's sort and filter, presented in order with its metadata; the links are the assembler's followed by the five collection links |
| `Controller.GetChangeRequest` | hate/src/main/java/com/hateskulls/hate/controller/ChangeRequestController.java:77-86 | success iff the id is stored, presenting that record with `self` routed to the id; not-found otherwise |
| `Controller.CreateChangeRequest` | hate/src/main/java/com/hateskulls/hate/controller/ChangeRequestController.java:89-93 | the store and response follow `SaveOf`; a body without id whose title and requester are set is stored under a fresh id and presented with it, and is then found under that id; a body without id missing either is refused (`NullColumn`) and nothing is written |
| `Controller.UpdateChangeRequest` | hate/src/main/java/com/hateskulls/hate/controller/ChangeRequestController.java:96-107 | absent id: not-found, store and body untouched; present id: the body takes the path id and the store and response follow `SaveOf`; it succeeds iff the title, requester and creation time are set, else fails with `NullColumn` and writes nothing; a success carries the path id and keeps the key set |
| `Controller.DeleteChangeRequest` | hate/src/main/java/com/hateskulls/hate/controller/ChangeRequestController.java:110-118 | absent id: not-found and the store unchanged; present id: no content, and exactly that record is gone |
| `Controller.UpdateReplacesCreationTime` | hate/src/main/java/com/hateskulls/hate/controller/ChangeRequestController.java:104-105 | an update with a complete body stores the body's creation time over the stored one, and stamps the modification time |
| `Controller.CreateThenGet` | hate/src/test/java/com/hateskulls/hate/integration/ChangeRequestIntegrationTest.java:46-65 | for a body with its not-null columns set, following the created record's `self` id leads back to the same presentation |
| `Root.RootResource` | hate/src/main/java/com/hateskulls/hate/controller/RootController.java:13-19 | exactly one link, relation `change-requests`, no query or type, at base + `/change-requests` |
| `Root.RootLinkIsCreateTarget` | hate/src/main/java/com/hateskulls/hate/controller/RootController.java:17 | the root link's href equals the collection's `create` href |
| `Root.RootUnderLocalhost` | hate/src/test/java/com/hateskulls/hate/controller/RootControllerTest.java:26 | under `http://localhost` the link is `http://localhost/change-requests` |
| `AIProvider.Trim` | skulls/ai/AIProvider.js:72 | the result sits inside the input with only whitespace around it, and has no whitespace at either end |
| `AIProvider.TrimKeepsTrimmed` | skulls/ai/AIProvider.js:72 | text without whitespace at its ends is left unchanged |
| `AIProvider.OpeningFenceLength` | skulls/ai/AIProvider.js:70 | removes nothing iff the text does not start with three backticks; otherwise the longest match of backticks, word characters and an optional newline |
| `AIProvider.ClosingFenceLength` | skulls/ai/AIProvider.js:71 | removes nothing iff the text does not end with three backticks; otherwise the longest match of an optional newline and the backticks |
| `AIProvider.StripCodeFences` | skulls/ai/AIProvider.js:68-73 | the fence-stripped text trimmed: no whitespace at either end, never longer than the input |
| `AIProvider.NoFenceOnlyTrimmed` | skulls/ai/AIProvider.js:69-72 | input with no fence at either end is only trimmed |
| `AIProvider.FencedBlockGivesBody` | skulls/ai/AIProvider.js:68-73 | a block fenced with a language tag and newlines gives back its body, trimmed |
| `AIProvider.LeadingWhitespaceKeepsOpeningFence` | skulls/ai/AIProvider.js:70-72 | whitespace before the opening fence keeps that fence in the result, when the text after the whitespace is longer than a bare fence (at least 7 characters) |
| `AIProvider.TrailingNewlineKeepsClosingFence` | skulls/ai/AIProvider.js:70-72 | a newline after the closing fence keeps that fence in the result, when the text before the newline has at least 6 characters |
| `AIProvider.ProcessAndValidateContent` | skulls/ai/AIProvider.js:57-61 | the only field `html` is the fence-stripped content |
| `SkullsApp.Put` | skulls/app.js:156 | assigning a property sets it, leaves every other property and the key order alone, and appends only a new key |
| `SkullsApp.Assign` | skulls/app.js:145-152 | after `Object.assign` every key has the source's last value if the source has it, the target's otherwise; keys stay distinct |
| `SkullsApp.LinksOf` | skulls/app.js:141-160 | fails exactly on null data; otherwise a link map without repeated keys |
| `SkullsApp.LinksFollowPrecedence` | skulls/app.js:145-157 | each relation resolves to a truthy root `href` for `self`, else to `links`, else to `_links` |
| `SkullsApp.NoLinkSourcesNoLinks` | skulls/app.js:141-160 | with no `_links`, `links` or `href` the result is empty |
| `SkullsApp.ExtractLinks` | skulls/app.js:141-160 | the in-place merge yields the same map as `LinksOf` |
| `SkullsApp.Label` | skulls/app.js:96 | same length; a space exactly where the relation has a space, `-` or `_`; lower-case letters upper-cased; every other character kept |
| `SkullsApp.LabelIdempotent` | skulls/app.js:96 | labelling a label changes nothing |
| `SkullsApp.InferredMethod` | skulls/app.js:84-93 | POST iff the relation is `create`; PUT iff `update` or `edit`; DELETE iff `delete`; GET iff none of these |
| `SkullsApp.InferredVerbs` | skulls/app.js:84-93 | `create` gives POST, `update` PUT, `delete` DELETE, and `self`, `all-change-requests` and the searches GET |
| `SkullsApp.ServiceRelationsGetTheirVerbs` | skulls/app.js:84-93 | the service's item links get GET, GET, PUT, DELETE and its page links GET, POST, GET, GET, GET |
| `SkullsApp.MethodFor` | skulls/app.js:84-93 | a truthy `method` on a link object wins; otherwise the verb the relation implies |
| `SkullsApp.ActionFor` | skulls/app.js:80-97 | the button has the relation and its label; its target is a string link itself, an object's last `href`, nothing otherwise; its verb is a truthy `method` of an object, else the verb the relation implies |
| `SkullsApp.PlainLinksUseInferredVerb` | skulls/app.js:81-93 | a string link, or an object without `method`, uses the inferred verb; a string is its own target |
| `SkullsApp.ActionsOf` | skulls/app.js:80-98 | one button per link, in link order |
| `SkullsApp.RenderActions` | skulls/app.js:80-98 | the loop fails iff some link is null, otherwise yields `ActionsOf` |
| `SkullsApp.Rank` | skulls/app.js:182 | the position of a key in `id, title, name, description, status, type`, or 6 iff it is none of them |
| `SkullsApp.ImportantRows` | skulls/app.js:182-187 | exactly the defined important properties, in their fixed order |
| `SkullsApp.OtherRowsSelects` | skulls/app.js:190-194 | the other rows are exactly the entries that are not important, not `_links` and not objects, and no key repeats |
| `SkullsApp.ResourceRowsShape` | skulls/app.js:178-198 | important properties first in fixed order, all defined ones shown, the rest non-object non-`_links` own properties, no key twice |
| `SkullsApp.RenderResource` | skulls/app.js:178-198 | the two loops yield `ResourceRows`; a null resource throws |
| `SkullsApp.SectionPositions` | skulls/app.js:165-172 | the sections are, in order, those of the array-valued entries: a strictly increasing list of exactly the array entries' positions, with section `j` the label and rendered items of the `j`-th of them |
| `SkullsApp.SectionsMatchArrays` | skulls/app.js:165-172 | one section per array-valued entry, in entry order, each with its label and rendered items, and nothing else; hence each section is an array entry's and each array entry has one |
| `SkullsApp.NonArraysSkipped` | skulls/app.js:165-172 | entries that are not arrays give no section |
| `SkullsApp.RenderItems` | skulls/app.js:168-170 | each item rendered in array order; a null item throws |
| `SkullsApp.RenderEmbeddedData` | skulls/app.js:162-176 | the loop yields `SectionsOf` of the entries, or throws on a null item |
| `SkullsApp.Explore` | skulls/app.js:63-138 | fails iff the data is null, a link is null, or a truthy `_embedded` holds a null item; otherwise the notice iff there are no links, else the buttons of `ActionsOf`; the sections of `SectionsOf` iff `_embedded` is truthy; the rows of `ResourceRows` only without it and with a truthy `id`, `title` or `name` |
| `SkullsApp.NoLinkSourcesShowNotice` | skulls/app.js:76-102 | without `_links`, `links` or `href`, and with nothing that makes rendering throw, the "no hypermedia links" branch is taken, with or without embedded data |
| `SkullsApp.MockAIGeneration` | skulls/app.js:63-138 | the method yields what `Explore` describes |

## Findings

| source | as written | input that shows it | evidently intended | confidence | as-written member | corrected member |
|---|---|---|---|---|---|---|
| hate/src/main/java/com/hateskulls/hate/repository/ChangeRequestRepository.java:23-24 | the LIKE pattern is built from the raw parameter, so `%` and `_` in it act as wildcards | title `abc`, fragment `a_c`: matched, though `a_c` is not part of `abc` | a case-insensitive substring search, as the method name says | medium, not executed | `Repository.UnderscoreFragmentMatchesNonSubstring` | `Repository.ChangeRequestRepository.FindByTitleContainingIgnoreCase` |

## Left out

- HTTP routing, status-code mapping and HAL/HAL-FORMS JSON serialisation, including the HAL-FORMS configuration class. Handler outcomes are `Success | NotFound | NoContent | Failed`.
- The query-string text of hrefs. The link builder derives it by reflection on handler methods, so a listing href keeps the handler's arguments as a value, not as encoded text.
- Links the pagination assembler adds itself (`self`, `next`, `prev`, `first`, `last`). Their rules are library behaviour that the code does not show. `Controller.GetAllChangeRequests` takes them as a parameter and puts the handler's five links after them. The condition for a `next` link is stated only as page arithmetic in `Repository.FiveRecordsInPagesOfThree`.
- Enforcing the field bounds in the handlers. The request bodies are not validated, so the bounds are a predicate on the record only.
- Identity generation is a counter for "an identity not yet used". The clock is a parameter. Transactions and store I/O failures other than the stale merge and a null in a not-null column are left out.
- Repository.Query: records are ordered by identifier in the requested direction, whatever property `sortBy` names. Ordering by another property is the store's contract and is not modelled.
- Controller.Fetch: states the identifier order only, for the same reason as `Repository.Query`.
- Controller.GetAllChangeRequests: requires a page index of at least 0, a size of at least 1 and a `sortBy` with text. With other arguments `PageRequest.of` or `Sort.by` throws `IllegalArgumentException` before the store is asked, and that error path is not modelled.
- Controller.HasText: `Character.isWhitespace` is modelled for the characters below 128 only, so a `sortBy` made of other whitespace (such as U+3000) counts as text here although `Sort.by` refuses it.
- A `sortBy` that names no property of the entity makes the store fail. The model accepts any name, because it orders by identifier (see `Repository.Query` above).
- Repository.Like: `%` and `_` are the only special characters, as in standard LIKE without an `ESCAPE` clause. Databases that treat `\` as a default escape character (H2, PostgreSQL, MySQL) would read a backslash in the fragment differently; that dialect is not modelled.
- Repository.SaveOf: a merge of an entity whose identifier the store does not hold fails as stale, which is what Hibernate ORM 6.6 and later do. Earlier versions insert a new record instead; that behaviour is not modelled.
- Repository.SaveOf: of the column declarations only `nullable = false` is modelled. Column lengths (1000 for the description, the default 255 for the title and the requester) are not, nor is the Bean Validation check that Hibernate runs before a write when a validator is on the classpath; a body that breaks `Model.Violations` but has its not-null columns set is stored here.
- JSON objects are lists of properties and may repeat a name, which `JSON.parse` never produces. `Property` reads the last occurrence as `JSON.parse` would keep it, but `Entries` and the rows built from them would list a repeated name twice; the app's values are taken to come from `JSON.parse`.
- The texts of the validation messages are not modelled; `Model.Violations` names which constraint is broken.
- Case mapping (`equalsIgnoreCase`, SQL `LOWER`, `toUpperCase`) is ASCII only. Strings are sequences of Unicode scalars, not UTF-16 code units.
- SkullsApp.Explore, together with SkullsApp.RenderActions, SkullsApp.RenderResource, SkullsApp.RenderItems, SkullsApp.RenderEmbeddedData and SkullsApp.MockAIGeneration: turning a shown value into text inside a template literal (app.js:95-96 for a link's href and method, app.js:185 for a property value) is not modelled. An object value whose own `toString` is not a function, such as `{"toString": 1}`, makes that conversion throw a TypeError, so for such data the source fails where these members return `Ok`; their failure conditions cover null data, null links and null embedded items only.
- JavaScript numbers are integers, object property order is insertion order (integer-like keys are not moved first), and inherited prototype properties are not modelled.
- The literal HTML and CSS text, including the raw `JSON.stringify` dump, is not modelled. The DOM and `fetch` methods of the app are left out: constructor, `init`, `discoverAPI`, `generateUI`, `followLink`, `showLoading`, `hideLoading`, `showError`.
- The provider calls are left out because they are asynchronous I/O: `generateUI`, `callProviderAPI` and `getName` of the AI provider base class, and the OpenRouter provider. The Express server is left out too.
- Java `Long` overflow of identifiers and Java `int` overflow of page arithmetic are not modelled: integers are unbounded.
