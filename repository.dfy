/** The store of change requests: identity generation, save and delete, the
    derived queries and the page envelope they return. */
module Repository {
  import opened Common
  import opened Model

  // ---------------------------------------------------------------------------
  // Paging and sorting parameters
  // ---------------------------------------------------------------------------

  datatype Direction = Ascending | Descending

  /** Sort.by(property) with a direction. */
  datatype Sort = Sort(property: string, direction: Direction)

  /** PageRequest.of(page, size, sort): a zero-based page index and a page
      size, which PageRequest.of rejects when it is below one. */
  datatype Pageable = Pageable(page: nat, size: nat, sort: Sort)

  /** The page envelope: the slice of matching records plus where it sits in
      the whole. */
  datatype Page = Page(content: seq<Record>, number: nat, size: nat, totalElements: nat, totalPages: nat)

  /** What a query selects. */
  datatype Criterion =
    | Everything
    | StatusIs(status: Status)
    | RequestedByIs(requestedBy: Option<string>)
    | TitleContains(fragment: string)

  /** Why the store refuses to save: a merge of an identifier it does not
      hold, or a null in a column declared `nullable = false`. */
  datatype StoreError = StaleEntity | NullColumn

  // ---------------------------------------------------------------------------
  // Title search
  // ---------------------------------------------------------------------------

  /** SQL LIKE: '%' stands for any run of characters, '_' for any single
      character, and every other character for itself. */
  function Like(s: string, pattern: string): bool
    decreases |s| + |pattern|
  {
    if pattern == [] then s == []
    else if pattern[0] == '%' then Like(s, pattern[1..]) || (s != [] && Like(s[1..], pattern))
    else s != [] && (pattern[0] == '_' || pattern[0] == s[0]) && Like(s[1..], pattern[1..])
  }

  /** The title query as written: LOWER(title) LIKE LOWER('%' || fragment || '%'),
      with the fragment's own '%' and '_' left unescaped. A null title never
      matches. The wildcards only ever add matches: every title that really
      contains the fragment is found. */
  predicate TitleLikeAsWritten(title: Option<string>, fragment: string): (b: bool)
    ensures TitleContainsIgnoreCase(title, fragment) ==> b
    ensures b ==> title.Some?
  {
    if title.None? then false
    else
      LikeFindsOccurrence(LowerAscii(title.value), LowerAscii(fragment));
      Like(LowerAscii(title.value), "%" + LowerAscii(fragment) + "%")
  }

  /** The title search the query's name promises: the lower-cased title
      contains the lower-cased fragment. */
  predicate TitleContainsIgnoreCase(title: Option<string>, fragment: string) {
    title.Some? && Contains(LowerAscii(title.value), LowerAscii(fragment))
  }

  predicate Literal(p: string) {
    forall i | 0 <= i < |p| :: p[i] != '%' && p[i] != '_'
  }

  lemma {:induction false} LikeTrailingWildcard(s: string)
    ensures Like(s, "%")
    decreases |s|
  {
    if s != [] {
      LikeTrailingWildcard(s[1..]);
    }
  }

  /** A literal followed by '%' matches exactly the strings it begins. */
  lemma {:induction false} LikeLiteralPrefix(s: string, p: string)
    requires Literal(p)
    ensures Like(s, p + "%") <==> StartsWith(s, p)
    decreases |p|
  {
    if p == [] {
      LikeTrailingWildcard(s);
      assert p + "%" == "%";
    } else {
      assert (p + "%")[0] == p[0];
      assert (p + "%")[1..] == p[1..] + "%";
      if s != [] {
        LikeLiteralPrefix(s[1..], p[1..]);
        if StartsWith(s, p) {
          assert s[1..][..|p| - 1] == p[1..];
        }
      }
    }
  }

  /** A pattern matches its own text, followed by anything, through a
      trailing '%': each '%' and '_' of the pattern can stand for itself. */
  lemma {:induction false} LikeMatchesItself(p: string, rest: string)
    ensures Like(p + rest, p + "%")
    decreases |p|
  {
    if p == [] {
      assert p + rest == rest && p + "%" == "%";
      LikeTrailingWildcard(rest);
    } else {
      LikeMatchesItself(p[1..], rest);
      assert (p + rest)[1..] == p[1..] + rest;
      assert (p + "%")[1..] == p[1..] + "%";
      if p[0] == '%' {
        assert Like((p + rest)[1..], (p + "%")[1..]);
        assert Like((p + rest)[1..], p + "%");
      }
    }
  }

  /** '%' + p + '%' matches every text in which p occurs. */
  lemma LikeFindsOccurrence(s: string, p: string)
    ensures Contains(s, p) ==> Like(s, "%" + p + "%")
  {
    if Contains(s, p) {
      var i :| 0 <= i <= |s| - |p| && OccursAt(s, p, i);
      assert s[i..] == p + s[i + |p|..];
      LikeMatchesItself(p, s[i + |p|..]);
      assert "%" + p + "%" == "%" + (p + "%");
      LikeLeadingWildcard(s, p + "%");
    }
  }

  /** A leading '%' lets the rest match any suffix. */
  lemma {:induction false} LikeLeadingWildcard(s: string, q: string)
    ensures Like(s, "%" + q) <==> exists i | 0 <= i <= |s| :: Like(s[i..], q)
    decreases |s|
  {
    assert ("%" + q)[1..] == q;
    assert s[0..] == s;
    if s != [] {
      LikeLeadingWildcard(s[1..], q);
      if Like(s[1..], "%" + q) {
        var i :| 0 <= i <= |s[1..]| && Like(s[1..][i..], q);
        assert s[1..][i..] == s[i + 1..];
      }
      if exists i | 0 <= i <= |s| :: Like(s[i..], q) {
        var i :| 0 <= i <= |s| && Like(s[i..], q);
        if i > 0 {
          assert s[1..][i - 1..] == s[i..];
        }
      }
    }
  }

  /** Without '%' or '_' in the fragment, the query as written is the
      substring search its name promises. */
  lemma TitleLikeAgreesWhenLiteral(title: Option<string>, fragment: string)
    requires Literal(LowerAscii(fragment))
    ensures TitleLikeAsWritten(title, fragment) <==> TitleContainsIgnoreCase(title, fragment)
  {
    if title.Some? {
      var s := LowerAscii(title.value);
      var p := LowerAscii(fragment);
      assert "%" + p + "%" == "%" + (p + "%");
      LikeLeadingWildcard(s, p + "%");
      forall i | 0 <= i <= |s|
        ensures Like(s[i..], p + "%") <==> OccursAt(s, p, i)
      {
        LikeLiteralPrefix(s[i..], p);
        if StartsWith(s[i..], p) {
          assert s[i..][..|p|] == s[i..i + |p|];
        }
        if OccursAt(s, p, i) {
          assert s[i..][..|p|] == s[i..i + |p|];
        }
      }
    }
  }

  /** The wildcard leak: "a_c" is not part of "abc", yet the query as written
      finds "abc" when asked for "a_c". */
  lemma UnderscoreFragmentMatchesNonSubstring()
    ensures TitleLikeAsWritten(Some("abc"), "a_c")
    ensures !TitleContainsIgnoreCase(Some("abc"), "a_c")
  {
    assert LowerAscii("abc") == "abc";
    assert LowerAscii("a_c") == "a_c";
    assert "%" + "a_c" + "%" == "%a_c%";
    assert Like("", "%");
    assert Like("abc", "%a_c%") by {
      assert Like("", "%");
      assert Like("c", "c%");
      assert Like("bc", "_c%");
      assert Like("abc", "a_c%");
    }
    assert !OccursAt("abc", "a_c", 0);
  }

  // ---------------------------------------------------------------------------
  // Selection
  // ---------------------------------------------------------------------------

  /** Whether a record is selected: by status, by requester (a null requester
      selects records without one) or by title (the corrected search). */
  predicate Satisfies(r: Record, c: Criterion) {
    match c
    case Everything => true
    case StatusIs(s) => r.status == Some(s)
    case RequestedByIs(x) => r.requestedBy == x
    case TitleContains(t) => TitleContainsIgnoreCase(r.title, t)
  }

  /** Identities are positive, below the next one to be handed out, and every
      stored record carries its own key as its identifier. */
  predicate WellKeyed(records: map<int, Record>, nextId: int) {
    1 <= nextId && forall k | k in records :: 1 <= k < nextId && records[k].id == Some(k)
  }

  /** The number of stored records a criterion selects. */
  function Count(records: map<int, Record>, c: Criterion): nat {
    |set k | k in records && Satisfies(records[k], c)|
  }

  /** The selected identifiers below `bound`, in ascending order. */
  function MatchingIds(records: map<int, Record>, c: Criterion, bound: int): (ids: seq<int>)
    requires forall k | k in records :: 1 <= k
    ensures forall i | 0 <= i < |ids| :: ids[i] in records && ids[i] < bound && Satisfies(records[ids[i]], c)
    ensures forall k | k in records && k < bound && Satisfies(records[k], c) :: k in ids
    ensures forall i, j | 0 <= i < j < |ids| :: ids[i] < ids[j]
    decreases bound
  {
    if bound <= 1 then []
    else
      MatchingIds(records, c, bound - 1)
      + (if bound - 1 in records && Satisfies(records[bound - 1], c) then [bound - 1] else [])
  }

  lemma {:induction false} IncreasingSeqCard(ids: seq<int>)
    requires forall i, j | 0 <= i < j < |ids| :: ids[i] < ids[j]
    ensures |set x | x in ids| == |ids|
  {
    if ids != [] {
      var init := ids[..|ids| - 1];
      IncreasingSeqCard(init);
      assert (set x | x in ids) == (set x | x in init) + {ids[|ids| - 1]};
      assert ids[|ids| - 1] !in init;
    }
  }

  /** There are as many matching identifiers as selected records. */
  lemma MatchingIdsCount(records: map<int, Record>, nextId: int, c: Criterion)
    requires WellKeyed(records, nextId)
    ensures |MatchingIds(records, c, nextId)| == Count(records, c)
  {
    var ids := MatchingIds(records, c, nextId);
    IncreasingSeqCard(ids);
    assert (set x | x in ids) == (set k | k in records && Satisfies(records[k], c));
  }

  function Reversed<T>(s: seq<T>): (r: seq<T>)
    ensures |r| == |s|
    ensures forall i | 0 <= i < |s| :: r[i] == s[|s| - 1 - i]
  {
    if s == [] then [] else Reversed(s[1..]) + [s[0]]
  }

  /** The selected records in ascending order of identifier. */
  function Selected(records: map<int, Record>, nextId: int, c: Criterion): (rs: seq<Record>)
    requires WellKeyed(records, nextId)
    ensures |rs| == Count(records, c)
    ensures forall r | r in rs :: r.id.Some? && r.id.value in records && records[r.id.value] == r && Satisfies(r, c)
    ensures forall k | k in records && Satisfies(records[k], c) :: records[k] in rs
    ensures forall i, j | 0 <= i < j < |rs| :: rs[i].id.value < rs[j].id.value
  {
    var ids := MatchingIds(records, c, nextId);
    MatchingIdsCount(records, nextId, c);
    var rs := seq(|ids|, i requires 0 <= i < |ids| => records[ids[i]]);
    RecordsOfMatchingIds(records, nextId, c, ids, rs);
    rs
  }

  /** The records under the matching identifiers are the selected records,
      each once, in the identifiers' order. */
  lemma RecordsOfMatchingIds(records: map<int, Record>, nextId: int, c: Criterion, ids: seq<int>, rs: seq<Record>)
    requires WellKeyed(records, nextId) && ids == MatchingIds(records, c, nextId)
    requires |rs| == |ids| && forall i | 0 <= i < |ids| :: rs[i] == records[ids[i]]
    ensures forall r | r in rs :: r.id.Some? && r.id.value in records && records[r.id.value] == r && Satisfies(r, c)
    ensures forall k | k in records && Satisfies(records[k], c) :: records[k] in rs
    ensures forall i, j | 0 <= i < j < |rs| :: rs[i].id.value < rs[j].id.value
  {
    forall r | r in rs
      ensures r.id.Some? && r.id.value in records && records[r.id.value] == r && Satisfies(r, c)
    {
      var i :| 0 <= i < |rs| && rs[i] == r;
      assert ids[i] in records && records[ids[i]].id == Some(ids[i]);
    }
    forall k | k in records && Satisfies(records[k], c) ensures records[k] in rs {
      var i :| 0 <= i < |ids| && ids[i] == k;
      assert rs[i] == records[k];
    }
  }

  lemma ReversedElements<T>(s: seq<T>)
    ensures forall x :: x in Reversed(s) <==> x in s
  {
    var r := Reversed(s);
    forall x | x in r ensures x in s {
      var i :| 0 <= i < |r| && r[i] == x;
      assert s[|s| - 1 - i] == x;
    }
    forall x | x in s ensures x in r {
      var i :| 0 <= i < |s| && s[i] == x;
      assert r[|s| - 1 - i] == x;
    }
  }

  /** The selected records, ordered by identifier in the requested direction. */
  function Ordered(records: map<int, Record>, nextId: int, c: Criterion, dir: Direction): (rs: seq<Record>)
    requires WellKeyed(records, nextId)
    ensures |rs| == Count(records, c)
    ensures forall r | r in rs :: r.id.Some? && r.id.value in records && records[r.id.value] == r && Satisfies(r, c)
    ensures forall k | k in records && Satisfies(records[k], c) :: records[k] in rs
    ensures dir == Ascending ==> forall i, j | 0 <= i < j < |rs| :: rs[i].id.value < rs[j].id.value
    ensures dir == Descending ==> forall i, j | 0 <= i < j < |rs| :: rs[i].id.value > rs[j].id.value
  {
    var asc := Selected(records, nextId, c);
    ReversedElements(asc);
    if dir == Ascending then asc else Reversed(asc)
  }

  // ---------------------------------------------------------------------------
  // The page envelope
  // ---------------------------------------------------------------------------

  lemma CeilDivBounds(n: nat, d: nat)
    requires d >= 1
    ensures ((n + d - 1) / d) * d >= n
    ensures (n + d - 1) / d == 0 || ((n + d - 1) / d - 1) * d < n
  {
    var q := (n + d - 1) / d;
    var r := (n + d - 1) % d;
    assert n + d - 1 == q * d + r;
    assert (q - 1) * d == q * d - d;
  }

  /** Page `page` has something on it exactly when it starts before the end,
      that is, when it is one of the `totalPages` pages. */
  lemma MulMonotonic(a: nat, b: nat, c: nat)
    requires a <= b
    ensures a * c <= b * c
  {
    var d := b - a;
    assert b * c == a * c + d * c;
  }

  lemma PageInRange(page: nat, size: nat, n: nat, total: nat)
    requires size >= 1
    requires total * size >= n && (total == 0 || (total - 1) * size < n)
    ensures page < total <==> page * size < n
  {
    if page < total {
      MulMonotonic(page, total - 1, size);
    } else {
      MulMonotonic(total, page, size);
    }
  }

  /** Math.ceil(n / d) for a positive divisor. */
  function CeilDiv(n: nat, d: nat): (q: nat)
    requires d >= 1
    ensures q * d >= n
    ensures q == 0 || (q - 1) * d < n
  {
    CeilDivBounds(n, d);
    (n + d - 1) / d
  }

  /** The (at most) `size` elements of `all` from index `start` on. */
  function Window(all: seq<Record>, start: nat, size: nat): (w: seq<Record>)
    ensures |w| <= size
    ensures forall i | 0 <= i < |w| :: start + i < |all| && w[i] == all[start + i]
    ensures w != [] <==> start < |all| && size > 0
    ensures start + size <= |all| ==> |w| == size
    ensures start < |all| < start + size ==> |w| == |all| - start
  {
    var lo := if start < |all| then start else |all|;
    var hi := if lo + size < |all| then lo + size else |all|;
    all[lo..hi]
  }

  /** The index of the first element on the page. */
  function Offset(p: Pageable): nat {
    p.page * p.size
  }

  /** Page `p.page` of `all`, in pages of `p.size`. */
  function PageOf(all: seq<Record>, p: Pageable): (pg: Page)
    requires p.size >= 1
    ensures pg.number == p.page && pg.size == p.size && pg.totalElements == |all|
    ensures pg.totalPages == CeilDiv(|all|, p.size)
    ensures pg.totalPages * p.size >= |all|
    ensures pg.totalPages == 0 || (pg.totalPages - 1) * p.size < |all|
    ensures |pg.content| <= p.size
    ensures forall i | 0 <= i < |pg.content| :: Offset(p) + i < |all| && pg.content[i] == all[Offset(p) + i]
    ensures pg.content != [] <==> p.page < pg.totalPages
    ensures Offset(p) + p.size <= |all| ==> |pg.content| == p.size
    ensures Offset(p) < |all| < Offset(p) + p.size ==> |pg.content| == |all| - Offset(p)
  {
    var total := CeilDiv(|all|, p.size);
    PageInRange(p.page, p.size, |all|, total);
    Page(Window(all, Offset(p), p.size), p.page, p.size, |all|, total)
  }

  /** Five stored records, page 0 of size 3: three records on the page, five
      in all, two pages, and a page after this one (the condition under which
      a `next` link is expected). */
  lemma FiveRecordsInPagesOfThree(all: seq<Record>, p: Pageable)
    requires |all| == 5 && p.page == 0 && p.size == 3
    ensures |PageOf(all, p).content| == 3
    ensures PageOf(all, p).totalElements == 5
    ensures PageOf(all, p).totalPages == 2
    ensures PageOf(all, p).number + 1 < PageOf(all, p).totalPages
  {
    var pg := PageOf(all, p);
    assert pg.totalPages * 3 >= 5 && (pg.totalPages - 1) * 3 < 5;
  }

  /** A page index past the last page gives an empty page, not an error. */
  lemma PagePastTheEndIsEmpty(all: seq<Record>, p: Pageable)
    requires p.size >= 1 && Offset(p) >= |all|
    ensures PageOf(all, p).content == []
    ensures PageOf(all, p).totalElements == |all|
  {
  }

  /** What every query returns: page `p.page` of the selected records in
      the requested order (QueryWindow says which positions form the page,
      QueryFindsEveryMatch that no selected record is missed). */
  function Query(records: map<int, Record>, nextId: int, c: Criterion, p: Pageable): (pg: Page)
    requires WellKeyed(records, nextId) && p.size >= 1
    ensures pg.totalElements == Count(records, c)
    ensures |pg.content| <= p.size
    ensures forall r | r in pg.content :: r.id.Some? && r.id.value in records && records[r.id.value] == r && Satisfies(r, c)
    ensures pg.number == p.page && pg.size == p.size
    ensures pg.totalPages == CeilDiv(pg.totalElements, p.size)
    ensures p.sort.direction == Ascending ==>
      forall i, j | 0 <= i < j < |pg.content| :: pg.content[i].id.value < pg.content[j].id.value
    ensures p.sort.direction == Descending ==>
      forall i, j | 0 <= i < j < |pg.content| :: pg.content[i].id.value > pg.content[j].id.value
  {
    PageOf(Ordered(records, nextId, c, p.sort.direction), p)
  }

  /** The page a query returns is the window of the ordered selection at
      `Offset(p)`: the records at positions `Offset(p)`, `Offset(p) + 1`, ...
      of that order, `p.size` of them or as many as are left. */
  lemma QueryWindow(records: map<int, Record>, nextId: int, c: Criterion, p: Pageable)
    requires WellKeyed(records, nextId) && p.size >= 1
    ensures var all := Ordered(records, nextId, c, p.sort.direction);
      var pg := Query(records, nextId, c, p);
      && (forall i | 0 <= i < |pg.content| :: Offset(p) + i < |all| && pg.content[i] == all[Offset(p) + i])
      && (Offset(p) + p.size <= |all| ==> |pg.content| == p.size)
      && (Offset(p) < |all| < Offset(p) + p.size ==> |pg.content| == |all| - Offset(p))
      && (pg.content != [] <==> p.page < pg.totalPages)
  {
    var all := Ordered(records, nextId, c, p.sort.direction);
    assert Query(records, nextId, c, p) == PageOf(all, p);
  }

  /** Euclidean division places `i` in the block of `d` that starts at
      (i / d) * d. */
  lemma DivBlock(i: nat, d: nat)
    requires d >= 1
    ensures (i / d) * d <= i < (i / d) * d + d
  {
    assert i == (i / d) * d + i % d;
  }

  /** Every element of an ordering is on the page whose number is its
      position divided by the page size, and that page is in range. */
  lemma PageHolding(all: seq<Record>, p: Pageable, x: Record) returns (n: nat)
    requires p.size >= 1 && x in all
    ensures x in PageOf(all, p.(page := n)).content
    ensures n < PageOf(all, p.(page := n)).totalPages
  {
    var i :| 0 <= i < |all| && all[i] == x;
    n := i / p.size;
    DivBlock(i, p.size);
    var q := p.(page := n);
    var pg := PageOf(all, q);
    assert Offset(q) <= i < Offset(q) + p.size;
    assert i - Offset(q) < |pg.content|;
    assert pg.content[i - Offset(q)] == all[i];
  }

  /** Nothing selected is missed: every selected record is on one of the
      `totalPages` pages. */
  lemma QueryFindsEveryMatch(records: map<int, Record>, nextId: int, c: Criterion, p: Pageable, k: int)
    requires WellKeyed(records, nextId) && p.size >= 1
    requires k in records && Satisfies(records[k], c)
    ensures exists n: nat ::
      var pg := Query(records, nextId, c, p.(page := n));
      records[k] in pg.content && n < pg.totalPages
  {
    var all := Ordered(records, nextId, c, p.sort.direction);
    assert records[k] in all;
    var n := PageHolding(all, p, records[k]);
    assert Query(records, nextId, c, p.(page := n)) == PageOf(all, p.(page := n));
  }

  /** The title search misses no stored record whose lower-cased title
      contains the lower-cased fragment: it is on one of the pages. */
  lemma TitleSearchFindsEveryMatch(records: map<int, Record>, nextId: int, fragment: string, p: Pageable, k: int)
    requires WellKeyed(records, nextId) && p.size >= 1
    requires k in records && TitleContainsIgnoreCase(records[k].title, fragment)
    ensures exists n: nat ::
      var pg := Query(records, nextId, TitleContains(fragment), p.(page := n));
      records[k] in pg.content && n < pg.totalPages
  {
    QueryFindsEveryMatch(records, nextId, TitleContains(fragment), p, k);
  }

  /** When every selected record fits on one page, the first page holds
      them all. */
  lemma FirstPageHoldsEveryMatch(records: map<int, Record>, nextId: int, c: Criterion, p: Pageable)
    requires WellKeyed(records, nextId) && p.size >= 1 && p.page == 0
    requires Count(records, c) <= p.size
    ensures forall k | k in records && Satisfies(records[k], c) :: records[k] in Query(records, nextId, c, p).content
  {
    var all := Ordered(records, nextId, c, p.sort.direction);
    var pg := Query(records, nextId, c, p);
    QueryWindow(records, nextId, c, p);
    assert |pg.content| == |all|;
    forall k | k in records && Satisfies(records[k], c) ensures records[k] in pg.content {
      var i :| 0 <= i < |all| && all[i] == records[k];
      assert pg.content[i] == all[i];
    }
  }

  /** With one PENDING and one APPROVED record stored, the PENDING query
      returns exactly the PENDING one. */
  lemma StatusQueryScenario(records: map<int, Record>, nextId: int, k: int, pending: Record, j: int, approved: Record, p: Pageable)
    requires WellKeyed(records, nextId) && p.size >= 1 && p.page == 0
    requires k != j && records == map[k := pending, j := approved]
    requires pending.status == Some(Pending) && approved.status == Some(Approved)
    ensures Query(records, nextId, StatusIs(Pending), p).content == [pending]
  {
    var c := StatusIs(Pending);
    assert (set x | x in records && Satisfies(records[x], c)) == {k};
    var all := Ordered(records, nextId, c, p.sort.direction);
    assert |all| == 1;
    assert records[k] in all;
  }

  // ---------------------------------------------------------------------------
  // Saving
  // ---------------------------------------------------------------------------

  datatype SaveOutcome =
    | Saved(stored: Record, records: map<int, Record>, nextId: int)
    | Refused(error: StoreError)

  /** What save does with an entity. A merge of an identifier the store does
      not hold fails first. Otherwise an entity with a null in a not-null
      column is refused before anything is written. Without an identifier
      the entity is persisted under the next identity. With a stored
      identifier its state is merged over the stored one, and if that changes
      anything the @PreUpdate callback stamps the modification time. */
  function SaveOf(records: map<int, Record>, nextId: int, e: Record, now: Instant): (o: SaveOutcome)
    requires WellKeyed(records, nextId)
    ensures o.Saved? ==> WellKeyed(o.records, o.nextId) && NotNullColumnsSet(o.stored)
    ensures o.Saved? ==> o.stored.id.Some? && o.records == records[o.stored.id.value := o.stored]
    ensures o.Refused? <==> (e.id.Some? && e.id.value !in records) || !NotNullColumnsSet(e)
    ensures e.id.Some? && e.id.value !in records ==> o == Refused(StaleEntity)
    ensures (e.id.None? || e.id.value in records) && !NotNullColumnsSet(e) ==> o == Refused(NullColumn)
    ensures e.id.None? && NotNullColumnsSet(e) ==>
      o.Saved? && o.stored.id.value !in records && o.stored == e.(id := o.stored.id)
    ensures e.id.Some? && e.id.value in records && NotNullColumnsSet(e) ==>
      o.Saved? && o.stored.id == e.id && o.nextId == nextId
      && o.stored.(updatedAt := e.updatedAt) == e
      && (o.stored.updatedAt != e.updatedAt ==> e != records[e.id.value] && o.stored.updatedAt == Some(now))
      && (e != records[e.id.value] ==> o.stored.updatedAt == Some(now))
      && (e == records[e.id.value] ==> o.stored == e)
  {
    if e.id.Some? && e.id.value !in records then Refused(StaleEntity)
    else if !NotNullColumnsSet(e) then Refused(NullColumn)
    else
      match e.id
      case None =>
        var s := e.(id := Some(nextId));
        Saved(s, records[nextId := s], nextId + 1)
      case Some(k) =>
        var s := if e == records[k] then e else Stamped(e, now);
        Saved(s, records[k := s], nextId)
  }

  // ---------------------------------------------------------------------------
  // The repository object
  // ---------------------------------------------------------------------------

  class ChangeRequestRepository {
    var records: map<int, Record>
    var nextId: int

    ghost predicate Valid()
      reads this
    {
      WellKeyed(records, nextId)
    }

    constructor ()
      ensures Valid() && records == map[] && nextId == 1
    {
      records, nextId := map[], 1;
    }

    /** Some stored record carries this identifier. */
    predicate ExistsById(id: int): (b: bool)
      reads this
      ensures Valid() ==> (b <==> exists k | k in records :: records[k].id == Some(id))
    {
      id in records
    }

    function FindById(id: int): (r: Option<Record>)
      reads this
      requires Valid()
      ensures r.Some? <==> ExistsById(id)
      ensures r.Some? ==> r.value.id == Some(id) && r.value == records[id]
    {
      if id in records then Some(records[id]) else None
    }

    /** JpaRepository.findAll(Pageable). */
    function FindAll(p: Pageable): (pg: Page)
      reads this
      requires Valid() && p.size >= 1
      ensures pg == Query(records, nextId, Everything, p)
      ensures pg.totalElements == |records|
      ensures |pg.content| <= p.size
      ensures forall r | r in pg.content :: r.id.Some? && FindById(r.id.value) == Some(r)
    {
      assert (set k | k in records && Satisfies(records[k], Everything)) == records.Keys;
      Query(records, nextId, Everything, p)
    }

    function FindByStatus(status: Status, p: Pageable): (pg: Page)
      reads this
      requires Valid() && p.size >= 1
      ensures pg == Query(records, nextId, StatusIs(status), p)
      ensures pg.totalElements == CountByStatus(status)
      ensures |pg.content| <= p.size
      ensures forall r | r in pg.content :: r.status == Some(status) && r.id.Some? && FindById(r.id.value) == Some(r)
    {
      assert (set k | k in records && records[k].status == Some(status))
          == (set k | k in records && Satisfies(records[k], StatusIs(status)));
      Query(records, nextId, StatusIs(status), p)
    }

    function FindByRequestedBy(requestedBy: Option<string>, p: Pageable): (pg: Page)
      reads this
      requires Valid() && p.size >= 1
      ensures pg == Query(records, nextId, RequestedByIs(requestedBy), p)
      ensures pg.totalElements == Count(records, RequestedByIs(requestedBy))
      ensures |pg.content| <= p.size
      ensures forall r | r in pg.content :: Satisfies(r, RequestedByIs(requestedBy)) && r.id.Some? && FindById(r.id.value) == Some(r)
    {
      Query(records, nextId, RequestedByIs(requestedBy), p)
    }

    /** The title search, with the fragment taken literally (see
        TitleLikeAsWritten for the query as written). */
    function FindByTitleContainingIgnoreCase(fragment: string, p: Pageable): (pg: Page)
      reads this
      requires Valid() && p.size >= 1
      ensures pg == Query(records, nextId, TitleContains(fragment), p)
      ensures pg.totalElements == Count(records, TitleContains(fragment))
      ensures |pg.content| <= p.size
      ensures forall r | r in pg.content ::
        Satisfies(r, TitleContains(fragment)) && r.id.Some? && FindById(r.id.value) == Some(r)
    {
      Query(records, nextId, TitleContains(fragment), p)
    }

    function CountByStatus(status: Status): (n: nat)
      reads this
      requires Valid()
      ensures n == |set k | k in records && records[k].status == Some(status)|
    {
      MatchingIdsCount(records, nextId, StatusIs(status));
      assert (set k | k in records && records[k].status == Some(status))
          == (set k | k in records && Satisfies(records[k], StatusIs(status)));
      |MatchingIds(records, StatusIs(status), nextId)|
    }

    /** CrudRepository.save. A new entity receives its identifier in place. */
    method Save(entity: ChangeRequest, now: Instant) returns (r: Result<Record, StoreError>)
      requires Valid()
      modifies this, entity
      ensures Valid()
      ensures
        match SaveOf(old(records), old(nextId), old(entity.Value()), now)
        case Saved(s, rs, n) =>
          && r == Ok(s) && records == rs && nextId == n
          && entity.Value() == old(entity.Value()).(id := s.id)
        case Refused(err) =>
          && r == Err(err) && records == old(records) && nextId == old(nextId)
          && entity.Value() == old(entity.Value())
    {
      var o := SaveOf(records, nextId, entity.Value(), now);
      match o
      case Saved(s, rs, n) =>
        if entity.id.None? {
          entity.SetId(s.id);
        }
        records, nextId := rs, n;
        r := Ok(s);
      case Refused(err) =>
        r := Err(err);
    }

    /** CrudRepository.deleteById: removes the record with that identifier. */
    method DeleteById(id: int)
      requires Valid()
      modifies this
      ensures Valid()
      ensures records == old(records) - {id} && nextId == old(nextId)
      ensures FindById(id).None?
    {
      records := records - {id};
    }
  }

  /** A new entity is saved under an identity the store did not hold, and is
      found under it afterwards. */
  lemma SaveNewIsFound(records: map<int, Record>, nextId: int, e: Record, now: Instant)
    requires WellKeyed(records, nextId) && e.id.None? && NotNullColumnsSet(e)
    ensures var o := SaveOf(records, nextId, e, now);
      && o.Saved? && o.stored.id.Some? && o.stored.id.value !in records
      && o.stored.id.value in o.records && o.records[o.stored.id.value] == o.stored
      && Presented(o.stored).(id := None) == Presented(e)
  {
  }

  /** Saving under a stored identifier keeps the identifier and the other
      records, and stores the entity's fields. */
  lemma SaveExistingReplaces(records: map<int, Record>, nextId: int, e: Record, now: Instant)
    requires WellKeyed(records, nextId) && e.id.Some? && e.id.value in records && NotNullColumnsSet(e)
    ensures var o := SaveOf(records, nextId, e, now);
      && o.Saved? && o.stored.id == e.id
      && o.records.Keys == records.Keys
      && Presented(o.records[e.id.value]) == Presented(e)
      && (forall k | k in records && k != e.id.value :: o.records[k] == records[k])
  {
  }
}
