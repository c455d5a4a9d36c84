/** The change-request entity: its status enumeration, its stored value, the
    mutable object the handlers work on, the part of it that is presented to
    clients and the field bounds it declares. */
module Model {
  import opened Common

  /** A reading of the clock (LocalDateTime.now()), supplied by the caller. */
  type Instant = int

  // ---------------------------------------------------------------------------
  // Status
  // ---------------------------------------------------------------------------

  datatype Status = Pending | Approved | Rejected | InProgress | Completed

  /** Status.ordinal(): the position of the constant's declaration. */
  function Ordinal(s: Status): (n: nat)
    ensures n < 5
  {
    match s
    case Pending => 0
    case Approved => 1
    case Rejected => 2
    case InProgress => 3
    case Completed => 4
  }

  /** Status.values(): every constant, once, in declaration order. */
  function Values(): (vs: seq<Status>)
    ensures |vs| == 5 && Distinct(vs)
    ensures forall s: Status :: vs[Ordinal(s)] == s
  {
    [Pending, Approved, Rejected, InProgress, Completed]
  }

  /** The constant's name, as it is written in JSON and in query strings. */
  function Name(s: Status): string {
    match s
    case Pending => "PENDING"
    case Approved => "APPROVED"
    case Rejected => "REJECTED"
    case InProgress => "IN_PROGRESS"
    case Completed => "COMPLETED"
  }

  /** Status.valueOf: the constant with exactly this name, if there is one. */
  function ValueOf(name: string): (r: Option<Status>)
    ensures r.Some? ==> Name(r.value) == name
  {
    if name == "PENDING" then Some(Pending)
    else if name == "APPROVED" then Some(Approved)
    else if name == "REJECTED" then Some(Rejected)
    else if name == "IN_PROGRESS" then Some(InProgress)
    else if name == "COMPLETED" then Some(Completed)
    else None
  }

  /** Every constant is found again under its name, so names are unique. */
  lemma ValueOfName(s: Status)
    ensures ValueOf(Name(s)) == Some(s)
  {
  }

  // ---------------------------------------------------------------------------
  // The entity
  // ---------------------------------------------------------------------------

  /** The state of one change request. Every Java field is a reference that
      may be null, hence the options. */
  datatype Record = Record(
    id: Option<int>,
    title: Option<string>,
    description: Option<string>,
    status: Option<Status>,
    requestedBy: Option<string>,
    createdAt: Option<Instant>,
    updatedAt: Option<Instant>)

  /** The mutable entity object. Its field initialisers give every new object
      the status PENDING and the creation time `now`. */
  class ChangeRequest {
    var id: Option<int>
    var title: Option<string>
    var description: Option<string>
    var status: Option<Status>
    var requestedBy: Option<string>
    var createdAt: Option<Instant>
    var updatedAt: Option<Instant>

    /** The object's state as a value. */
    function Value(): Record
      reads this
    {
      Record(id, title, description, status, requestedBy, createdAt, updatedAt)
    }

    /** The no-argument constructor: only the field initialisers run. */
    constructor (now: Instant)
      ensures Value() == Record(None, None, None, Some(Pending), None, Some(now), None)
    {
      id, title, description := None, None, None;
      status, requestedBy := Some(Pending), None;
      createdAt, updatedAt := Some(now), None;
    }

    /** The three-argument constructor: the initialisers, then title,
        description and requester. */
    constructor Of(title: Option<string>, description: Option<string>, requestedBy: Option<string>, now: Instant)
      ensures Value() == Record(None, title, description, Some(Pending), requestedBy, Some(now), None)
    {
      this.id := None;
      this.title := title;
      this.description := description;
      this.status := Some(Pending);
      this.requestedBy := requestedBy;
      this.createdAt := Some(now);
      this.updatedAt := None;
    }

    method SetId(v: Option<int>)
      modifies this
      ensures Value() == old(Value()).(id := v)
    {
      id := v;
    }

    method SetTitle(v: Option<string>)
      modifies this
      ensures Value() == old(Value()).(title := v)
    {
      title := v;
    }

    method SetDescription(v: Option<string>)
      modifies this
      ensures Value() == old(Value()).(description := v)
    {
      description := v;
    }

    method SetStatus(v: Option<Status>)
      modifies this
      ensures Value() == old(Value()).(status := v)
    {
      status := v;
    }

    method SetRequestedBy(v: Option<string>)
      modifies this
      ensures Value() == old(Value()).(requestedBy := v)
    {
      requestedBy := v;
    }

    method SetCreatedAt(v: Option<Instant>)
      modifies this
      ensures Value() == old(Value()).(createdAt := v)
    {
      createdAt := v;
    }

    method SetUpdatedAt(v: Option<Instant>)
      modifies this
      ensures Value() == old(Value()).(updatedAt := v)
    {
      updatedAt := v;
    }

    /** The @PreUpdate callback: stamps the modification time. */
    method PreUpdate(now: Instant)
      modifies this
      ensures Value() == old(Value()).(updatedAt := Some(now))
    {
      updatedAt := Some(now);
    }
  }

  /** The value the @PreUpdate callback leaves behind. */
  function Stamped(r: Record, now: Instant): (s: Record)
    ensures s.updatedAt == Some(now)
    ensures s.(updatedAt := r.updatedAt) == r
  {
    r.(updatedAt := Some(now))
  }

  // ---------------------------------------------------------------------------
  // Presentation
  // ---------------------------------------------------------------------------

  /** The fields clients see. The two timestamps are ignored by the JSON
      mapping, so they have no place here. */
  datatype Fields = Fields(
    id: Option<int>,
    title: Option<string>,
    description: Option<string>,
    status: Option<Status>,
    requestedBy: Option<string>)

  function Presented(r: Record): Fields {
    Fields(r.id, r.title, r.description, r.status, r.requestedBy)
  }

  /** Two records are presented alike exactly when they differ at most in
      their timestamps. */
  lemma PresentedIgnoresOnlyTimestamps(r1: Record, r2: Record)
    ensures Presented(r1) == Presented(r2)
        <==> r1.(createdAt := r2.createdAt, updatedAt := r2.updatedAt) == r2
  {
  }

  // ---------------------------------------------------------------------------
  // Declared field bounds
  // ---------------------------------------------------------------------------

  /** The columns declared `nullable = false` (title, requested_by and
      created_at) all hold a value. */
  predicate NotNullColumnsSet(r: Record) {
    r.title.Some? && r.requestedBy.Some? && r.createdAt.Some?
  }

  /** @NotBlank: present, and something other than spaces and control
      characters is left once String.trim has removed them from both ends. */
  predicate NotBlank(s: Option<string>) {
    s.Some? && exists i | 0 <= i < |s.value| :: s.value[i] > ' '
  }

  /** @Size: a null value passes; otherwise the length must be within bounds. */
  predicate SizeWithin(s: Option<string>, min: nat, max: nat) {
    s.None? || min <= |s.value| <= max
  }

  datatype Violation =
    | TitleRequired
    | TitleSize
    | DescriptionSize
    | RequestedByRequired
    | RequestedBySize

  /** Every declared constraint the record breaks; none exactly when the
      record keeps every declared bound. */
  function Violations(r: Record): (vs: set<Violation>)
    ensures vs == {} <==> SatisfiesConstraints(r)
  {
    (if NotBlank(r.title) then {} else {TitleRequired})
    + (if SizeWithin(r.title, 3, 100) then {} else {TitleSize})
    + (if SizeWithin(r.description, 0, 1000) then {} else {DescriptionSize})
    + (if NotBlank(r.requestedBy) then {} else {RequestedByRequired})
    + (if SizeWithin(r.requestedBy, 2, 50) then {} else {RequestedBySize})
  }

  /** The bounds the entity declares: a title of 3 to 100 characters that is
      not blank, a description of at most 1000 characters, and a requester of 2
      to 50 characters that is not blank. */
  predicate SatisfiesConstraints(r: Record) {
    && r.title.Some? && 3 <= |r.title.value| <= 100 && NotBlank(r.title)
    && (r.description.Some? ==> |r.description.value| <= 1000)
    && r.requestedBy.Some? && 2 <= |r.requestedBy.value| <= 50 && NotBlank(r.requestedBy)
  }

  /** Constraints never look at the identifier, the status or the timestamps. */
  lemma ViolationsIgnoreBookkeeping(r: Record, id: Option<int>, s: Option<Status>, c: Option<Instant>, u: Option<Instant>)
    ensures Violations(r.(id := id, status := s, createdAt := c, updatedAt := u)) == Violations(r)
  {
  }

  /** A missing title is reported as missing, not as too short. */
  lemma NullTitleIsOnlyRequired(r: Record)
    requires r.title.None?
    ensures TitleRequired in Violations(r) && TitleSize !in Violations(r)
  {
  }

  /** A title of two spaces breaks both title constraints at once. */
  lemma BlankShortTitleBreaksBoth(r: Record)
    requires r.title == Some("  ")
    ensures {TitleRequired, TitleSize} <= Violations(r)
  {
    assert !NotBlank(r.title) by {
      assert forall i | 0 <= i < 2 :: r.title.value[i] == ' ';
    }
  }
}
