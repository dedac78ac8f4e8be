/** The store filter `getTasks` builds from a query (src/tasks/tasks.service.ts,
    `getTasks`): one term per present query field, all of which a task must satisfy.
    Query dates are taken already parsed to millisecond timestamps by `parseDate`
    (None for a string JavaScript's `Date` cannot read). */
module TaskFilter {
  import opened Outcomes
  import ObjectIds
  import opened TaskSchema
  import opened QueryDtos
  import CivilTime
  import opened Text

  const MsPerDay: int := CivilTime.MsPerDay

  /** `new Date(d).setUTCHours(0, 0, 0, 0)`: midnight UTC opening the day of `ms`. */
  function DayStart(ms: int): (r: int)
    ensures r <= ms < r + MsPerDay
    ensures r % MsPerDay == 0
  {
    ms - ms % MsPerDay
  }

  /** `new Date(d).setUTCHours(23, 59, 59, 999)`: the last millisecond of the UTC
      day of `ms`. */
  function DayLastMs(ms: int): (r: int)
    ensures ms <= r < ms + MsPerDay
    ensures r % MsPerDay == MsPerDay - 1
  {
    DayStart(ms) + MsPerDay - 1
  }

  datatype Term =
    | AssignedTo(user: ObjectIds.Id)
    | StatusIs(status: TaskStatus)
    | CreatedIn(from: int, until: int)
    | UpdatedIn(from: int, until: int)
    | TitleMatches(pattern: string)

  /** The regular expression `.*pattern.*` with option `i`, for a pattern without
      metacharacters: tries the pattern at each position of the text in turn. */
  predicate MatchesAnywhere(text: string, pattern: string)
    decreases |text|
  {
    |pattern| <= |text| &&
    (EqualIgnoringCase(text[..|pattern|], pattern) || MatchesAnywhere(text[1..], pattern))
  }

  /** Dropping the first character of the text shifts every occurrence by one. */
  lemma OccursShift(text: string, pattern: string, i: int)
    requires |text| >= 1 && i >= 0
    ensures OccursIgnoringCaseAt(text[1..], pattern, i) <==> OccursIgnoringCaseAt(text, pattern, i + 1)
  {
    if 0 <= i <= |text| - 1 - |pattern| {
      assert text[1..][i..i + |pattern|] == text[i + 1..i + 1 + |pattern|];
    }
  }

  lemma {:induction false} MatchesAnywhereIff(text: string, pattern: string)
    ensures MatchesAnywhere(text, pattern) <==> exists i :: OccursIgnoringCaseAt(text, pattern, i)
  {
    if |pattern| <= |text| {
      assert text[0..0 + |pattern|] == text[..|pattern|];
      if !EqualIgnoringCase(text[..|pattern|], pattern) {
        assert !OccursIgnoringCaseAt(text, pattern, 0);
        MatchesAnywhereIff(text[1..], pattern);
        if exists i :: OccursIgnoringCaseAt(text, pattern, i) {
          var i :| OccursIgnoringCaseAt(text, pattern, i);
          OccursShift(text, pattern, i - 1);
        }
        if MatchesAnywhere(text[1..], pattern) {
          var i :| OccursIgnoringCaseAt(text[1..], pattern, i);
          OccursShift(text, pattern, i);
        }
      } else {
        assert OccursIgnoringCaseAt(text, pattern, 0);
      }
    } else {
      assert forall i :: !OccursIgnoringCaseAt(text, pattern, i);
    }
  }

  /** The store's test of one filter term against a task. */
  predicate Holds(term: Term, t: Task) {
    match term
    case AssignedTo(u) => t.assignedTo == Some(u)
    case StatusIs(s) => t.status == s
    case CreatedIn(from, until) => from <= t.createdAt < until
    case UpdatedIn(from, until) => from <= t.updatedAt < until
    case TitleMatches(p) => MatchesAnywhere(t.title, p)
  }

  /** A filter object's fields are ANDed. */
  predicate MatchesAll(terms: seq<Term>, t: Task) {
    if terms == [] then true else Holds(terms[0], t) && MatchesAll(terms[1..], t)
  }

  lemma {:induction false} MatchesAllIff(terms: seq<Term>, t: Task)
    ensures MatchesAll(terms, t) <==> forall i :: 0 <= i < |terms| ==> Holds(terms[i], t)
  {
    if terms != [] {
      MatchesAllIff(terms[1..], t);
      assert forall i :: 1 <= i < |terms| ==> terms[i] == terms[1..][i - 1];
    }
  }

  /** JavaScript truthiness of an optional string: absent and "" contribute nothing. */
  predicate Truthy(o: Option<string>) {
    o.Some? && o.value != ""
  }

  /** The date window for a present date field; Failure when the date does not parse
      (Mongoose cannot cast the resulting NaN to a date). */
  function DayWindow(date: Option<string>, parseDate: string -> Option<int>): Result<Option<(int, int)>> {
    if !Truthy(date) then Success(None)
    else match parseDate(date.value)
      case None => Failure(Unexpected)
      case Some(d) => Success(Some((DayStart(d), DayLastMs(d))))
  }

  /** The filter object `getTasks` passes to the store. `new ObjectId(user)` throws
      on an identifier that is not valid. */
  function BuildFilter(q: QueryDto, parseDate: string -> Option<int>): (r: Result<seq<Term>>)
    ensures r.Failure? ==> r.error == Unexpected
    ensures r.Success? ==> |r.value| == FieldsPresent(q)
  {
    if Truthy(q.user) && !ObjectIds.IsValid(q.user.value) then Failure(Unexpected)
    else
      var created := DayWindow(q.dateCreated, parseDate);
      var updated := DayWindow(q.dateUpdated, parseDate);
      if created.Failure? || updated.Failure? then Failure(Unexpected)
      else
        Success(UserTerms(q) + StatusTerms(q) + CreatedTerms(created.value)
                + UpdatedTerms(updated.value) + SearchTerms(q))
  }

  /** One for a field that contributes a term, zero otherwise. */
  function Present(b: bool): nat {
    if b then 1 else 0
  }

  /** The number of query fields that ask something of a task. */
  function FieldsPresent(q: QueryDto): nat {
    Present(Truthy(q.user)) + Present(q.status.Some?) + Present(Truthy(q.dateCreated))
      + Present(Truthy(q.dateUpdated)) + Present(Truthy(q.search))
  }

  /** `...(queryDto.user && { assignedTo: new ObjectId(queryDto.user) })` */
  function UserTerms(q: QueryDto): seq<Term>
    requires Truthy(q.user) ==> ObjectIds.IsValid(q.user.value)
  {
    if Truthy(q.user) then [AssignedTo(ObjectIds.Parse(q.user.value))] else []
  }

  /** `...(queryDto.status && { status })` */
  function StatusTerms(q: QueryDto): seq<Term> {
    match q.status
    case None => []
    case Some(s) => [StatusIs(s)]
  }

  /** `...(queryDto.dateCreated && { createdAt: { $gte, $lt } })` */
  function CreatedTerms(window: Option<(int, int)>): seq<Term> {
    match window
    case None => []
    case Some((from, until)) => [CreatedIn(from, until)]
  }

  /** `...(queryDto.dateUpdated && { updatedAt: { $gte, $lt } })` */
  function UpdatedTerms(window: Option<(int, int)>): seq<Term> {
    match window
    case None => []
    case Some((from, until)) => [UpdatedIn(from, until)]
  }

  /** `...(queryDto.search && { title: { $regex, $options: 'i' } })` */
  function SearchTerms(q: QueryDto): seq<Term> {
    if Truthy(q.search) then [TitleMatches(q.search.value)] else []
  }

  /** The query's meaning for one date field: the timestamp falls on the same UTC
      day as the query date, and is not that day's last millisecond. */
  predicate SameDayButLast(ms: int, date: Option<string>, parseDate: string -> Option<int>) {
    Truthy(date) && parseDate(date.value).Some? ==>
      var d := parseDate(date.value).value;
      ms / MsPerDay == d / MsPerDay && ms % MsPerDay != MsPerDay - 1
  }

  /** What the query asks of a task, field by field; absent fields ask nothing. */
  ghost predicate Admits(q: QueryDto, parseDate: string -> Option<int>, t: Task) {
    && (Truthy(q.user) && ObjectIds.IsValid(q.user.value) ==> t.assignedTo == Some(ObjectIds.Parse(q.user.value)))
    && (q.status.Some? ==> t.status == q.status.value)
    && SameDayButLast(t.createdAt, q.dateCreated, parseDate)
    && SameDayButLast(t.updatedAt, q.dateUpdated, parseDate)
    && (Truthy(q.search) ==> exists i :: OccursIgnoringCaseAt(t.title, q.search.value, i))
  }

  /** The half-open window [day start, day start + 86 399 999) is the UTC day
      without its last millisecond. */
  lemma DayWindowIff(ms: int, d: int)
    ensures DayStart(d) <= ms < DayLastMs(d) <==> ms / MsPerDay == d / MsPerDay && ms % MsPerDay != MsPerDay - 1
  {
    var k := d / MsPerDay;
    assert DayStart(d) == k * MsPerDay;
    if DayStart(d) <= ms < DayLastMs(d) {
      assert k * MsPerDay <= ms < k * MsPerDay + MsPerDay - 1;
      assert ms / MsPerDay == k;
    }
  }

  /** `BuildFilter` fails exactly on an invalid `user` identifier or a date that does
      not parse. */
  lemma BuildFilterFails(q: QueryDto, parseDate: string -> Option<int>)
    ensures BuildFilter(q, parseDate).Failure? <==>
      || (Truthy(q.user) && !ObjectIds.IsValid(q.user.value))
      || (Truthy(q.dateCreated) && parseDate(q.dateCreated.value).None?)
      || (Truthy(q.dateUpdated) && parseDate(q.dateUpdated.value).None?)
    ensures BuildFilter(q, parseDate).Failure? ==> BuildFilter(q, parseDate).error == Unexpected
  {
  }

  lemma {:induction false} MatchesAllConcat(a: seq<Term>, b: seq<Term>, t: Task)
    ensures MatchesAll(a + b, t) <==> MatchesAll(a, t) && MatchesAll(b, t)
  {
    if a != [] {
      assert (a + b)[1..] == a[1..] + b;
      MatchesAllConcat(a[1..], b, t);
    } else {
      assert a + b == b;
    }
  }

  lemma MatchesSingle(term: Term, t: Task)
    ensures MatchesAll([term], t) <==> Holds(term, t)
  {
    assert [term][1..] == [];
  }

  /** The assignee term asks for the parsed `user` id, when one is given. */
  lemma UserPart(q: QueryDto, t: Task)
    requires Truthy(q.user) ==> ObjectIds.IsValid(q.user.value)
    ensures MatchesAll(UserTerms(q), t) <==>
      (Truthy(q.user) ==> t.assignedTo == Some(ObjectIds.Parse(q.user.value)))
  {
    if Truthy(q.user) {
      MatchesSingle(AssignedTo(ObjectIds.Parse(q.user.value)), t);
    }
  }

  lemma StatusPart(q: QueryDto, t: Task)
    ensures MatchesAll(StatusTerms(q), t) <==> (q.status.Some? ==> t.status == q.status.value)
  {
    if q.status.Some? {
      MatchesSingle(StatusIs(q.status.value), t);
    }
  }

  /** A present date field asks for its UTC day, without the last millisecond. */
  lemma CreatedPart(q: QueryDto, parseDate: string -> Option<int>, t: Task)
    requires DayWindow(q.dateCreated, parseDate).Success?
    ensures MatchesAll(CreatedTerms(DayWindow(q.dateCreated, parseDate).value), t) <==>
      SameDayButLast(t.createdAt, q.dateCreated, parseDate)
  {
    if Truthy(q.dateCreated) {
      var d := parseDate(q.dateCreated.value).value;
      MatchesSingle(CreatedIn(DayStart(d), DayLastMs(d)), t);
      DayWindowIff(t.createdAt, d);
    }
  }

  lemma UpdatedPart(q: QueryDto, parseDate: string -> Option<int>, t: Task)
    requires DayWindow(q.dateUpdated, parseDate).Success?
    ensures MatchesAll(UpdatedTerms(DayWindow(q.dateUpdated, parseDate).value), t) <==>
      SameDayButLast(t.updatedAt, q.dateUpdated, parseDate)
  {
    if Truthy(q.dateUpdated) {
      var d := parseDate(q.dateUpdated.value).value;
      MatchesSingle(UpdatedIn(DayStart(d), DayLastMs(d)), t);
      DayWindowIff(t.updatedAt, d);
    }
  }

  lemma SearchPart(q: QueryDto, t: Task)
    ensures MatchesAll(SearchTerms(q), t) <==>
      (Truthy(q.search) ==> exists i :: OccursIgnoringCaseAt(t.title, q.search.value, i))
  {
    if Truthy(q.search) {
      MatchesSingle(TitleMatches(q.search.value), t);
      MatchesAnywhereIff(t.title, q.search.value);
    }
  }

  /** A task passes the built filter exactly when it satisfies every present field
      of the query. */
  lemma FilterMeaning(q: QueryDto, parseDate: string -> Option<int>, t: Task)
    requires BuildFilter(q, parseDate).Success?
    ensures MatchesAll(BuildFilter(q, parseDate).value, t) <==> Admits(q, parseDate, t)
  {
    var created := DayWindow(q.dateCreated, parseDate).value;
    var updated := DayWindow(q.dateUpdated, parseDate).value;
    var p1, p2, p3, p4, p5 := UserTerms(q), StatusTerms(q), CreatedTerms(created),
      UpdatedTerms(updated), SearchTerms(q);
    assert BuildFilter(q, parseDate).value == p1 + p2 + p3 + p4 + p5;
    MatchesAllConcat(p1 + p2 + p3 + p4, p5, t);
    MatchesAllConcat(p1 + p2 + p3, p4, t);
    MatchesAllConcat(p1 + p2, p3, t);
    MatchesAllConcat(p1, p2, t);
    UserPart(q, t);
    StatusPart(q, t);
    CreatedPart(q, parseDate, t);
    UpdatedPart(q, parseDate, t);
    SearchPart(q, t);
  }

  /** The empty query builds the empty filter, which every task passes. */
  lemma EmptyQueryMatchesAll(parseDate: string -> Option<int>, t: Task)
    ensures BuildFilter(EmptyQuery, parseDate) == Success([])
    ensures MatchesAll([], t)
  {
    assert DayWindow(EmptyQuery.dateCreated, parseDate) == Success(None);
    assert DayWindow(EmptyQuery.dateUpdated, parseDate) == Success(None);
    assert !Truthy(EmptyQuery.user) && !Truthy(EmptyQuery.search);
    var empty: seq<Term> := [];
    assert empty + empty + empty + empty + empty == [];
  }

  /** The documents the store returns for a filter, in store order. */
  function Select(docs: seq<Doc>, terms: seq<Term>): (r: seq<Doc>)
    ensures forall d :: d in r <==> d in docs && MatchesAll(terms, d.task)
    ensures forall d :: multiset(r)[d] == if MatchesAll(terms, d.task) then multiset(docs)[d] else 0
    ensures |r| <= |docs|
  {
    if docs == [] then []
    else
      assert docs == [docs[0]] + docs[1..];
      (if MatchesAll(terms, docs[0].task) then [docs[0]] else []) + Select(docs[1..], terms)
  }
}
