/** The query string of `GET /tasks` (src/tasks/dto/query.dto.ts) and the rules its
    decorators declare. `search` is read by the service but declared by no decorator.
    The members of the sort enums and the ISO 8601 date check (`IsDateString`) are
    defined outside this model and are parameters. */
module QueryDtos {
  import opened Outcomes
  import opened TaskSchema

  datatype QueryDto = QueryDto(
    page: Option<int>,
    size: Option<int>,
    sortBy: Option<string>,
    sort: Option<string>,
    dateCreated: Option<string>,
    dateUpdated: Option<string>,
    user: Option<string>,
    status: Option<TaskStatus>,
    search: Option<string>)

  const EmptyQuery: QueryDto := QueryDto(None, None, None, None, None, None, None, None, None)

  /** The enum values `IsEnum` accepts and the `IsDateString` check. */
  datatype QueryRules = QueryRules(
    sortByValues: set<string>,
    sortValues: set<string>,
    isDateString: string -> bool)

  /** Each field may be absent (`IsOptional`); a present field must satisfy its
      decorators. `status` is an enum member by its type. */
  predicate IsValid(q: QueryDto, rules: QueryRules) {
    && (q.page.Some? ==> q.page.value >= 1)
    && (q.size.Some? ==> q.size.value <= 20)
    && (q.sortBy.Some? ==> q.sortBy.value != "" && q.sortBy.value in rules.sortByValues)
    && (q.sort.Some? ==> q.sort.value != "" && q.sort.value in rules.sortValues)
    && (q.dateCreated.Some? ==> q.dateCreated.value != "" && rules.isDateString(q.dateCreated.value))
    && (q.dateUpdated.Some? ==> q.dateUpdated.value != "" && rules.isDateString(q.dateUpdated.value))
    && (q.user.Some? ==> q.user.value != "")
  }

  /** Every field is optional, so the empty query is valid whatever the enums are. */
  lemma EmptyQueryIsValid(rules: QueryRules)
    ensures IsValid(EmptyQuery, rules)
  {
  }

  /** `size` has an upper bound only: zero and negative sizes pass, 21 does not. */
  lemma SizeHasNoLowerBound(rules: QueryRules, n: int)
    ensures IsValid(EmptyQuery.(size := Some(n)), rules) <==> n <= 20
  {
  }

  /** `page` has a lower bound of one and no upper bound. */
  lemma PageStartsAtOne(rules: QueryRules, n: int)
    ensures IsValid(EmptyQuery.(page := Some(n)), rules) <==> n >= 1
  {
  }
}
