/**
  The query string of GET /contacts and its validation: page and limit are
  converted to numbers and must then be integers of at least 1, sortBy and
  sortOrder must come from fixed lists, search is any string, and every
  field that is absent takes its default.
*/
module QueryContactDto {
  import opened Wrappers

  /** A query parameter after the Number conversion: a finite value, or NaN / an infinity. */
  datatype NumberValue = Finite(v: real) | NotFinite

  datatype SortBy = ByName | ByEmail | ByCreatedAt

  datatype SortOrder = Asc | Desc

  /** The query as received; None is a parameter that was not sent. */
  datatype RawQuery = RawQuery(
    page: Option<NumberValue>,
    limit: Option<NumberValue>,
    search: Option<string>,
    sortBy: Option<string>,
    sortOrder: Option<string>)

  /** The query with every default filled in, as the service reads it. */
  datatype ListQuery = ListQuery(page: int, limit: int, search: string, sortBy: SortBy, sortOrder: SortOrder)

  /** A query field that failed validation. */
  datatype QueryField = PageField | LimitField | SortByField | SortOrderField

  const DefaultPage: int := 1
  const DefaultLimit: int := 10
  const DefaultSortBy: SortBy := ByCreatedAt
  const DefaultSortOrder: SortOrder := Desc

  /** The precondition of the service's pagination arithmetic. */
  predicate WellFormed(q: ListQuery) {
    q.page >= 1 && q.limit >= 1
  }

  /** IsInt together with Min(1). */
  predicate IsPositiveInteger(n: NumberValue) {
    n.Finite? && n.v.Floor as real == n.v && n.v >= 1.0
  }

  /** The column name a SortBy value stands for. */
  function SortByName(b: SortBy): string {
    match b
    case ByName => "name"
    case ByEmail => "email"
    case ByCreatedAt => "createdAt"
  }

  /** The keyword a SortOrder value stands for. */
  function SortOrderName(o: SortOrder): string {
    match o
    case Asc => "ASC"
    case Desc => "DESC"
  }

  /** IsIn(['name', 'email', 'createdAt']): the accepted spellings are exactly the three column names. */
  function ParseSortBy(s: string): (r: Option<SortBy>)
    ensures r.Some? ==> SortByName(r.value) == s
    ensures forall b: SortBy :: SortByName(b) == s ==> r == Some(b)
  {
    if s == "name" then Some(ByName)
    else if s == "email" then Some(ByEmail)
    else if s == "createdAt" then Some(ByCreatedAt)
    else None
  }

  /** IsIn(['ASC', 'DESC']): case matters, "asc" is refused. */
  function ParseSortOrder(s: string): (r: Option<SortOrder>)
    ensures r.Some? ==> SortOrderName(r.value) == s
    ensures forall o: SortOrder :: SortOrderName(o) == s ==> r == Some(o)
  {
    if s == "ASC" then Some(Asc)
    else if s == "DESC" then Some(Desc)
    else None
  }

  predicate PageOk(raw: RawQuery) {
    raw.page.None? || IsPositiveInteger(raw.page.value)
  }

  predicate LimitOk(raw: RawQuery) {
    raw.limit.None? || IsPositiveInteger(raw.limit.value)
  }

  predicate SortByOk(raw: RawQuery) {
    raw.sortBy.None? || ParseSortBy(raw.sortBy.value).Some?
  }

  predicate SortOrderOk(raw: RawQuery) {
    raw.sortOrder.None? || ParseSortOrder(raw.sortOrder.value).Some?
  }

  /**
    Validation followed by defaulting. An accepted query always has page and
    limit of at least 1 (no upper bound on limit), carries the values that
    were sent, and the defaults page 1, limit 10, empty search, createdAt,
    DESC for the ones that were not; a refused query reports exactly the
    fields that failed.
  */
  function Validate(raw: RawQuery): (r: Result<ListQuery, set<QueryField>>)
    ensures r.Ok? <==> PageOk(raw) && LimitOk(raw) && SortByOk(raw) && SortOrderOk(raw)
    ensures r.Err? ==> r.error != {}
    ensures r.Err? ==> (PageField in r.error <==> !PageOk(raw))
    ensures r.Err? ==> (LimitField in r.error <==> !LimitOk(raw))
    ensures r.Err? ==> (SortByField in r.error <==> !SortByOk(raw))
    ensures r.Err? ==> (SortOrderField in r.error <==> !SortOrderOk(raw))
    ensures r.Ok? ==> WellFormed(r.value)
    ensures r.Ok? ==> r.value.page as real == (if raw.page.Some? then raw.page.value.v else 1.0)
    ensures r.Ok? ==> r.value.limit as real == (if raw.limit.Some? then raw.limit.value.v else 10.0)
    ensures r.Ok? ==> r.value.search == (if raw.search.Some? then raw.search.value else "")
    ensures r.Ok? ==> (if raw.sortBy.Some? then SortByName(r.value.sortBy) == raw.sortBy.value
                       else r.value.sortBy == ByCreatedAt)
    ensures r.Ok? ==> (if raw.sortOrder.Some? then SortOrderName(r.value.sortOrder) == raw.sortOrder.value
                       else r.value.sortOrder == Desc)
  {
    var errors :=
      (if PageOk(raw) then {} else {PageField}) +
      (if LimitOk(raw) then {} else {LimitField}) +
      (if SortByOk(raw) then {} else {SortByField}) +
      (if SortOrderOk(raw) then {} else {SortOrderField});
    if errors != {} then Err(errors)
    else
      Ok(ListQuery(
           if raw.page.Some? then raw.page.value.v.Floor else DefaultPage,
           if raw.limit.Some? then raw.limit.value.v.Floor else DefaultLimit,
           if raw.search.Some? then raw.search.value else "",
           if raw.sortBy.Some? then ParseSortBy(raw.sortBy.value).value else DefaultSortBy,
           if raw.sortOrder.Some? then ParseSortOrder(raw.sortOrder.value).value else DefaultSortOrder))
  }
}
