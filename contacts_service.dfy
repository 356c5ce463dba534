/**
  The contacts service: the access policy (an admin may touch every
  contact, anyone else only the contacts they own), the check sequence that
  reading, updating and deleting one contact share (NotFound first, then
  Forbidden), the filtered, ordered, paginated listing, and the contacts
  table itself as a store object whose operations change it in place.
*/
module ContactsService {
  import opened Wrappers
  import opened ContactEntity
  import opened CreateContactDto
  import opened QueryContactDto
  import opened Listing

  /** Who is asking: the user id and role taken from the authentication token. */
  datatype Requester = Requester(userId: UserId, role: string)

  const AdminRole: string := "admin"

  datatype ServiceError = NotFound | Forbidden

  /** The ownership rule shared by read, update, delete and the listing's visibility filter. */
  predicate CanAccess(r: Requester, c: Contact) {
    r.role == AdminRole || c.userId == r.userId
  }

  /**
    The check sequence of findOne, update and remove: a missing id is
    NotFound whoever asks (checked before access); a contact owned by
    somebody else is Forbidden to everyone but an admin; otherwise the
    stored contact.
  */
  function Authorize(table: map<Id, Contact>, id: Id, r: Requester): (res: Result<Contact, ServiceError>)
    ensures res == Err(NotFound) <==> id !in table
    ensures res == Err(Forbidden) <==> id in table && r.role != AdminRole && table[id].userId != r.userId
    ensures res.Ok? <==> id in table && (r.role == AdminRole || table[id].userId == r.userId)
    ensures res.Ok? ==> res.value == table[id]
  {
    if id !in table then Err(NotFound)
    else if !CanAccess(r, table[id]) then Err(Forbidden)
    else Ok(table[id])
  }

  /** The fields an update request may carry; each is independently present or absent. */
  datatype UpdateInput = UpdateInput(
    name: Option<string>,
    email: Option<string>,
    phone: Option<string>,
    photo: Option<string>)

  /** JavaScript truthiness of the optional photo path: present and non-empty. */
  predicate IsTruthy(photo: Option<string>) {
    photo.Some? && photo.value != ""
  }

  function Override(field: Option<string>, current: string): string {
    if field.Some? then field.value else current
  }

  /**
    The row after `repository.update(id, {...dto, photo?})`: every field the
    request carries replaces the stored one, an uploaded photo path (when
    non-empty) replaces both the stored photo and any photo text field, and
    id, owner and creation time never change.
  */
  function ApplyUpdate(c: Contact, input: UpdateInput, photo: Option<string>): (r: Contact)
    ensures r.id == c.id && r.userId == c.userId && r.createdAt == c.createdAt
    ensures input.name.Some? ==> r.name == input.name.value
    ensures input.name.None? ==> r.name == c.name
    ensures input.email.Some? ==> r.email == input.email.value
    ensures input.email.None? ==> r.email == c.email
    ensures input.phone.Some? ==> r.phone == input.phone.value
    ensures input.phone.None? ==> r.phone == c.phone
    ensures IsTruthy(photo) ==> r.photo == photo
    ensures !IsTruthy(photo) && input.photo.Some? ==> r.photo == input.photo
    ensures !IsTruthy(photo) && input.photo.None? ==> r.photo == c.photo
  {
    var newPhoto := if IsTruthy(photo) then photo else if input.photo.Some? then input.photo else c.photo;
    c.(name := Override(input.name, c.name),
       email := Override(input.email, c.email),
       phone := Override(input.phone, c.phone),
       photo := newPhoto)
  }

  // ---------------------------------------------------------------------
  // findAll: visibility -> search -> order -> page
  // ---------------------------------------------------------------------

  /** The WHERE clause: rows the requester may see that match the search term, in their stored order. */
  function Selection(rows: seq<Contact>, r: Requester, search: string): (sel: seq<Contact>)
    ensures |sel| <= |rows|
    ensures forall c :: c in sel <==> c in rows && CanAccess(r, c) && MatchesSearch(c, search)
    ensures DistinctIds(rows) ==> DistinctIds(sel)
  {
    if rows == [] then []
    else
      var rest := Selection(rows[1..], r, search);
      if CanAccess(r, rows[0]) && MatchesSearch(rows[0], search) then
        assert DistinctIds(rows) ==> forall j :: 0 <= j < |rest| ==> rows[0].id != rest[j].id by {
          if DistinctIds(rows) {
            forall j | 0 <= j < |rest| ensures rows[0].id != rest[j].id {
              assert rest[j] in rows[1..];
              var k :| 0 <= k < |rows[1..]| && rows[1..][k] == rest[j];
              assert rows[k + 1] == rest[j];
            }
          }
        }
        [rows[0]] + rest
      else rest
  }

  /** The whole filtered result in listing order, before the page cut. */
  function Ordered(rows: seq<Contact>, r: Requester, q: ListQuery): (s: seq<Contact>)
    requires DistinctIds(rows)
  {
    Sort(Selection(rows, r, q.search), q.sortBy, q.sortOrder)
  }

  datatype ListResult = ListResult(items: seq<Contact>, total: nat, page: int, limit: int, totalPages: nat)

  /**
    The response of findAll. Its items are one page of the visible,
    matching rows in the requested order; a non-admin only ever sees their
    own rows; total counts every visible matching row whatever the page;
    totalPages is the ceiling of total / limit; page and limit are echoed.
  */
  function List(rows: seq<Contact>, r: Requester, q: ListQuery): (res: ListResult)
    requires WellFormed(q) && DistinctIds(rows)
    ensures res.page == q.page && res.limit == q.limit
    ensures res.total == |Selection(rows, r, q.search)|
    ensures res.items == PageOf(Ordered(rows, r, q), q.page, q.limit)
    ensures |res.items| <= q.limit
    ensures forall c :: c in res.items ==> c in rows && CanAccess(r, c) && MatchesSearch(c, q.search)
    ensures r.role != AdminRole ==> forall c :: c in res.items ==> c.userId == r.userId
    ensures StrictlySorted(res.items, q.sortBy, q.sortOrder)
    ensures PagesCover(res.total, res.totalPages, q.limit)
  {
    var ordered := Ordered(rows, r, q);
    OrderedIsSelection(rows, r, q);
    var items := PageOf(ordered, q.page, q.limit);
    PageOfSorted(ordered, q.page, q.limit, q.sortBy, q.sortOrder);
    ListResult(items, |ordered|, q.page, q.limit, TotalPages(|ordered|, q.limit))
  }

  /** The listing order holds exactly the selected rows, each once. */
  lemma OrderedIsSelection(rows: seq<Contact>, r: Requester, q: ListQuery)
    requires DistinctIds(rows)
    ensures DistinctIds(Ordered(rows, r, q))
    ensures |Ordered(rows, r, q)| == |Selection(rows, r, q.search)|
    ensures forall c :: c in Ordered(rows, r, q) <==> c in rows && CanAccess(r, c) && MatchesSearch(c, q.search)
  {
    var selection := Selection(rows, r, q.search);
    var ordered := Sort(selection, q.sortBy, q.sortOrder);
    assert |multiset(ordered)| == |multiset(selection)|;
    forall c ensures c in ordered <==> c in selection {
      assert c in ordered <==> c in multiset(ordered);
    }
  }

  /**
    Fetching pages 1 to totalPages of one query returns every visible,
    matching row exactly once, in listing order, with no gap and no
    overlap: each response's items are the corresponding page of one
    ordered listing, those pages concatenated are the whole listing, its
    rows are distinct and are exactly the visible matching rows, and its
    length is total.
  */
  lemma PagesPartitionSelection(rows: seq<Contact>, r: Requester, q: ListQuery)
    requires WellFormed(q) && DistinctIds(rows)
    ensures forall p :: p >= 1 ==> List(rows, r, q.(page := p)).items == PageOf(Ordered(rows, r, q), p, q.limit)
    ensures PagesUpTo(Ordered(rows, r, q), q.limit, List(rows, r, q).totalPages) == Ordered(rows, r, q)
    ensures |Ordered(rows, r, q)| == List(rows, r, q).total
    ensures DistinctIds(Ordered(rows, r, q))
    ensures forall c :: c in Ordered(rows, r, q) <==> c in rows && CanAccess(r, c) && MatchesSearch(c, q.search)
  {
    var ordered := Ordered(rows, r, q);
    forall p | p >= 1 ensures List(rows, r, q.(page := p)).items == PageOf(ordered, p, q.limit) {
      var qp := q.(page := p);
      assert qp.search == q.search && qp.sortBy == q.sortBy && qp.sortOrder == q.sortOrder && qp.limit == q.limit;
      assert Ordered(rows, r, qp) == ordered;
    }
    OrderedIsSelection(rows, r, q);
    assert List(rows, r, q).totalPages == TotalPages(|ordered|, q.limit);
    PagesPartitionListing(ordered, q.limit);
  }

  /**
    An admin with no search term sees every stored row; anyone else sees
    exactly the rows they own.
  */
  lemma VisibilityOfListing(rows: seq<Contact>, r: Requester, q: ListQuery)
    requires WellFormed(q) && DistinctIds(rows) && q.search == ""
    ensures r.role == AdminRole ==> forall c :: c in Ordered(rows, r, q) <==> c in rows
    ensures r.role != AdminRole ==> forall c :: c in Ordered(rows, r, q) <==> c in rows && c.userId == r.userId
  {
    OrderedIsSelection(rows, r, q);
  }

  /** The rows of the table with id below n, in id order. */
  function RowsBelow(table: map<Id, Contact>, n: nat): (rows: seq<Contact>)
    requires forall id | id in table :: table[id].id == id
    ensures forall i, j :: 0 <= i < j < |rows| ==> rows[i].id < rows[j].id
    ensures forall c :: c in rows <==> c.id < n && c.id in table && table[c.id] == c
  {
    if n == 0 then []
    else RowsBelow(table, n - 1) + (if n - 1 in table then [table[n - 1]] else [])
  }

  // ---------------------------------------------------------------------
  // The contacts table
  // ---------------------------------------------------------------------

  class ContactStore {
    /** The persisted rows by id. */
    var table: map<Id, Contact>
    /** Every id ever handed out is below nextId, so a new id is never reused. */
    var nextId: Id

    ghost predicate Valid()
      reads this
    {
      forall id | id in table :: id < nextId && table[id].id == id
    }

    /** The stored rows, in id order. */
    function Rows(): (rows: seq<Contact>)
      reads this
      requires Valid()
      ensures DistinctIds(rows)
      ensures forall c :: c in rows <==> c.id in table && table[c.id] == c
    {
      RowsBelow(table, nextId)
    }

    constructor ()
      ensures Valid() && table == map[]
    {
      table := map[];
      nextId := 0;
    }

    /**
      create: the new row carries the request's fields, is owned by the
      requester and has the photo argument as its photo, whatever the body
      said about either; it gets a fresh id, and its owner can read it back.
    */
    method Create(dto: CreateContactInput, userId: UserId, photo: Option<string>, now: Timestamp) returns (c: Contact)
      requires Valid()
      modifies this
      ensures Valid()
      ensures c.id !in old(table) && table == old(table)[c.id := c]
      ensures c.id == old(nextId) && nextId == old(nextId) + 1
      ensures c.name == dto.name && c.email == dto.email && c.phone == dto.phone
      ensures c.userId == userId && c.photo == photo && c.createdAt == now
      ensures forall r: Requester | r.userId == userId :: Authorize(table, c.id, r) == Ok(c)
    {
      c := Contact(nextId, dto.name, dto.email, dto.phone, photo, userId, now);
      table := table[nextId := c];
      nextId := nextId + 1;
    }

    /** findAll over the current rows. */
    method FindAll(r: Requester, q: ListQuery) returns (res: ListResult)
      requires Valid() && WellFormed(q)
      ensures res == List(Rows(), r, q)
    {
      var rows := RowsBelow(table, nextId);
      res := List(rows, r, q);
    }

    /** findOne: the check sequence, and the stored contact when it passes. */
    method FindOne(id: Id, r: Requester) returns (res: Result<Contact, ServiceError>)
      requires Valid()
      ensures res == Authorize(table, id, r)
    {
      if id !in table {
        return Err(NotFound);
      }
      var contact := table[id];
      if r.role != AdminRole && contact.userId != r.userId {
        return Err(Forbidden);
      }
      res := Ok(contact);
    }

    /**
      update: when the check sequence fails the table is untouched and the
      error is returned; otherwise exactly that row is rewritten by
      ApplyUpdate and the re-read row is returned.
    */
    method Update(id: Id, input: UpdateInput, r: Requester, photo: Option<string>) returns (res: Result<Contact, ServiceError>)
      requires Valid()
      modifies this
      ensures Valid() && nextId == old(nextId)
      ensures res.Err? ==> res == old(Authorize(table, id, r)) && table == old(table)
      ensures res.Ok? <==> old(Authorize(table, id, r)).Ok?
      ensures res.Ok? ==> table == old(table)[id := ApplyUpdate(old(table)[id], input, photo)]
      ensures res.Ok? ==> id in table && res.value == table[id]
    {
      var check := FindOne(id, r);
      if check.Err? {
        return Err(check.error);
      }
      table := table[id := ApplyUpdate(check.value, input, photo)];
      res := Ok(table[id]);
    }

    /**
      remove: when the check sequence fails the table is untouched and the
      error is returned; otherwise exactly that id is deleted, every other
      row stays as it was, and a later lookup of the id is NotFound.
    */
    method Remove(id: Id, r: Requester) returns (res: Result<(), ServiceError>)
      requires Valid()
      modifies this
      ensures Valid() && nextId == old(nextId)
      ensures res.Err? ==> old(Authorize(table, id, r)) == Err(res.error) && table == old(table)
      ensures res.Ok? <==> old(Authorize(table, id, r)).Ok?
      ensures res.Ok? ==> table == old(table) - {id}
      ensures res.Ok? ==> forall other: Requester :: Authorize(table, id, other) == Err(NotFound)
    {
      var check := FindOne(id, r);
      if check.Err? {
        return Err(check.error);
      }
      table := table - {id};
      res := Ok(());
    }
  }
}
