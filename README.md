# Contact management: verified model of the contacts core

This project is a Dafny model of the core of a two-tier contact manager.
The REST backend stores "contacts": a name, an e-mail address, a phone number, an optional photo path, the owning user and a creation time.
Admins may read, change and delete every contact; any other user only the contacts they own.
The backend lists contacts with a search term, an ordering column and direction, and an offset/limit page.
The browser client edits contacts through a form with required fields and an e-mail pattern.

The model has one module per source file or concern:

- `wrappers.dfy` (`Wrappers`): `Option` and `Result`.
- `contact_entity.dfy` (`ContactEntity`): the `Contact` row.
- `create_contact_dto.dfy` (`CreateContactDto`): the create body and its validation rules.
- `query_contact_dto.dfy` (`QueryContactDto`): the list query, its validation and its defaults.
- `listing.dfy` (`Listing`): the three stages the database runs for the listing.
  These are the search filter, the ordering and the page cut.
  The file also holds the search as the query is written, apart from the escape and case-folding gaps listed under Left out (see Findings).
- `contacts_service.dfy` (`ContactsService`): the service.
  It holds the access predicate and the check sequence shared by read, update and delete.
  It composes the listing, and models the contacts table as the class `ContactStore`.
  The class keeps a `map<Id, Contact>` that `Create`, `Update` and `Remove` change in place.
- `contact_modal.dfy` (`ContactModal`): the client form.
  It models the field rules, the e-mail regular expression as a string predicate, and the multipart payload built by successive appends.
  It also models the choice between PUT and POST and the dialog state changed by a submission (class `ContactDialog`).

Main facts proved:

- `findAll` is a filter, then a sort, then a slice.
- A non-admin only ever sees their own rows.
- Every returned row matches the search term case-insensitively.
- Reading pages 1 to `totalPages` returns each visible matching row exactly once, in order, given the id tie-break (see Left out).
- `totalPages` is the ceiling of `total / limit`.
- Sorting DESC gives exactly the reverse of sorting ASC.
- `findOne`, `update` and `remove` report NotFound before Forbidden, refuse every non-owner who is not an admin, and leave the table unchanged on either error.
- The e-mail pattern can be decided without backtracking.
- Every address the pattern accepts has exactly one `@`, a non-empty local part, and a domain ending in `.` plus at least two letters.

Modelling choices:

- Ids are natural numbers handed out by a counter in the store.
  The database generates them in the original; here they are only fresh and never reused.
- The creation time is the `now` parameter of `Create`.
- Equal sort keys are ordered by id.
  ASC orders by (column, id) and DESC is the exact converse.
  The database leaves this order unspecified.
  With this choice the listing order is fully determined by the set of rows.
- Text columns are ordered by code point.
- The search compares ASCII lower-case forms.
- The library's `IsEmail` check is the function parameter `isEmail` of `CreateContactDto.Validate`.
- Query numbers arrive after the Number conversion as `NumberValue`.
  This is a finite real, or `NotFinite` for NaN and the infinities.
  `IsInt` is the test that the value equals its floor.
- The update body is four independently optional fields (`UpdateInput`).
  Backend/src/contacts/dto/update-contact.dto.ts is not part of this model.
  The model assumes the body carries the create fields, each optional.
- The photo path that the controller derives from an uploaded file is the `photo` parameter of `Create` and `Update`.
- The server's answer to the client's request is the `reply` parameter of `ContactDialog.Submit`.
- The browser's own validity check of the `type="email"` input is the `browserAcceptsEmail` parameter of `ContactDialog.Submit`.
  It runs before the form's submit handler, so a refused address sends nothing.
- The form's `photo` value is either seeded from the edited contact's stored path or, once the file input changes, its file list (`PhotoValue`).

Two behaviours of the code worth noting:

- An update replaces the photo only with a non-empty uploaded path.
  A `photo` text field in the update body is applied like any other field.
- A created contact takes the photo argument even when it is null.
  That argument overrides any `photo` in the body.

## Model

| member | source | states |
|---|---|---|
| `CreateContactDto.Validate` | Backend/src/contacts/dto/create-contact.dto.ts:4-20 | accepted iff name, email and phone are non-empty and email passes IsEmail. Phone gets no format check and photo never fails. A refusal names exactly the failing fields. |
| `QueryContactDto.ParseSortBy` | Backend/src/contacts/dto/query-contact.dto.ts:22-25 | sortBy is accepted exactly when it is one of the column names `name`, `email`, `createdAt`, and maps back to that name |
| `QueryContactDto.ParseSortOrder` | Backend/src/contacts/dto/query-contact.dto.ts:27-30 | sortOrder is accepted exactly when it is `ASC` or `DESC` (case-sensitive) |
| `QueryContactDto.Validate` | Backend/src/contacts/dto/query-contact.dto.ts:5-31 | accepted iff page and limit are absent or integers >= 1 and sortBy/sortOrder are absent or in their lists. An accepted query has page, limit >= 1 (no upper bound), the sent values, and otherwise the defaults 1, 10, "", createdAt, DESC. A refusal names exactly the failing fields. |
| `Listing.Occurs` | Backend/src/contacts/contacts.service.ts:46-51 | the search scan finds the term iff it occurs as a contiguous substring at some position |
| `Listing.BeforeIsStrictTotalOrder` | Backend/src/contacts/contacts.service.ts:54 | the listing order on a column and direction is irreflexive, asymmetric and transitive, and total on rows with different ids |
| `Listing.Sort` | Backend/src/contacts/contacts.service.ts:53-54 | ORDER BY returns a permutation of its input (same multiset) that is strictly ordered by the column in the requested direction and keeps ids distinct |
| `Listing.StrictlySortedUnique` | Backend/src/contacts/contacts.service.ts:54 | two strictly ordered arrangements of the same rows are equal, so the listing order does not depend on the stored order |
| `Listing.DescIsReverseOfAsc` | Backend/src/contacts/contacts.service.ts:54 | sorting a column DESC lists the same rows as ASC in exactly reverse order |
| `Listing.Offset` | Backend/src/contacts/contacts.service.ts:36 | the skip `(page - 1) * limit` is never negative for page, limit >= 1 |
| `Listing.PageOf` | Backend/src/contacts/contacts.service.ts:56-57 | a page holds at most `limit` rows. They are the rows from index `(page-1)*limit` on, and there are none when that index is past the end. |
| `Listing.TotalPages` | Backend/src/contacts/contacts.service.ts:68 | integer ceiling of total / limit: total <= pages*limit and (pages-1)*limit < total unless pages is 0 |
| `Listing.PagesUpToIsPrefix` | Backend/src/contacts/contacts.service.ts:57 | pages 1..n concatenated are the first min(n*limit, length) rows of the listing |
| `Listing.PagesPartitionListing` | Backend/src/contacts/contacts.service.ts:56-68 | pages 1..totalPages concatenated give back the whole ordered listing, and every page after totalPages is empty |
| `Listing.LiteralSearchAgrees` | Backend/src/contacts/contacts.service.ts:46-51 | for a search term with no `%` or `_`, the modelled ILIKE query selects exactly the rows the literal case-insensitive substring search selects. The model treats `\` as an ordinary character, so for the real query this holds for terms with no `%`, `_` or `\`. |
| `Listing.WildcardSearchOverMatches` | Backend/src/contacts/contacts.service.ts:49 | with the term `_`, the query as written lists a contact named Bob whose name and e-mail contain no underscore |
| `ContactsService.Authorize` | Backend/src/contacts/contacts.service.ts:79-86 | NotFound iff the id is missing, whoever asks. Forbidden iff the row exists and the requester is neither admin nor owner. Otherwise the stored row. |
| `ContactsService.ApplyUpdate` | Backend/src/contacts/contacts.service.ts:112-117 | each field present in the request replaces the stored one and absent ones are kept. A non-empty uploaded photo path wins over the stored photo and over any photo field. Id, owner and creation time never change. |
| `ContactsService.Selection` | Backend/src/contacts/contacts.service.ts:40-51 | a row is selected iff it is stored, the requester may access it (admin, or owner), and it matches the search term. An empty term is no filter. Distinct ids stay distinct. |
| `ContactsService.List` | Backend/src/contacts/contacts.service.ts:27-70 | items are the requested page of the selected rows in listing order, at most `limit` of them. A non-admin gets only own rows. Total counts every selected row whatever the page, totalPages is its ceiling over limit, and page and limit are echoed. |
| `ContactsService.OrderedIsSelection` | Backend/src/contacts/contacts.service.ts:38-54 | the ordered listing before the page cut holds exactly the selected rows, each once |
| `ContactsService.PagesPartitionSelection` | Backend/src/contacts/contacts.service.ts:56-69 | the items for any page p of one query are page p of a single ordered listing. Pages 1..totalPages concatenated are exactly that listing, which holds every visible matching row once and has length total. |
| `ContactsService.VisibilityOfListing` | Backend/src/contacts/contacts.service.ts:40-43 | with no search term an admin's listing holds every stored row and anyone else's holds exactly the rows they own |
| `ContactsService.RowsBelow` | Backend/src/contacts/contacts.service.ts:38 | the table scan lists each stored row with id below the bound exactly once, in increasing id order |
| `ContactsService.ContactStore.constructor` | Backend/src/contacts/contacts.service.ts:12-15 | the model's store starts as an empty, consistent table (the original's injected repository may already hold rows). Every other method needs only that consistency, so any stored state is covered. |
| `ContactsService.ContactStore.Create` | Backend/src/contacts/contacts.service.ts:17-25 | inserts exactly one row under a fresh id. The row has the body's name, email and phone, the requester as owner and the photo argument as photo (both override the body). Its owner can then read it back. |
| `ContactsService.ContactStore.FindAll` | Backend/src/contacts/contacts.service.ts:27-71 | the listing response over the stored rows |
| `ContactsService.ContactStore.FindOne` | Backend/src/contacts/contacts.service.ts:73-92 | the check sequence result: NotFound, Forbidden or the stored row |
| `ContactsService.ContactStore.Update` | Backend/src/contacts/contacts.service.ts:94-125 | on NotFound or Forbidden the table is unchanged. Otherwise exactly that row becomes ApplyUpdate of it, and the re-read row is returned. |
| `ContactsService.ContactStore.Remove` | Backend/src/contacts/contacts.service.ts:127-145 | on NotFound or Forbidden the table is unchanged. Otherwise exactly that id is deleted, every other row is kept, and any later lookup of the id is NotFound. |
| `ContactModal.IsEmailLike` | Frontend/src/components/ContactModal.tsx:136 | the first-`@` / last-`.` check accepts exactly the strings some split of which matches `^[A-Z0-9._%+-]+@[A-Z0-9.-]+\.[A-Z]{2,}$` case-insensitively |
| `ContactModal.AcceptedSplit` | Frontend/src/components/ContactModal.tsx:136 | any match of the pattern splits at the first `@` and the last `.` |
| `ContactModal.AcceptedEmailHasOneAt` | Frontend/src/components/ContactModal.tsx:136 | an accepted address contains exactly one `@`, with a non-empty local part before it |
| `ContactModal.AcceptedEmailDomainShape` | Frontend/src/components/ContactModal.tsx:136 | the domain of an accepted address is non-empty and ends in `.` followed by at least two letters |
| `ContactModal.InitialValues` | Frontend/src/components/ContactModal.tsx:33-35 | the form starts with the edited contact's name, email, phone and stored photo path; when adding, with empty inputs and an empty file list |
| `ContactModal.PhotoEntryAsWritten` | Frontend/src/components/ContactModal.tsx:82-84 | a `photo` entry is sent iff the value is a non-empty file list or a non-empty seeded path. It is the first file, or the path's first character as text. |
| `ContactModal.PhotoEntry` | Frontend/src/components/ContactModal.tsx:50-58 | the intended photo entry: the first picked file iff a non-empty file list was picked, otherwise none |
| `ContactModal.PhotoEntryAgreesOnPickedFiles` | Frontend/src/components/ContactModal.tsx:82-84 | for a picked file list the handler as written sends exactly the intended entry, present iff the list is non-empty |
| `ContactModal.StoredPhotoResentAsWritten` | Frontend/src/components/ContactModal.tsx:34-83 | editing a contact with a stored photo and picking no file makes the handler as written send the path's first character as `photo`, where the intended entry is none |
| `ContactModal.RequiredError` | Frontend/src/components/ContactModal.tsx:119-153 | a required field is in error iff its value is the empty string |
| `ContactModal.EmailError` | Frontend/src/components/ContactModal.tsx:133-139 | an empty email is "required". A non-empty one is in error iff it does not match the pattern. |
| `ContactModal.FormErrors` | Frontend/src/components/ContactModal.tsx:113-160 | the form has no errors iff name and phone are non-empty and email is non-empty and matches the pattern |
| `ContactModal.BuildPayload` | Frontend/src/components/ContactModal.tsx:77-84 | the payload is name, email, phone in that order. The first picked file is added under `photo` iff a non-empty file list was picked. Nothing else is added, in particular nothing for a seeded stored photo path (the corrected behaviour, see Findings). |
| `ContactModal.ChooseRequest` | Frontend/src/components/ContactModal.tsx:86-96 | PUT `/contacts/{id}` iff an existing contact is edited, otherwise POST `/contacts`, with the payload as body |
| `ContactModal.FailureText` | Frontend/src/components/ContactModal.tsx:100 | the error toast shows the server's message when it is present and non-empty, and otherwise exactly "Operation failed" |
| `ContactModal.ContactDialog.constructor` | Frontend/src/components/ContactModal.tsx:21-22 | a new dialog edits the given contact's id (or adds one when none is given), is not loading, not closed and has shown nothing |
| `ContactModal.ContactDialog.Submit` | Frontend/src/components/ContactModal.tsx:74-104 | when the browser refuses the e-mail input or the form has errors, nothing is sent and nothing changes. Otherwise the dialog sends exactly one request (PUT when editing, else POST). Its body is exactly name, email and phone, then the first picked file when a non-empty file list was picked. It closes only on success, shows exactly one toast and ends not loading. |

## Left out

- TypeORM and SQL internals are not modelled: the query builder, `getManyAndCount`, and the `user` relation loaded by `findOne`. The table is an in-memory map.
- `Listing.MatchesSearch`: the listing uses a literal substring search. The original's ILIKE treats `%` and `_` in the term as wildcards. That behaviour is modelled separately (`MatchesSearchAsWritten`) and reported under Findings. The backslash escape of LIKE is not modelled.
- `Listing.Lower`: case folding covers ASCII letters only. The database folds by its locale.
- `Listing.StrBefore`: text columns are ordered by code point, not by the database collation.
- `Listing.Sort`: the tie-break by id is a modelling choice. The database leaves the order of equal keys unspecified. Each page is a separate query in the original, so `Listing.PagesPartitionListing` and `ContactsService.PagesPartitionSelection` hold for it only when the sort column's values are distinct, or when the database orders ties the same way on every request. Otherwise pages can overlap or skip rows.
- `ContactsService.Authorize`: the route id is an unvalidated string that goes straight into the lookup. A route id that the database cannot parse as a value of the id column fails in the database before the NotFound check. The model's ids are natural numbers, so it does not capture that failure. The same holds for `FindOne`, `Update` and `Remove`.
- Database generation of ids and `createdAt` is not modelled. Ids come from a counter and `createdAt` is a parameter.
- `QueryContactDto.Validate`: page and limit are unbounded integers. The original accepts any integer-valued number >= 1, such as `limit=1e19`. It then passes LIMIT and OFFSET to the database, which refuses values of 2^63 and above. An accepted query whose `limit` or `(page - 1) * limit` reaches 2^63 fails there instead of returning a page, and the model (including `Listing.PagesPartitionListing`'s empty later pages) does not capture that failure.
- `Listing.TotalPages`: `Math.ceil` on a floating-point quotient is replaced by integer ceiling division. The two agree for all totals below 2^53.
- `ContactsService.ContactStore.Update`: an update with no fields and no photo leaves the row as it was. The database layer's behaviour on an empty update is not modelled. Validation of the update body is not modelled either, because update-contact.dto.ts is not part of this model.
- `QueryContactDto.Validate`: query values are taken to be strings (or numbers after conversion). A parameter sent twice, which arrives as an array and fails `IsString`, is not modelled.
- The controller (Backend/src/contacts/contacts.controller.ts) is left out: routing, the JWT guard and multer upload storage. Its one rule, photo = upload path or null, is the `photo` parameter.
- Concurrency is left out, including racing update and delete requests and the re-read after an update finding no row. Per-record atomicity belongs to the database.
- `ContactModal.ContactDialog.Submit`: the network call is not awaited in the model. Its outcome is the `reply` parameter. The React state, the FileReader preview, the rendering and the toast library are left out. Toasts are a list of notices.
- `ContactModal.ContactDialog.Submit`: the browser's validity rule for `type="email"` inputs (the HTML standard's "valid e-mail address") is not modelled, only passed in as `browserAcceptsEmail`. The model does not show which pattern-valid addresses it refuses, such as `a@x..co` or `a@-x.co`.
- `ContactModal.ContactDialog.Submit`: the request sends the intended payload (`BuildPayload`, see Findings). The as-written photo entry is modelled by `PhotoEntryAsWritten`.
- `ContactModal.FailureText`: a server message that is an array of strings, as validation errors send it, is not modelled. `Option<string>` holds a single text only.
- `ContactsService.ApplyUpdate` and `ContactsService.ContactStore.Create` assume that the validated bodies carry only their declared fields. The original spreads the body into the saved row, so an extra `id`, `userId` or `createdAt` field would pass through if validation let it. The guarantees "id, owner and creation time never change" and "fresh id" rest on that assumption.
- The dashboard, card and layout components are left out. They are rendering, theming, routing and UI state.

## Findings

| source | as written | input that shows it | evidently intended | confidence | as-written member | corrected member |
|---|---|---|---|---|---|---|
| Backend/src/contacts/contacts.service.ts:49 | the search term is pasted into `ILIKE '%term%'` unescaped, so `%` and `_` in it are wildcards | search `_` with a contact named "Bob", e-mail bob@x.io: it is listed although neither field contains `_` | a case-insensitive literal substring match on name or e-mail | medium, not executed | `Listing.WildcardSearchOverMatches` | `Listing.Occurs` |
| Frontend/src/components/ContactModal.tsx:82-83 | the form is seeded with the edited contact, so without a newly picked file `data.photo` is the stored path string; it is non-empty, and element 0 of it is appended as `photo` | edit a contact whose photo is "/uploads/a.jpg" and pick no file: the text "/" is sent as `photo` | `photo` is sent only when a file was picked | medium, not executed | `ContactModal.StoredPhotoResentAsWritten` | `ContactModal.BuildPayload` |
