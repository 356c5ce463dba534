/**
  The contact form of the browser client: the rules its fields are
  registered with, the multipart payload its submit handler assembles, the
  choice between creating and updating, and what the dialog does with the
  server's answer.
*/
module ContactModal {
  import opened Wrappers

  // ---------------------------------------------------------------------
  // The e-mail pattern  /^[A-Z0-9._%+-]+@[A-Z0-9.-]+\.[A-Z]{2,}$/i
  // ---------------------------------------------------------------------

  /** [A-Z] under the i flag. */
  predicate IsLetter(c: char) {
    'A' <= c <= 'Z' || 'a' <= c <= 'z'
  }

  predicate IsDigit(c: char) {
    '0' <= c <= '9'
  }

  /** [A-Z0-9._%+-] */
  predicate IsLocalChar(c: char) {
    IsLetter(c) || IsDigit(c) || c == '.' || c == '_' || c == '%' || c == '+' || c == '-'
  }

  /** [A-Z0-9.-] */
  predicate IsDomainChar(c: char) {
    IsLetter(c) || IsDigit(c) || c == '.' || c == '-'
  }

  /**
    One way the whole string matches the pattern: s[..at] is the local
    part, s[at] the '@', s[at+1..dot] the domain, s[dot] the escaped '.',
    and s[dot+1..] the final run of at least two letters.
  */
  predicate MatchesAt(s: string, at: int, dot: int) {
    && 1 <= at && at + 2 <= dot && dot + 3 <= |s|
    && s[at] == '@' && s[dot] == '.'
    && (forall k :: 0 <= k < at ==> IsLocalChar(s[k]))
    && (forall k :: at < k < dot ==> IsDomainChar(s[k]))
    && (forall k :: dot < k < |s| ==> IsLetter(s[k]))
  }

  /** The regular expression's language: some split of s fits the pattern. */
  ghost predicate MatchesEmailPattern(s: string) {
    exists at, dot :: MatchesAt(s, at, dot)
  }

  /** Index of the first c in s, or |s| when there is none. */
  function FirstIndex(s: string, c: char): (i: nat)
    ensures i <= |s|
    ensures i < |s| ==> s[i] == c
    ensures forall k :: 0 <= k < i ==> s[k] != c
  {
    if s == [] then 0
    else if s[0] == c then 0
    else 1 + FirstIndex(s[1..], c)
  }

  /** Index of the last c in s, or -1 when there is none. */
  function LastIndex(s: string, c: char): (i: int)
    ensures -1 <= i < |s|
    ensures i >= 0 ==> s[i] == c
    ensures forall k :: i < k < |s| ==> s[k] != c
  {
    if s == [] then -1
    else if s[|s| - 1] == c then |s| - 1
    else LastIndex(s[..|s| - 1], c)
  }

  /**
    Deciding the pattern without backtracking: neither character class
    contains '@', so the separator can only be the first '@'; the trailing
    run holds no '.', so the escaped dot can only be the last '.'.
  */
  function IsEmailLike(s: string): (ok: bool)
    ensures ok <==> MatchesEmailPattern(s)
  {
    var at := FirstIndex(s, '@');
    var dot := LastIndex(s, '.');
    if MatchesAt(s, at, dot) then true
    else
      assert forall a, d | MatchesAt(s, a, d) :: a == at && d == dot by {
        forall a, d | MatchesAt(s, a, d) ensures a == at && d == dot {
          assert !IsLocalChar('@') && !IsLetter('.');
        }
      }
      false
  }

  /** A domain part as the pattern requires: something, then '.', then at least two letters to the end. */
  predicate EndsInDotAndTwoLetters(domain: string) {
    exists d :: 1 <= d && d + 3 <= |domain| && domain[d] == '.' && forall k :: d < k < |domain| ==> IsLetter(domain[k])
  }

  /** In an accepted address the split is the one found by FirstIndex and LastIndex. */
  lemma AcceptedSplit(s: string) returns (at: int, dot: int)
    requires MatchesEmailPattern(s)
    ensures MatchesAt(s, at, dot) && at == FirstIndex(s, '@') && dot == LastIndex(s, '.')
  {
    at, dot :| MatchesAt(s, at, dot);
    assert !IsLocalChar('@') && !IsLetter('.');
  }

  /** Every address the pattern accepts has exactly one '@', and something before it. */
  lemma AcceptedEmailHasOneAt(s: string)
    requires MatchesEmailPattern(s)
    ensures 0 < FirstIndex(s, '@') < |s|
    ensures forall k :: 0 <= k < |s| && s[k] == '@' ==> k == FirstIndex(s, '@')
  {
    var at, dot := AcceptedSplit(s);
    forall k | 0 <= k < |s| && k != at ensures s[k] != '@' {
      if k < at {
        assert IsLocalChar(s[k]);
      } else if at < k < dot {
        assert IsDomainChar(s[k]);
      } else if dot < k {
        assert IsLetter(s[k]);
      }
    }
  }

  /** The part after the '@' of an accepted address ends in '.' followed by at least two letters. */
  lemma AcceptedEmailDomainShape(s: string)
    requires MatchesEmailPattern(s)
    ensures FirstIndex(s, '@') < |s| && EndsInDotAndTwoLetters(s[FirstIndex(s, '@') + 1..])
  {
    var at, dot := AcceptedSplit(s);
    var domain := s[at + 1..];
    assert domain[dot - at - 1] == s[dot];
    assert forall k :: dot - at - 1 < k < |domain| ==> IsLetter(domain[k]) by {
      forall k | dot - at - 1 < k < |domain| ensures IsLetter(domain[k]) {
        assert domain[k] == s[at + 1 + k];
      }
    }
  }

  // ---------------------------------------------------------------------
  // Field rules
  // ---------------------------------------------------------------------

  /** A selected file, known to the model only by the handle the browser gives it. */
  datatype FileHandle = FileHandle(fileName: string)

  /**
    What the form holds under `photo`: the value seeded from the edited
    contact (its stored path, or nothing) until the file input reports a
    change, and from then on the input's file list (empty when nothing was picked).
  */
  datatype PhotoValue = Seeded(path: Option<string>) | Picked(files: seq<FileHandle>)

  /** The form's values. */
  datatype FormValues = FormValues(name: string, email: string, phone: string, photo: PhotoValue)

  /** The contact handed to the dialog for editing, as the page that opens it holds it. */
  datatype EditedContact = EditedContact(id: string, name: string, email: string, phone: string, photo: Option<string>)

  /**
    The form's starting values, `contact || {}`: the edited contact's own
    fields, its stored photo path included; when adding, empty text inputs
    and the file input's empty file list.
  */
  function InitialValues(contact: Option<EditedContact>): (v: FormValues)
    ensures contact.Some? ==> v == FormValues(contact.value.name, contact.value.email, contact.value.phone, Seeded(contact.value.photo))
    ensures contact.None? ==> v.name == "" && v.email == "" && v.phone == "" && v.photo == Picked([])
  {
    match contact
    case Some(c) => FormValues(c.name, c.email, c.phone, Seeded(c.photo))
    case None => FormValues("", "", "", Picked([]))
  }

  datatype FieldError = Required(field: string) | InvalidEmail

  /** `required`: a field is missing when its value is the empty string. */
  function RequiredError(field: string, value: string): (e: Option<FieldError>)
    ensures e.Some? <==> value == ""
  {
    if value == "" then Some(Required(field)) else None
  }

  /** `required` then `pattern`: the pattern is only consulted for a non-empty value. */
  function EmailError(email: string): (e: Option<FieldError>)
    ensures email == "" ==> e == Some(Required("email"))
    ensures email != "" ==> (e.Some? <==> !MatchesEmailPattern(email))
    ensures e.Some? && email != "" ==> e.value == InvalidEmail
  {
    if email == "" then Some(Required("email"))
    else if !IsEmailLike(email) then Some(InvalidEmail)
    else None
  }

  /** The errors the form displays; submission goes ahead only when there are none. */
  function FormErrors(v: FormValues): (errors: seq<FieldError>)
    ensures errors == [] <==> v.name != "" && v.phone != "" && v.email != "" && MatchesEmailPattern(v.email)
  {
    var name := RequiredError("name", v.name);
    var email := EmailError(v.email);
    var phone := RequiredError("phone", v.phone);
    (if name.Some? then [name.value] else []) +
    (if email.Some? then [email.value] else []) +
    (if phone.Some? then [phone.value] else [])
  }

  // ---------------------------------------------------------------------
  // Payload and request
  // ---------------------------------------------------------------------

  datatype FormEntry = TextEntry(key: string, text: string) | FileEntry(key: string, file: FileHandle)

  predicate HasKey(payload: seq<FormEntry>, key: string) {
    exists i :: 0 <= i < |payload| && payload[i].key == key
  }

  /**
    The photo entry as the submit handler computes it: a `photo` value that
    is set and has a non-zero length contributes its element 0. For a picked
    file list that is the first file; for a seeded stored path it is the
    path's first character, sent as text.
  */
  function PhotoEntryAsWritten(photo: PhotoValue): (e: Option<FormEntry>)
    ensures e.Some? <==> (photo.Picked? && |photo.files| > 0) || (photo.Seeded? && photo.path.Some? && photo.path.value != "")
    ensures photo.Picked? && e.Some? ==> e.value == FileEntry("photo", photo.files[0])
    ensures photo.Seeded? && e.Some? ==> |photo.path.value| > 0 && e.value == TextEntry("photo", photo.path.value[..1])
  {
    match photo
    case Picked(files) => if |files| > 0 then Some(FileEntry("photo", files[0])) else None
    case Seeded(None) => None
    case Seeded(Some(path)) => if path != "" then Some(TextEntry("photo", path[..1])) else None
  }

  /** The photo entry the form is meant to send: the first picked file, and nothing when no file was picked. */
  function PhotoEntry(photo: PhotoValue): (e: Option<FormEntry>)
    ensures e.Some? <==> photo.Picked? && |photo.files| > 0
    ensures e.Some? ==> e.value == FileEntry("photo", photo.files[0])
  {
    if photo.Picked? && |photo.files| > 0 then Some(FileEntry("photo", photo.files[0])) else None
  }

  /** Once a file list is in the form, the handler as written sends what is meant. */
  lemma PhotoEntryAgreesOnPickedFiles(files: seq<FileHandle>)
    ensures PhotoEntryAsWritten(Picked(files)) == PhotoEntry(Picked(files))
    ensures PhotoEntry(Picked(files)).Some? <==> |files| > 0
  {
  }

  /**
    Editing a contact that has a stored photo and picking no new file: the
    handler as written sends a `photo` text entry holding the first character
    of the stored path (for "/uploads/a.jpg", the text "/"), where nothing
    was meant to be sent.
  */
  lemma StoredPhotoResentAsWritten(c: EditedContact)
    requires c.photo.Some? && c.photo.value != ""
    ensures PhotoEntryAsWritten(InitialValues(Some(c)).photo) == Some(TextEntry("photo", c.photo.value[..1]))
    ensures PhotoEntry(InitialValues(Some(c)).photo) == None
  {
  }

  /**
    The FormData built by successive appends: name, email and phone always,
    in that order, then the first picked file under "photo" when a file was
    picked, and nothing else.
  */
  method BuildPayload(data: FormValues) returns (payload: seq<FormEntry>)
    ensures |payload| >= 3
    ensures payload[0] == TextEntry("name", data.name)
    ensures payload[1] == TextEntry("email", data.email)
    ensures payload[2] == TextEntry("phone", data.phone)
    ensures HasKey(payload, "photo") <==> data.photo.Picked? && |data.photo.files| > 0
    ensures data.photo.Picked? && |data.photo.files| > 0 ==> payload == payload[..3] + [FileEntry("photo", data.photo.files[0])]
    ensures !(data.photo.Picked? && |data.photo.files| > 0) ==> |payload| == 3
  {
    payload := [];
    payload := payload + [TextEntry("name", data.name)];
    payload := payload + [TextEntry("email", data.email)];
    payload := payload + [TextEntry("phone", data.phone)];
    var photo := PhotoEntry(data.photo);
    if photo.Some? {
      payload := payload + [photo.value];
      assert payload[3].key == "photo";
    }
  }

  datatype Verb = Put | Post

  datatype Request = Request(verb: Verb, path: string, body: seq<FormEntry>)

  /** Editing an existing contact (its id given) updates it in place; otherwise a new one is created. */
  function ChooseRequest(editing: Option<string>, body: seq<FormEntry>): (req: Request)
    ensures req.body == body
    ensures req.verb == Put <==> editing.Some?
    ensures editing.Some? ==> req.path == "/contacts/" + editing.value
    ensures editing.None? ==> req.path == "/contacts"
  {
    match editing
    case Some(id) => Request(Put, "/contacts/" + id, body)
    case None => Request(Post, "/contacts", body)
  }

  /** A toast shown to the user. */
  datatype Notice = SuccessNotice(text: string) | ErrorNotice(text: string)

  /** The error toast: the server's message, or a fixed text when it sent none (or an empty one). */
  function FailureText(serverMessage: Option<string>): (text: string)
    ensures text != ""
    ensures serverMessage.Some? && serverMessage.value != "" ==> text == serverMessage.value
    ensures !(serverMessage.Some? && serverMessage.value != "") ==> text == "Operation failed"
  {
    if serverMessage.Some? && serverMessage.value != "" then serverMessage.value else "Operation failed"
  }

  /**
    The dialog's state that a submission changes. The server's answer is a
    parameter: Ok when the request succeeded, otherwise the message the
    server sent, if any. So is the browser's own validity check of the
    `type="email"` input, which runs before the form's submit handler.
  */
  class ContactDialog {
    /** The contact being edited, by id; None when adding a new one. */
    const editing: Option<string>
    var loading: bool
    var closed: bool
    var notices: seq<Notice>

    constructor (contact: Option<EditedContact>)
      ensures editing == (if contact.Some? then Some(contact.value.id) else None)
      ensures !loading && !closed && notices == []
    {
      editing := if contact.Some? then Some(contact.value.id) else None;
      loading := false;
      closed := false;
      notices := [];
    }

    /**
      Submitting the form: when the browser refuses the e-mail input or the
      form has errors, nothing is sent and nothing changes; otherwise exactly
      one request is sent (PUT when editing, POST otherwise) with the
      assembled payload, the dialog closes only when the request succeeded,
      exactly one toast is shown, and it ends not loading.
    */
    method Submit(data: FormValues, browserAcceptsEmail: string -> bool, reply: Result<(), Option<string>>) returns (sent: Option<Request>)
      modifies this
      ensures !browserAcceptsEmail(data.email) || FormErrors(data) != [] ==>
        sent.None? && loading == old(loading) && closed == old(closed) && notices == old(notices)
      ensures browserAcceptsEmail(data.email) && FormErrors(data) == [] ==> sent.Some? && !loading
      ensures sent.Some? ==> sent.value.verb == (if editing.Some? then Put else Post)
      ensures sent.Some? ==> sent.value.path == (if editing.Some? then "/contacts/" + editing.value else "/contacts")
      ensures sent.Some? ==> |sent.value.body| >= 3 && sent.value.body[..3] == [TextEntry("name", data.name), TextEntry("email", data.email), TextEntry("phone", data.phone)]
      ensures sent.Some? ==> (HasKey(sent.value.body, "photo") <==> data.photo.Picked? && |data.photo.files| > 0)
      ensures sent.Some? ==> (sent.value.body ==
        [TextEntry("name", data.name), TextEntry("email", data.email), TextEntry("phone", data.phone)] +
        (if data.photo.Picked? && |data.photo.files| > 0 then [FileEntry("photo", data.photo.files[0])] else []))
      ensures sent.Some? ==> closed == (old(closed) || reply.Ok?)
      ensures sent.Some? && reply.Ok? ==> notices == old(notices) + [SuccessNotice(if editing.Some? then "Contact updated successfully" else "Contact created successfully")]
      ensures sent.Some? && reply.Err? ==> notices == old(notices) + [ErrorNotice(FailureText(reply.error))]
    {
      if !browserAcceptsEmail(data.email) || FormErrors(data) != [] {
        return None;
      }
      loading := true;
      var payload := BuildPayload(data);
      var request := ChooseRequest(editing, payload);
      sent := Some(request);
      if reply.Ok? {
        notices := notices + [SuccessNotice(if editing.Some? then "Contact updated successfully" else "Contact created successfully")];
        closed := true;
      } else {
        notices := notices + [ErrorNotice(FailureText(reply.error))];
      }
      loading := false;
    }
  }
}
