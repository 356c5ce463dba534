/**
  The three stages of the contact listing that the database performs for
  the service: the case-insensitive search filter, the ordering on one
  column, and the offset/limit page cut.
*/
module Listing {
  import opened ContactEntity
  import opened QueryContactDto

  // ---------------------------------------------------------------------
  // Search: case-insensitive substring on name or email
  // ---------------------------------------------------------------------

  function LowerChar(c: char): char {
    if 'A' <= c <= 'Z' then (c as int + 32) as char else c
  }

  /** ASCII lower-casing, character by character. */
  function Lower(s: string): string {
    seq(|s|, i requires 0 <= i < |s| => LowerChar(s[i]))
  }

  /** `needle` sits in `hay` starting at index i. */
  predicate OccursAt(needle: string, hay: string, i: int) {
    0 <= i && i + |needle| <= |hay| && hay[i..i + |needle|] == needle
  }

  /** Substring search, scanning the start position from the left. */
  function Occurs(needle: string, hay: string): (found: bool)
    decreases |hay|
    ensures found <==> exists i :: OccursAt(needle, hay, i)
  {
    if |needle| > |hay| then false
    else if hay[..|needle|] == needle then (assert OccursAt(needle, hay, 0); true)
    else
      var rest := Occurs(needle, hay[1..]);
      if rest then
        var i :| OccursAt(needle, hay[1..], i);
        assert OccursAt(needle, hay, i + 1);
        true
      else
        assert forall i | OccursAt(needle, hay, i) :: i > 0 && OccursAt(needle, hay[1..], i - 1);
        false
  }

  predicate ContainsIgnoringCase(text: string, pattern: string) {
    Occurs(Lower(pattern), Lower(text))
  }

  /** An empty search term applies no filter at all. */
  predicate MatchesSearch(c: Contact, search: string) {
    search == "" || ContainsIgnoringCase(c.name, search) || ContainsIgnoringCase(c.email, search)
  }

  // ---------------------------------------------------------------------
  // The search as the query is written: the term is pasted into an ILIKE
  // pattern unescaped, so '%' and '_' in it act as wildcards
  // ---------------------------------------------------------------------

  /** LIKE matching: '%' matches any run of characters, '_' any one character. */
  function LikeMatch(pattern: string, text: string): bool
    decreases |pattern| + |text|
  {
    if pattern == [] then text == []
    else if pattern[0] == '%' then LikeMatch(pattern[1..], text) || (text != [] && LikeMatch(pattern, text[1..]))
    else text != [] && (pattern[0] == '_' || pattern[0] == text[0]) && LikeMatch(pattern[1..], text[1..])
  }

  /** `(name ILIKE '%search%' OR email ILIKE '%search%')`, guarded by a non-empty search. */
  predicate MatchesSearchAsWritten(c: Contact, search: string) {
    search == ""
    || LikeMatch("%" + Lower(search) + "%", Lower(c.name))
    || LikeMatch("%" + Lower(search) + "%", Lower(c.email))
  }

  predicate HasNoWildcard(s: string) {
    forall k :: 0 <= k < |s| ==> s[k] != '%' && s[k] != '_'
  }

  lemma {:induction false} AnyRunMatchesAll(text: string)
    ensures LikeMatch("%", text)
  {
    if text != [] {
      AnyRunMatchesAll(text[1..]);
    }
  }

  /** A wildcard-free pattern followed by '%' matches exactly the texts it is a prefix of. */
  lemma {:induction false} LiteralThenAnyRun(s: string, text: string)
    requires HasNoWildcard(s)
    ensures LikeMatch(s + "%", text) <==> |s| <= |text| && text[..|s|] == s
  {
    if s == [] {
      assert s + "%" == "%";
      AnyRunMatchesAll(text);
    } else {
      assert (s + "%")[1..] == s[1..] + "%";
      if text != [] {
        LiteralThenAnyRun(s[1..], text[1..]);
        assert |s| <= |text| && text[..|s|] == s <==> s[0] == text[0] && |s[1..]| <= |text[1..]| && text[1..][..|s[1..]|] == s[1..];
      }
    }
  }

  /** A leading '%' lets the rest of the pattern match any suffix. */
  lemma {:induction false} AnyRunThen(rest: string, text: string)
    ensures LikeMatch("%" + rest, text) <==> exists i :: 0 <= i <= |text| && LikeMatch(rest, text[i..])
  {
    assert ("%" + rest)[1..] == rest;
    if text == [] {
      assert text[0..] == text;
    } else {
      AnyRunThen(rest, text[1..]);
      assert text[0..] == text;
      if LikeMatch("%" + rest, text[1..]) {
        var i :| 0 <= i <= |text[1..]| && LikeMatch(rest, text[1..][i..]);
        assert text[1..][i..] == text[i + 1..];
      }
      if exists i :: 0 <= i <= |text| && LikeMatch(rest, text[i..]) {
        var i :| 0 <= i <= |text| && LikeMatch(rest, text[i..]);
        if i > 0 {
          assert text[1..][i - 1..] == text[i..];
        }
      }
    }
  }

  /** For a search term without '%' or '_', the query as written and the literal substring search agree. */
  lemma LiteralSearchAgrees(c: Contact, search: string)
    requires HasNoWildcard(search)
    ensures MatchesSearchAsWritten(c, search) <==> MatchesSearch(c, search)
  {
    var term := Lower(search);
    assert HasNoWildcard(term);
    forall text: string ensures LikeMatch("%" + term + "%", text) <==> Occurs(term, text) {
      assert "%" + term + "%" == "%" + (term + "%");
      AnyRunThen(term + "%", text);
      forall i | 0 <= i <= |text| ensures LikeMatch(term + "%", text[i..]) <==> OccursAt(term, text, i) {
        LiteralThenAnyRun(term, text[i..]);
        if i + |term| <= |text| {
          assert text[i..][..|term|] == text[i..i + |term|];
        }
      }
    }
  }

  lemma {:induction false} UnderscoreMatchesAnyNonEmpty(text: string)
    requires text != []
    ensures LikeMatch("%_%", text)
  {
    AnyRunMatchesAll(text[1..]);
    assert "%_%"[1..] == "_%" && "_%"[1..] == "%";
    assert LikeMatch("_%", text);
  }

  lemma NoUnderscoreInLower(s: string)
    requires forall k :: 0 <= k < |s| ==> s[k] != '_'
    ensures !Occurs("_", Lower(s))
  {
    var t := Lower(s);
    forall i | 0 <= i < |t| ensures !OccursAt("_", t, i) {
      assert t[i..i + 1][0] == t[i] == LowerChar(s[i]);
    }
  }

  /**
    The search term "_" lists every contact with a non-empty name; a
    contact named "Bob" (e-mail bob@x.io) is listed for it although neither
    its name nor its e-mail contains an underscore.
  */
  lemma WildcardSearchOverMatches()
    ensures forall c: Contact :: c.name != "" ==> MatchesSearchAsWritten(c, "_")
    ensures var bob := Contact(0, "Bob", "bob@x.io", "1", Wrappers.None, "u1", 0);
      MatchesSearchAsWritten(bob, "_") && !MatchesSearch(bob, "_")
  {
    assert Lower("_") == "_";
    assert "%" + "_" + "%" == "%_%";
    forall c: Contact | c.name != "" ensures MatchesSearchAsWritten(c, "_") {
      UnderscoreMatchesAnyNonEmpty(Lower(c.name));
    }
    NoUnderscoreInLower("Bob");
    NoUnderscoreInLower("bob@x.io");
  }

  // ---------------------------------------------------------------------
  // Ordering: ORDER BY <column> ASC|DESC, ties broken by id
  // ---------------------------------------------------------------------

  /** Strict lexicographic order on code points. */
  predicate StrBefore(a: string, b: string) {
    if a == [] then b != []
    else if b == [] then false
    else if a[0] != b[0] then a[0] < b[0]
    else StrBefore(a[1..], b[1..])
  }

  lemma {:induction false} StrBeforeIrreflexive(a: string)
    ensures !StrBefore(a, a)
  {
    if a != [] {
      StrBeforeIrreflexive(a[1..]);
    }
  }

  lemma {:induction false} StrBeforeTransitive(a: string, b: string, c: string)
    requires StrBefore(a, b) && StrBefore(b, c)
    ensures StrBefore(a, c)
  {
    if a != [] && b != [] && c != [] && a[0] == b[0] && b[0] == c[0] {
      StrBeforeTransitive(a[1..], b[1..], c[1..]);
    }
  }

  lemma {:induction false} StrBeforeTotal(a: string, b: string)
    ensures a == b || StrBefore(a, b) || StrBefore(b, a)
  {
    if a != [] && b != [] && a[0] == b[0] {
      StrBeforeTotal(a[1..], b[1..]);
      if a[1..] == b[1..] {
        assert a == [a[0]] + a[1..] && b == [b[0]] + b[1..];
      }
    }
  }

  /** The sort column of x is strictly before that of y. */
  predicate KeyBefore(x: Contact, y: Contact, key: SortBy) {
    match key
    case ByName => StrBefore(x.name, y.name)
    case ByEmail => StrBefore(x.email, y.email)
    case ByCreatedAt => x.createdAt < y.createdAt
  }

  predicate SameKey(x: Contact, y: Contact, key: SortBy) {
    match key
    case ByName => x.name == y.name
    case ByEmail => x.email == y.email
    case ByCreatedAt => x.createdAt == y.createdAt
  }

  /** Ascending on the column, then on id. */
  predicate AscBefore(x: Contact, y: Contact, key: SortBy) {
    KeyBefore(x, y, key) || (SameKey(x, y, key) && x.id < y.id)
  }

  /** x is listed before y; DESC is the exact converse of ASC. */
  predicate Before(x: Contact, y: Contact, key: SortBy, order: SortOrder) {
    match order
    case Asc => AscBefore(x, y, key)
    case Desc => AscBefore(y, x, key)
  }

  lemma KeyOrderFacts(x: Contact, y: Contact, z: Contact, key: SortBy)
    ensures !KeyBefore(x, x, key)
    ensures KeyBefore(x, y, key) && KeyBefore(y, z, key) ==> KeyBefore(x, z, key)
    ensures SameKey(x, y, key) || KeyBefore(x, y, key) || KeyBefore(y, x, key)
  {
    match key
    case ByName =>
      StrBeforeIrreflexive(x.name);
      StrBeforeTotal(x.name, y.name);
      if StrBefore(x.name, y.name) && StrBefore(y.name, z.name) {
        StrBeforeTransitive(x.name, y.name, z.name);
      }
    case ByEmail =>
      StrBeforeIrreflexive(x.email);
      StrBeforeTotal(x.email, y.email);
      if StrBefore(x.email, y.email) && StrBefore(y.email, z.email) {
        StrBeforeTransitive(x.email, y.email, z.email);
      }
    case ByCreatedAt =>
  }

  /** Before is a strict order, total on contacts with different ids. */
  lemma BeforeIsStrictTotalOrder(x: Contact, y: Contact, z: Contact, key: SortBy, order: SortOrder)
    ensures !Before(x, x, key, order)
    ensures Before(x, y, key, order) ==> !Before(y, x, key, order)
    ensures Before(x, y, key, order) && Before(y, z, key, order) ==> Before(x, z, key, order)
    ensures x.id != y.id ==> Before(x, y, key, order) || Before(y, x, key, order)
  {
    KeyOrderFacts(x, y, z, key);
    KeyOrderFacts(x, y, x, key);
    KeyOrderFacts(y, x, y, key);
    KeyOrderFacts(y, x, z, key);
    KeyOrderFacts(z, y, x, key);
    KeyOrderFacts(x, z, y, key);
    KeyOrderFacts(y, z, x, key);
    KeyOrderFacts(z, x, y, key);
  }

  ghost predicate StrictlySorted(s: seq<Contact>, key: SortBy, order: SortOrder) {
    forall i, j {:trigger Before(s[i], s[j], key, order)} :: 0 <= i < j < |s| ==> Before(s[i], s[j], key, order)
  }

  predicate DistinctIds(s: seq<Contact>) {
    forall i, j :: 0 <= i < j < |s| ==> s[i].id != s[j].id
  }

  /** Putting a row that comes before every row of an ordered sequence at its head keeps it ordered. */
  lemma ConsSorted(h: Contact, t: seq<Contact>, key: SortBy, order: SortOrder)
    requires StrictlySorted(t, key, order)
    requires forall c | c in t :: Before(h, c, key, order)
    ensures StrictlySorted([h] + t, key, order)
  {
    var r := [h] + t;
    forall i, j | 0 <= i < j < |r| ensures Before(r[i], r[j], key, order) {
      assert r[j] == t[j - 1];
      if i == 0 {
        assert t[j - 1] in t;
      } else {
        assert r[i] == t[i - 1];
      }
    }
  }

  /** Putting a row whose id no row of a sequence has at its head keeps the ids distinct. */
  lemma ConsDistinct(h: Contact, t: seq<Contact>)
    requires DistinctIds(t)
    requires forall c | c in t :: c.id != h.id
    ensures DistinctIds([h] + t)
  {
    var r := [h] + t;
    forall i, j | 0 <= i < j < |r| ensures r[i].id != r[j].id {
      assert r[j] == t[j - 1];
      if i == 0 {
        assert t[j - 1] in t;
      } else {
        assert r[i] == t[i - 1];
      }
    }
  }

  /** The tail of an ordered sequence of rows with distinct ids is one too. */
  lemma TailSorted(s: seq<Contact>, key: SortBy, order: SortOrder)
    requires s != [] && StrictlySorted(s, key, order) && DistinctIds(s)
    ensures StrictlySorted(s[1..], key, order) && DistinctIds(s[1..])
  {
    forall i, j | 0 <= i < j < |s[1..]| ensures Before(s[1..][i], s[1..][j], key, order) {
      assert Before(s[i + 1], s[j + 1], key, order);
    }
  }

  /** The head of an ordered sequence stays in front when x is inserted into its tail. */
  lemma InsertBehindHead(x: Contact, s: seq<Contact>, rest: seq<Contact>, key: SortBy, order: SortOrder)
    requires s != [] && StrictlySorted(s, key, order) && DistinctIds(s)
    requires Before(s[0], x, key, order) && x.id != s[0].id
    requires forall c :: c in rest <==> c == x || c in s[1..]
    requires StrictlySorted(rest, key, order) && DistinctIds(rest)
    ensures StrictlySorted([s[0]] + rest, key, order) && DistinctIds([s[0]] + rest)
  {
    forall c | c in rest ensures Before(s[0], c, key, order) && c.id != s[0].id {
      if c != x {
        var j :| 0 <= j < |s[1..]| && s[1..][j] == c;
        assert Before(s[0], s[j + 1], key, order);
      }
    }
    ConsSorted(s[0], rest, key, order);
    ConsDistinct(s[0], rest);
  }

  /** A row that the head of an ordered sequence does not precede goes in front of all of it. */
  lemma InsertAtHead(x: Contact, s: seq<Contact>, key: SortBy, order: SortOrder)
    requires s != [] && StrictlySorted(s, key, order) && DistinctIds(s)
    requires !Before(s[0], x, key, order)
    requires forall c | c in s :: c.id != x.id
    ensures StrictlySorted([x] + s, key, order) && DistinctIds([x] + s)
  {
    forall c | c in s ensures Before(x, c, key, order) {
      var k :| 0 <= k < |s| && s[k] == c;
      if k > 0 {
        assert Before(s[0], s[k], key, order);
      }
      BeforeIsStrictTotalOrder(x, s[0], s[k], key, order);
    }
    ConsSorted(x, s, key, order);
    ConsDistinct(x, s);
  }

  /** Insertion of x into an already ordered sequence. */
  function Insert(x: Contact, s: seq<Contact>, key: SortBy, order: SortOrder): (r: seq<Contact>)
    requires StrictlySorted(s, key, order)
    requires DistinctIds(s)
    requires forall c | c in s :: c.id != x.id
    ensures multiset(r) == multiset(s) + multiset{x}
    ensures forall c :: c in r <==> c == x || c in s
    ensures StrictlySorted(r, key, order)
    ensures DistinctIds(r)
  {
    if s == [] then [x]
    else if Before(s[0], x, key, order) then
      assert s == [s[0]] + s[1..];
      TailSorted(s, key, order);
      var rest := Insert(x, s[1..], key, order);
      InsertBehindHead(x, s, rest, key, order);
      [s[0]] + rest
    else
      InsertAtHead(x, s, key, order);
      [x] + s
  }

  /**
    ORDER BY: the listing holds exactly the rows it was given, strictly
    ordered by the column in the requested direction, equal column values
    ordered by id.
  */
  function Sort(s: seq<Contact>, key: SortBy, order: SortOrder): (r: seq<Contact>)
    requires DistinctIds(s)
    ensures multiset(r) == multiset(s)
    ensures StrictlySorted(r, key, order)
    ensures DistinctIds(r)
  {
    if s == [] then []
    else
      assert s == [s[0]] + s[1..];
      TailDistinct(s);
      var rest := Sort(s[1..], key, order);
      SameRows(rest, s[1..]);
      Insert(s[0], rest, key, order)
  }

  /** The tail of a sequence with distinct ids has distinct ids, none of them the head's. */
  lemma TailDistinct(s: seq<Contact>)
    requires s != [] && DistinctIds(s)
    ensures DistinctIds(s[1..])
    ensures forall c | c in s[1..] :: c.id != s[0].id
  {
    forall c | c in s[1..] ensures c.id != s[0].id {
      var j :| 0 <= j < |s[1..]| && s[1..][j] == c;
      assert s[j + 1] == c;
    }
  }

  /** Two arrangements of the same rows hold the same rows. */
  lemma SameRows<T>(a: seq<T>, b: seq<T>)
    requires multiset(a) == multiset(b)
    ensures forall c :: c in a <==> c in b
  {
    forall c ensures c in a <==> c in b {
      assert c in a <==> c in multiset(a);
    }
  }

  /** Two non-empty strictly ordered arrangements of the same rows start with the same row. */
  lemma SortedHeadsAgree(s: seq<Contact>, t: seq<Contact>, key: SortBy, order: SortOrder)
    requires StrictlySorted(s, key, order) && StrictlySorted(t, key, order)
    requires multiset(s) == multiset(t) && s != [] && t != []
    ensures s[0] == t[0]
  {
    assert s[0] in multiset(t) && t[0] in multiset(s);
    var k :| 0 <= k < |t| && t[k] == s[0];
    var m :| 0 <= m < |s| && s[m] == t[0];
    if k > 0 && m > 0 {
      BeforeIsStrictTotalOrder(s[0], t[0], s[0], key, order);
    } else if k > 0 {
      BeforeIsStrictTotalOrder(t[0], t[0], t[0], key, order);
    } else if m > 0 {
      BeforeIsStrictTotalOrder(s[0], s[0], s[0], key, order);
    }
  }

  lemma TailMultiset<T>(s: seq<T>)
    requires s != []
    ensures multiset(s[1..]) == multiset(s) - multiset{s[0]}
  {
    assert s == [s[0]] + s[1..];
  }

  /** Two strictly ordered arrangements of the same rows are the same sequence. */
  lemma {:induction false} StrictlySortedUnique(s: seq<Contact>, t: seq<Contact>, key: SortBy, order: SortOrder)
    requires StrictlySorted(s, key, order) && StrictlySorted(t, key, order)
    requires multiset(s) == multiset(t)
    ensures s == t
  {
    assert |s| == |multiset(s)| == |multiset(t)| == |t|;
    if s != [] {
      SortedHeadsAgree(s, t, key, order);
      TailMultiset(s);
      TailMultiset(t);
      StrictlySortedUnique(s[1..], t[1..], key, order);
      assert s == [s[0]] + s[1..] && t == [t[0]] + t[1..];
    }
  }

  function Reverse<T>(s: seq<T>): (r: seq<T>)
    ensures |r| == |s|
    ensures forall i :: 0 <= i < |s| ==> r[i] == s[|s| - 1 - i]
  {
    if s == [] then [] else Reverse(s[1..]) + [s[0]]
  }

  lemma {:induction false} ReversePreservesMultiset<T>(s: seq<T>)
    ensures multiset(Reverse(s)) == multiset(s)
  {
    if s != [] {
      ReversePreservesMultiset(s[1..]);
      assert s == [s[0]] + s[1..];
    }
  }

  lemma ReverseOfAscIsDesc(up: seq<Contact>, key: SortBy)
    requires StrictlySorted(up, key, Asc)
    ensures StrictlySorted(Reverse(up), key, Desc)
  {
    var down := Reverse(up);
    forall i, j | 0 <= i < j < |down| ensures Before(down[i], down[j], key, Desc) {
      assert down[i] == up[|up| - 1 - i] && down[j] == up[|up| - 1 - j];
      assert Before(up[|up| - 1 - j], up[|up| - 1 - i], key, Asc);
    }
  }

  /** Sorting on a column DESC lists the same rows as ASC, in exactly the reverse order. */
  lemma DescIsReverseOfAsc(s: seq<Contact>, key: SortBy)
    requires DistinctIds(s)
    ensures Sort(s, key, Desc) == Reverse(Sort(s, key, Asc))
  {
    var up := Sort(s, key, Asc);
    var down := Reverse(up);
    ReversePreservesMultiset(up);
    ReverseOfAscIsDesc(up, key);
    StrictlySortedUnique(Sort(s, key, Desc), down, key, Desc);
  }

  // ---------------------------------------------------------------------
  // Pagination: SKIP (page - 1) * limit TAKE limit
  // ---------------------------------------------------------------------

  function Min(a: int, b: int): int {
    if a <= b then a else b
  }

  function Offset(page: int, limit: int): (skip: int)
    requires page >= 1 && limit >= 1
    ensures skip >= 0
  {
    MulMonotone(0, page - 1, limit);
    (page - 1) * limit
  }

  /**
    One page of an ordered listing: at most `limit` rows, namely the rows
    from index (page - 1) * limit on, and none once that index is past the end.
  */
  function PageOf<T>(s: seq<T>, page: int, limit: int): (r: seq<T>)
    requires page >= 1 && limit >= 1
    ensures |r| == if Offset(page, limit) >= |s| then 0 else Min(limit, |s| - Offset(page, limit))
    ensures forall i :: 0 <= i < |r| ==> r[i] == s[Offset(page, limit) + i]
  {
    var skip := Offset(page, limit);
    s[Min(skip, |s|)..Min(skip + limit, |s|)]
  }

  /** A page of an ordered listing is ordered and holds only rows of the listing. */
  lemma PageOfSorted(s: seq<Contact>, page: int, limit: int, key: SortBy, order: SortOrder)
    requires page >= 1 && limit >= 1
    requires StrictlySorted(s, key, order)
    ensures StrictlySorted(PageOf(s, page, limit), key, order)
    ensures forall c :: c in PageOf(s, page, limit) ==> c in s
  {
    var p := PageOf(s, page, limit);
    var skip := Offset(page, limit);
    forall i, j | 0 <= i < j < |p| ensures Before(p[i], p[j], key, order) {
      assert Before(s[skip + i], s[skip + j], key, order);
    }
    forall c | c in p ensures c in s {
      var i :| 0 <= i < |p| && p[i] == c;
      assert s[skip + i] == c;
    }
  }

  lemma MulMonotone(a: int, b: int, c: int)
    requires a <= b && c >= 0
    ensures a * c <= b * c
  {
    assert b * c - a * c == (b - a) * c;
  }

  /** `pages` pages of `limit` rows hold `total` rows, and one page fewer would not. */
  predicate PagesCover(total: int, pages: int, limit: int) {
    total <= pages * limit && (pages == 0 || (pages - 1) * limit < total)
  }

  /** Math.ceil(total / limit), as integer ceiling division. */
  function TotalPages(total: nat, limit: int): (pages: nat)
    requires limit >= 1
    ensures PagesCover(total, pages, limit)
  {
    var q := (total + limit - 1) / limit;
    var rem := (total + limit - 1) % limit;
    assert q * limit + rem == total + limit - 1 && 0 <= rem < limit;
    assert (q - 1) * limit == q * limit - limit;
    q
  }

  /** Pages 1..n of s, concatenated. */
  function PagesUpTo<T>(s: seq<T>, limit: int, n: nat): seq<T>
    requires limit >= 1
  {
    if n == 0 then [] else PagesUpTo(s, limit, n - 1) + PageOf(s, n, limit)
  }

  lemma {:induction false} PagesUpToIsPrefix<T>(s: seq<T>, limit: int, n: nat)
    requires limit >= 1
    ensures PagesUpTo(s, limit, n) == s[..Min(n * limit, |s|)]
  {
    if n > 0 {
      PagesUpToIsPrefix(s, limit, n - 1);
      assert (n - 1) * limit + limit == n * limit;
      assert s[..Min(n * limit, |s|)] == s[..Min((n - 1) * limit, |s|)] + PageOf(s, n, limit);
    }
  }

  /**
    Reading pages 1 to TotalPages in turn yields the whole ordered listing,
    each row exactly once, and every later page is empty.
  */
  lemma PagesPartitionListing<T>(s: seq<T>, limit: int)
    requires limit >= 1
    ensures PagesUpTo(s, limit, TotalPages(|s|, limit)) == s
    ensures forall page :: page > TotalPages(|s|, limit) ==> PageOf(s, page, limit) == []
  {
    var n := TotalPages(|s|, limit);
    PagesUpToIsPrefix(s, limit, n);
    forall page | page > n ensures PageOf(s, page, limit) == [] {
      MulMonotone(n, page - 1, limit);
    }
  }
}
