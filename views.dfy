/**
 * What the contacts table shows: the contacts that pass the search box and
 * the status, suburb and tag filters, and the distinct suburbs and tags the
 * two drop-down filters offer.
 */
module ContactViews {
  import opened Text
  import opened Contacts

  /** The four filter controls; an empty value means "no filter". */
  datatype ContactFilter = ContactFilter(search: string, status: string, suburb: string, tag: string)

  const NoFilter := ContactFilter("", "", "", "")

  /** The search box against one contact, with `term` already lower-cased:
      first or last name or email (when there is one) case-insensitively,
      the phone number as typed. */
  predicate MatchesSearch(c: Contact, term: string) {
    var d := c.details;
    term == ""
    || Contains(ToLower(d.firstName), term)
    || Contains(ToLower(d.lastName), term)
    || Contains(d.phone, term)
    || (d.email != "" && Contains(ToLower(d.email), term))
  }

  /** The predicate `renderContactsTable` filters the store with. */
  predicate Matches(c: Contact, f: ContactFilter) {
    MatchesSearch(c, ToLower(f.search))
    && (f.status == "" || StatusName(c.status) == f.status)
    && (f.suburb == "" || c.details.suburb == f.suburb)
    && (f.tag == "" || f.tag in c.details.tags)
  }

  /** The rows of the contacts table, in store order. */
  function FilterContacts(cs: seq<Contact>, f: ContactFilter): (r: seq<Contact>)
    ensures |r| <= |cs|
    ensures forall c :: c in r <==> c in cs && Matches(c, f)
    decreases |cs|
  {
    if cs == [] then []
    else (if Matches(cs[0], f) then [cs[0]] else []) + FilterContacts(cs[1..], f)
  }

  /** Filtering keeps the survivors in store order: it distributes over concatenation. */
  lemma {:induction false} FilterAppend(a: seq<Contact>, b: seq<Contact>, f: ContactFilter)
    ensures FilterContacts(a + b, f) == FilterContacts(a, f) + FilterContacts(b, f)
    decreases |a|
  {
    if a == [] {
      assert a + b == b;
    } else {
      assert (a + b)[0] == a[0];
      assert (a + b)[1..] == a[1..] + b;
      FilterAppend(a[1..], b, f);
    }
  }

  /** A store whose every contact matches is shown whole. */
  lemma {:induction false} FilterAllMatch(cs: seq<Contact>, f: ContactFilter)
    requires forall k :: 0 <= k < |cs| ==> Matches(cs[k], f)
    ensures FilterContacts(cs, f) == cs
    decreases |cs|
  {
    if cs != [] {
      FilterAllMatch(cs[1..], f);
    }
  }

  /** With every control empty the table lists the whole store. */
  lemma NoFilterShowsAll(cs: seq<Contact>)
    ensures FilterContacts(cs, NoFilter) == cs
  {
    assert ToLower("") == "";
    FilterAllMatch(cs, NoFilter);
  }

  /** Filtering the shown rows again changes nothing. */
  lemma FilterIdempotent(cs: seq<Contact>, f: ContactFilter)
    ensures FilterContacts(FilterContacts(cs, f), f) == FilterContacts(cs, f)
  {
    var r := FilterContacts(cs, f);
    forall k | 0 <= k < |r| ensures Matches(r[k], f) {
      assert r[k] in r;
    }
    FilterAllMatch(r, f);
  }

  lemma {:induction false} ToLowerIdempotent(s: string)
    ensures ToLower(ToLower(s)) == ToLower(s)
  {
    forall k | 0 <= k < |s| ensures LowerChar(LowerChar(s[k])) == LowerChar(s[k]) {
    }
  }

  /** The search box is case-insensitive: typing a term in lower case shows the same rows. */
  lemma SearchCaseInsensitive(cs: seq<Contact>, f: ContactFilter)
    ensures FilterContacts(cs, f.(search := ToLower(f.search))) == FilterContacts(cs, f)
  {
    ToLowerIdempotent(f.search);
    var g := f.(search := ToLower(f.search));
    assert forall c :: Matches(c, g) == Matches(c, f);
    FilterSame(cs, f, g);
  }

  lemma {:induction false} FilterSame(cs: seq<Contact>, f: ContactFilter, g: ContactFilter)
    requires forall c :: Matches(c, g) == Matches(c, f)
    ensures FilterContacts(cs, g) == FilterContacts(cs, f)
    decreases |cs|
  {
    if cs != [] {
      FilterSame(cs[1..], f, g);
    }
  }

  // ---------------------------------------------------------------------------
  // Filter options: `[...new Set(xs)]`

  /** The distinct values of `xs` in order of first occurrence. */
  function Distinct<T(==, !new)>(xs: seq<T>): (r: seq<T>)
    ensures forall x :: x in r <==> x in xs
    ensures forall i, j :: 0 <= i < j < |r| ==> r[i] != r[j]
    ensures |r| <= |xs|
    decreases |xs|
  {
    if xs == [] then []
    else
      var n := |xs| - 1;
      var d := Distinct(xs[..n]);
      assert forall x :: x in xs <==> x in xs[..n] || x == xs[n] by {
        assert xs == xs[..n] + [xs[n]];
      }
      if xs[n] in d then d else d + [xs[n]]
  }

  /** A list without repeats is its own set of distinct values. */
  lemma {:induction false} DistinctOfDistinct<T(!new)>(xs: seq<T>)
    requires forall i, j :: 0 <= i < j < |xs| ==> xs[i] != xs[j]
    ensures Distinct(xs) == xs
    decreases |xs|
  {
    if xs != [] {
      var n := |xs| - 1;
      DistinctOfDistinct(xs[..n]);
      assert xs[n] !in xs[..n];
      assert xs == xs[..n] + [xs[n]];
    }
  }

  /** `contacts.map(c => c.suburb).filter(Boolean)`. */
  function NonEmptySuburbs(cs: seq<Contact>): (r: seq<string>)
    ensures forall s :: s in r <==> s != "" && exists k :: 0 <= k < |cs| && cs[k].details.suburb == s
    decreases |cs|
  {
    if cs == [] then []
    else
      var rest := NonEmptySuburbs(cs[1..]);
      assert forall k :: 1 <= k < |cs| ==> cs[k] == cs[1..][k - 1];
      (if cs[0].details.suburb != "" then [cs[0].details.suburb] else []) + rest
  }

  /** `contacts.flatMap(c => c.tags)`. */
  function AllTags(cs: seq<Contact>): (r: seq<string>)
    ensures forall t :: t in r <==> exists k :: 0 <= k < |cs| && t in cs[k].details.tags
    decreases |cs|
  {
    if cs == [] then []
    else
      var rest := AllTags(cs[1..]);
      assert forall k :: 1 <= k < |cs| ==> cs[k] == cs[1..][k - 1];
      cs[0].details.tags + rest
  }

  /** The suburb drop-down's options. */
  function SuburbOptions(cs: seq<Contact>): seq<string> {
    Distinct(NonEmptySuburbs(cs))
  }

  /** The tag drop-down's options. */
  function TagOptions(cs: seq<Contact>): seq<string> {
    Distinct(AllTags(cs))
  }

  /** Every suburb option is offered once, is non-empty, and picking it
      alone shows at least the contacts in that suburb; every suburb of the
      store is offered. */
  lemma SuburbOptionsSound(cs: seq<Contact>)
    ensures forall i, j :: 0 <= i < j < |SuburbOptions(cs)| ==> SuburbOptions(cs)[i] != SuburbOptions(cs)[j]
    ensures forall k :: 0 <= k < |cs| && cs[k].details.suburb != "" ==> cs[k].details.suburb in SuburbOptions(cs)
    ensures forall s :: s in SuburbOptions(cs) ==> s != "" && FilterContacts(cs, NoFilter.(suburb := s)) != []
  {
    forall s | s in SuburbOptions(cs) ensures s != "" && FilterContacts(cs, NoFilter.(suburb := s)) != [] {
      var k :| 0 <= k < |cs| && cs[k].details.suburb == s;
      assert ToLower("") == "";
      assert Matches(cs[k], NoFilter.(suburb := s));
    }
  }

  /** Every tag option is offered once and picking it alone shows at least
      one contact; every tag of the store is offered. */
  lemma TagOptionsSound(cs: seq<Contact>)
    ensures forall i, j :: 0 <= i < j < |TagOptions(cs)| ==> TagOptions(cs)[i] != TagOptions(cs)[j]
    ensures forall k, t :: 0 <= k < |cs| && t in cs[k].details.tags ==> t in TagOptions(cs)
    ensures forall t :: t in TagOptions(cs) && t != "" ==> FilterContacts(cs, NoFilter.(tag := t)) != []
  {
    forall t | t in TagOptions(cs) && t != "" ensures FilterContacts(cs, NoFilter.(tag := t)) != [] {
      var k :| 0 <= k < |cs| && t in cs[k].details.tags;
      assert ToLower("") == "";
      assert Matches(cs[k], NoFilter.(tag := t));
    }
  }
}
