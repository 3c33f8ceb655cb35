/**
 * Contacts, opt-out records and the outbound message log of the browser
 * console, and the pure functions the store's operations are specified by:
 * id allocation, removal by id, field replacement, status flips and the
 * recipient list of a send.
 */
module Contacts {
  import opened Text
  import opened Wrappers

  datatype Status = Active | OptedOut

  /** The status as stored and as compared against the status filter. */
  function StatusName(s: Status): string {
    match s
    case Active => "active"
    case OptedOut => "opted_out"
  }

  /** The fields a user edits: everything but id, status and dateAdded. */
  datatype Details = Details(firstName: string, lastName: string, phone: string, email: string,
                             address: string, suburb: string, tags: seq<string>)

  datatype Contact = Contact(id: int, details: Details, status: Status, dateAdded: string)

  datatype OptOut = OptOut(id: int, contactId: int, reason: string, dateOptedOut: string,
                           originalMessage: string, campaign: string)

  /** One entry of the outbound message log. `id` is the integer part of the
      logged id; the random fraction added to it is not modelled. */
  datatype LogEntry = LogEntry(id: int, contactId: int, message: string, status: string,
                               sentAt: string, campaign: string)

  /** The raw values of the add/edit contact form; `tags` is the comma-separated text. */
  datatype ContactForm = ContactForm(firstName: string, lastName: string, phone: string, email: string,
                                     address: string, suburb: string, tags: string)

  // ---------------------------------------------------------------------------
  // Ids

  predicate UniqueIds(cs: seq<Contact>) {
    forall i, j :: 0 <= i < j < |cs| ==> cs[i].id != cs[j].id
  }

  predicate HasId(cs: seq<Contact>, id: int) {
    exists k :: 0 <= k < |cs| && cs[k].id == id
  }

  /** `Math.max(...contacts.map(c => c.id))` on a non-empty store. */
  function MaxId(cs: seq<Contact>): (m: int)
    requires |cs| > 0
    ensures HasId(cs, m)
    ensures forall k :: 0 <= k < |cs| ==> cs[k].id <= m
    decreases |cs|
  {
    if |cs| == 1 then cs[0].id
    else
      var rest := MaxId(cs[1..]);
      assert forall k :: 1 <= k < |cs| ==> cs[k] == cs[1..][k - 1];
      if cs[0].id >= rest then cs[0].id else rest
  }

  /** The id a new contact receives: one more than the largest id, and 1 in
      an empty store (the code as written yields -Infinity there; see
      NextIdAsWritten). */
  function NextId(cs: seq<Contact>): (r: int)
    ensures forall k :: 0 <= k < |cs| ==> cs[k].id < r
    ensures |cs| > 0 ==> HasId(cs, r - 1)
  {
    if |cs| == 0 then 1 else MaxId(cs) + 1
  }

  /** A JavaScript number, as far as `Math.max(...ids) + 1` needs one. */
  datatype JsNumber = Finite(value: int) | NegativeInfinity

  /** `Math.max(...xs)`; `Math.max()` of nothing is -Infinity. */
  function JsMax(xs: seq<JsNumber>): (r: JsNumber)
    ensures r.Finite? <==> exists k :: 0 <= k < |xs| && xs[k].Finite?
    ensures forall k :: 0 <= k < |xs| && xs[k].Finite? ==> r.Finite? && xs[k].value <= r.value
    decreases |xs|
  {
    if xs == [] then NegativeInfinity
    else
      var rest := JsMax(xs[1..]);
      assert forall k :: 1 <= k < |xs| ==> xs[k] == xs[1..][k - 1];
      match (xs[0], rest)
      case (NegativeInfinity, _) => rest
      case (Finite(a), NegativeInfinity) => xs[0]
      case (Finite(a), Finite(b)) => if a >= b then xs[0] else rest
  }

  /** `Math.max(...ids) + 1` exactly as the store computes a new id. */
  function NextIdAsWritten(ids: seq<JsNumber>): JsNumber {
    match JsMax(ids)
    case Finite(m) => Finite(m + 1)
    case NegativeInfinity => NegativeInfinity
  }

  function JsIds(cs: seq<Contact>): (r: seq<JsNumber>)
    ensures |r| == |cs| && forall k :: 0 <= k < |cs| ==> r[k] == Finite(cs[k].id)
  {
    seq(|cs|, k requires 0 <= k < |cs| => Finite(cs[k].id))
  }

  /** As written, a store emptied by deletion hands out -Infinity, and keeps
      handing it out: two contacts added after that share one id. */
  lemma NextIdAsWrittenRepeats()
    ensures NextIdAsWritten([]) == NegativeInfinity
    ensures NextIdAsWritten([NextIdAsWritten([])]) == NextIdAsWritten([])
  {
    assert JsMax([NegativeInfinity]) == NegativeInfinity by {
      assert [NegativeInfinity][1..] == [];
    }
  }

  /** On a non-empty store the corrected id agrees with the code as written. */
  lemma NextIdAgrees(cs: seq<Contact>)
    requires |cs| > 0
    ensures NextIdAsWritten(JsIds(cs)) == Finite(NextId(cs))
  {
    var m := JsMax(JsIds(cs));
    var k :| 0 <= k < |cs| && cs[k].id == MaxId(cs);
    assert m.Finite? && m.value >= MaxId(cs);
    var j :| 0 <= j < |cs| && JsIds(cs)[j].Finite? && JsIds(cs)[j].value == m.value by {
      JsMaxAttained(JsIds(cs));
    }
  }

  lemma {:induction false} JsMaxAttained(xs: seq<JsNumber>)
    requires JsMax(xs).Finite?
    ensures exists j :: 0 <= j < |xs| && xs[j].Finite? && xs[j].value == JsMax(xs).value
    decreases |xs|
  {
    assert xs != [];
    var rest := JsMax(xs[1..]);
    if rest.Finite? && JsMax(xs) == rest {
      JsMaxAttained(xs[1..]);
      var j :| 0 <= j < |xs[1..]| && xs[1..][j].Finite? && xs[1..][j].value == rest.value;
      assert xs[j + 1] == xs[1..][j];
    }
  }

  /** Appending a contact with the next id keeps ids unique. */
  lemma AppendFreshKeepsUnique(cs: seq<Contact>, c: Contact)
    requires UniqueIds(cs) && c.id == NextId(cs)
    ensures UniqueIds(cs + [c])
  {
  }

  // ---------------------------------------------------------------------------
  // Removal by id: `contacts.filter(c => !ids.includes(c.id))`

  function RemoveIds(cs: seq<Contact>, ids: seq<int>): (r: seq<Contact>)
    ensures |r| <= |cs|
    ensures forall c :: c in r <==> c in cs && c.id !in ids
    decreases |cs|
  {
    if cs == [] then []
    else (if cs[0].id in ids then [] else [cs[0]]) + RemoveIds(cs[1..], ids)
  }

  /** Removal keeps the survivors in their original order. */
  lemma {:induction false} RemoveIdsAppend(a: seq<Contact>, b: seq<Contact>, ids: seq<int>)
    ensures RemoveIds(a + b, ids) == RemoveIds(a, ids) + RemoveIds(b, ids)
    decreases |a|
  {
    if a == [] {
      assert a + b == b;
    } else {
      assert (a + b)[0] == a[0];
      assert (a + b)[1..] == a[1..] + b;
      RemoveIdsAppend(a[1..], b, ids);
    }
  }

  /** Removing nothing changes nothing; removal is idempotent. */
  lemma {:induction false} RemoveIdsNothing(cs: seq<Contact>, ids: seq<int>)
    requires forall k :: 0 <= k < |cs| ==> cs[k].id !in ids
    ensures RemoveIds(cs, ids) == cs
    decreases |cs|
  {
    if cs != [] {
      RemoveIdsNothing(cs[1..], ids);
    }
  }

  lemma RemoveIdsIdempotent(cs: seq<Contact>, ids: seq<int>)
    ensures RemoveIds(RemoveIds(cs, ids), ids) == RemoveIds(cs, ids)
  {
    var r := RemoveIds(cs, ids);
    forall k | 0 <= k < |r| ensures r[k].id !in ids {
      assert r[k] in r;
    }
    RemoveIdsNothing(r, ids);
  }

  lemma {:induction false} RemoveIdsKeepsUnique(cs: seq<Contact>, ids: seq<int>)
    requires UniqueIds(cs)
    ensures UniqueIds(RemoveIds(cs, ids))
    decreases |cs|
  {
    if cs != [] {
      var rest := RemoveIds(cs[1..], ids);
      RemoveIdsKeepsUnique(cs[1..], ids);
      forall k | 0 <= k < |rest| ensures rest[k].id != cs[0].id {
        assert rest[k] in cs[1..];
        var j :| 0 <= j < |cs[1..]| && cs[1..][j] == rest[k];
        assert cs[j + 1] == rest[k];
      }
    }
  }

  // ---------------------------------------------------------------------------
  // Lookup and in-place field updates

  /** `contacts.findIndex(c => c.id === id)`. */
  function IndexOfId(cs: seq<Contact>, id: int): (r: Option<nat>)
    ensures r.None? <==> !HasId(cs, id)
    ensures r.Some? ==> r.value < |cs| && cs[r.value].id == id
                        && forall j :: 0 <= j < r.value ==> cs[j].id != id
    decreases |cs|
  {
    if cs == [] then None
    else if cs[0].id == id then Some(0)
    else
      match IndexOfId(cs[1..], id)
      case None =>
        assert forall k :: 1 <= k < |cs| ==> cs[k] == cs[1..][k - 1];
        None
      case Some(i) => Some(i + 1)
  }

  /** The form-to-fields mapping shared by adding and editing a contact. */
  function FormDetails(f: ContactForm): Details {
    Details(f.firstName, f.lastName, f.phone, f.email, f.address, f.suburb, ParseTagList(f.tags))
  }

  /** `tags ? tags.split(',').map(t => t.trim()).filter(t => t) : []`: the
      tags are exactly the non-empty trimmed comma-separated pieces. */
  function ParseTagList(s: string): (r: seq<string>)
    ensures forall k :: 0 <= k < |r| ==> r[k] != "" && IsTrimmed(r[k]) && ',' !in r[k]
    ensures forall t :: t in r <==> t != "" && exists p :: p in Split(s, ',') && Trim(p) == t
  {
    if s == "" then
      TrimEmpty("");
      []
    else
      var raw := Split(s, ',');
      TrimAllCommaFree(raw);
      var r := NonEmpty(TrimAll(raw));
      assert forall k :: 0 <= k < |r| ==> r[k] in TrimAll(raw);
      TrimAllMembers(raw);
      r
  }

  /** A trimmed piece list holds exactly the trimmed forms of the pieces. */
  lemma TrimAllMembers(raw: seq<string>)
    ensures forall t :: t in TrimAll(raw) <==> exists p :: p in raw && Trim(p) == t
  {
    forall t | t in TrimAll(raw) ensures exists p :: p in raw && Trim(p) == t {
      var k :| 0 <= k < |raw| && TrimAll(raw)[k] == t;
      assert raw[k] in raw;
    }
    forall t | exists p :: p in raw && Trim(p) == t ensures t in TrimAll(raw) {
      var p :| p in raw && Trim(p) == t;
      var k :| 0 <= k < |raw| && raw[k] == p;
      assert TrimAll(raw)[k] == t;
    }
  }

  /** The tag list is the non-empty trimmed pieces, in order, for every input. */
  lemma ParseTagListPieces(s: string)
    ensures ParseTagList(s) == NonEmpty(TrimAll(Split(s, ',')))
  {
    if s == "" {
      TrimEmpty("");
      assert TrimAll(Split(s, ',')) == [""];
    }
  }

  /** Tags typed before a comma come before the tags typed after it. */
  lemma ParseTagListAppend(a: string, b: string)
    ensures ParseTagList(a + "," + b) == ParseTagList(a) + ParseTagList(b)
  {
    var x, y := Split(a, ','), Split(b, ',');
    SplitAppend(a, b, ',');
    TrimAllAppend(x, y);
    NonEmptyAppend(TrimAll(x), TrimAll(y));
    ParseTagListPieces(a + "," + b);
    ParseTagListPieces(a);
    ParseTagListPieces(b);
  }

  lemma TrimAllAppend(xs: seq<string>, ys: seq<string>)
    ensures TrimAll(xs + ys) == TrimAll(xs) + TrimAll(ys)
  {
  }

  lemma TrimAllCommaFree(xs: seq<string>)
    requires forall k :: 0 <= k < |xs| ==> ',' !in xs[k]
    ensures forall x :: x in TrimAll(xs) ==> ',' !in x && IsTrimmed(x)
  {
    var ts := TrimAll(xs);
    forall k | 0 <= k < |ts| ensures ',' !in ts[k] {
      if ',' in ts[k] { TrimChars(xs[k], ','); }
    }
  }

  function TrimAll(xs: seq<string>): (r: seq<string>)
    ensures |r| == |xs| && forall k :: 0 <= k < |xs| ==> r[k] == Trim(xs[k])
  {
    seq(|xs|, k requires 0 <= k < |xs| => Trim(xs[k]))
  }

  /** `xs.filter(x => x)` on strings. */
  function NonEmpty(xs: seq<string>): (r: seq<string>)
    ensures forall x :: x in r <==> x in xs && x != ""
    decreases |xs|
  {
    if xs == [] then [] else (if xs[0] == "" then [] else [xs[0]]) + NonEmpty(xs[1..])
  }

  lemma {:induction false} NonEmptyAppend(xs: seq<string>, ys: seq<string>)
    ensures NonEmpty(xs + ys) == NonEmpty(xs) + NonEmpty(ys)
    decreases |xs|
  {
    if xs == [] {
      assert xs + ys == ys;
    } else {
      assert (xs + ys)[0] == xs[0];
      assert (xs + ys)[1..] == xs[1..] + ys;
      NonEmptyAppend(xs[1..], ys);
    }
  }

  /** What the edit form shows for a contact (`tags.join(', ')`). */
  function EditForm(c: Contact): ContactForm {
    var d := c.details;
    ContactForm(d.firstName, d.lastName, d.phone, d.email, d.address, d.suburb, Join(d.tags, ", "))
  }

  /** Tags a user can have typed into the form: non-empty, trimmed, comma-free. */
  predicate FormTags(tags: seq<string>) {
    forall k :: 0 <= k < |tags| ==> tags[k] != "" && IsTrimmed(tags[k]) && ',' !in tags[k]
  }

  function PadAll(xs: seq<string>): (r: seq<string>)
    ensures |r| == |xs| && forall k :: 0 <= k < |xs| ==> r[k] == " " + xs[k]
  {
    seq(|xs|, k requires 0 <= k < |xs| => " " + xs[k])
  }

  lemma {:induction false} JoinCommaSpace(xs: seq<string>)
    requires |xs| >= 1
    ensures Join(xs, ", ") == Join([xs[0]] + PadAll(xs[1..]), ",")
    decreases |xs|
  {
    if |xs| > 1 {
      var tail := PadAll(xs[2..]);
      JoinCommaSpace(xs[1..]);
      assert xs[1..][1..] == xs[2..];
      assert PadAll(xs[1..]) == [" " + xs[1]] + tail;
      JoinHead(" ", xs[1], tail, ",");
      assert ([xs[0]] + PadAll(xs[1..]))[1..] == [" " + xs[1]] + tail;
    }
  }

  lemma {:induction false} NonEmptyAll(xs: seq<string>)
    requires forall k :: 0 <= k < |xs| ==> xs[k] != ""
    ensures NonEmpty(xs) == xs
    decreases |xs|
  {
    if xs != [] {
      NonEmptyAll(xs[1..]);
    }
  }

  /** Showing a contact's tags in the edit form and saving it unchanged gives
      back the same tags. */
  lemma EditTagsRoundTrip(tags: seq<string>)
    requires FormTags(tags)
    ensures ParseTagList(Join(tags, ", ")) == tags
  {
    if tags != [] {
      var parts := [tags[0]] + PadAll(tags[1..]);
      JoinCommaSpace(tags);
      PaddedPieces(tags);
      SplitJoin(parts, ',');
      JoinNonEmpty(parts, ",");
      NonEmptyAll(tags);
    }
  }

  /** The pieces `Join(tags, ", ")` splits into at the commas: comma-free, and
      each trims back to its tag. */
  lemma PaddedPieces(tags: seq<string>)
    requires |tags| >= 1 && FormTags(tags)
    ensures var parts := [tags[0]] + PadAll(tags[1..]);
            (forall k :: 0 <= k < |parts| ==> ',' !in parts[k]) && TrimAll(parts) == tags
  {
    var parts := [tags[0]] + PadAll(tags[1..]);
    forall k | 0 <= k < |parts| ensures ',' !in parts[k] && Trim(parts[k]) == tags[k] {
      PieceAt(tags, k);
    }
  }

  /** One piece of `Join(tags, ", ")` split at the commas. */
  lemma PieceAt(tags: seq<string>, k: nat)
    requires k < |tags| && FormTags(tags)
    ensures var parts := [tags[0]] + PadAll(tags[1..]);
            ',' !in parts[k] && Trim(parts[k]) == tags[k]
  {
    var t := tags[k];
    assert t != "" && IsTrimmed(t) && ',' !in t;
    if k == 0 {
      TrimTrimmed(t);
    } else {
      assert ([tags[0]] + PadAll(tags[1..]))[k] == " " + t;
      PaddedPiece(t);
    }
  }

  /** A clean tag after the space `join(', ')` puts before it. */
  lemma PaddedPiece(t: string)
    requires IsTrimmed(t) && ',' !in t
    ensures ',' !in " " + t && Trim(" " + t) == t
  {
    assert " " + t == " " + t + "";
    TrimPadded(" ", t, "");
    TrimTrimmed(t);
  }

  /** `contacts[i] = {...contacts[i], <form fields>}` at the first contact with
      that id; the store is unchanged when no contact has it. */
  function UpdateDetails(cs: seq<Contact>, id: int, d: Details): (r: seq<Contact>)
    ensures |r| == |cs|
    ensures forall k :: 0 <= k < |cs| ==>
              r[k].id == cs[k].id && r[k].status == cs[k].status && r[k].dateAdded == cs[k].dateAdded
    ensures forall k :: 0 <= k < |cs| && cs[k].id != id ==> r[k] == cs[k]
    ensures !HasId(cs, id) ==> r == cs
    ensures UniqueIds(cs) ==> forall k :: 0 <= k < |cs| && cs[k].id == id ==> r[k].details == d
  {
    match IndexOfId(cs, id)
    case None => cs
    case Some(i) => cs[i := cs[i].(details := d)]
  }

  /** Opening the edit form and saving it untouched leaves the store as it was. */
  lemma EditUnchanged(cs: seq<Contact>, id: int)
    requires UniqueIds(cs)
    requires forall k :: 0 <= k < |cs| ==> FormTags(cs[k].details.tags)
    ensures forall k :: 0 <= k < |cs| && cs[k].id == id ==>
              UpdateDetails(cs, id, FormDetails(EditForm(cs[k]))) == cs
  {
    forall k | 0 <= k < |cs| && cs[k].id == id
      ensures UpdateDetails(cs, id, FormDetails(EditForm(cs[k]))) == cs
    {
      EditTagsRoundTrip(cs[k].details.tags);
      assert FormDetails(EditForm(cs[k])) == cs[k].details;
    }
  }

  /** `contacts[i].status = 'active'` at the first contact with that id. */
  function Reactivate(cs: seq<Contact>, id: int): (r: seq<Contact>)
    ensures |r| == |cs|
    ensures forall k :: 0 <= k < |cs| ==>
              r[k].id == cs[k].id && r[k].details == cs[k].details && r[k].dateAdded == cs[k].dateAdded
    ensures forall k :: 0 <= k < |cs| && cs[k].id != id ==> r[k] == cs[k]
    ensures !HasId(cs, id) ==> r == cs
    ensures UniqueIds(cs) ==> forall k :: 0 <= k < |cs| && cs[k].id == id ==> r[k].status == Active
  {
    match IndexOfId(cs, id)
    case None => cs
    case Some(i) => cs[i := cs[i].(status := Active)]
  }

  /** `optOuts.filter(opt => opt.contactId !== id)`. */
  function RemoveOptOutsFor(os: seq<OptOut>, contactId: int): (r: seq<OptOut>)
    ensures |r| <= |os|
    ensures forall o :: o in r <==> o in os && o.contactId != contactId
    decreases |os|
  {
    if os == [] then []
    else (if os[0].contactId == contactId then [] else [os[0]]) + RemoveOptOutsFor(os[1..], contactId)
  }

  /** The remaining records keep their order: the filter distributes over concatenation. */
  lemma {:induction false} RemoveOptOutsForAppend(a: seq<OptOut>, b: seq<OptOut>, contactId: int)
    ensures RemoveOptOutsFor(a + b, contactId) == RemoveOptOutsFor(a, contactId) + RemoveOptOutsFor(b, contactId)
    decreases |a|
  {
    if a == [] {
      assert a + b == b;
    } else {
      assert (a + b)[0] == a[0];
      assert (a + b)[1..] == a[1..] + b;
      RemoveOptOutsForAppend(a[1..], b, contactId);
    }
  }

  // ---------------------------------------------------------------------------
  // Sending

  /** `contacts.filter(c => c.status === 'active').map(c => c.id)`. */
  function ActiveIds(cs: seq<Contact>): (r: seq<int>)
    ensures |r| <= |cs|
    ensures forall x :: x in r <==> exists k :: 0 <= k < |cs| && cs[k].status == Active && cs[k].id == x
    decreases |cs|
  {
    if cs == [] then []
    else
      var rest := ActiveIds(cs[1..]);
      assert forall k :: 1 <= k < |cs| ==> cs[k] == cs[1..][k - 1];
      (if cs[0].status == Active then [cs[0].id] else []) + rest
  }

  function CountActive(cs: seq<Contact>): nat
    decreases |cs|
  {
    if cs == [] then 0 else (if cs[0].status == Active then 1 else 0) + CountActive(cs[1..])
  }

  /** A broadcast reaches each active contact once: one recipient per active contact. */
  lemma {:induction false} ActiveIdsCount(cs: seq<Contact>)
    ensures |ActiveIds(cs)| == CountActive(cs)
    decreases |cs|
  {
    if cs != [] {
      ActiveIdsCount(cs[1..]);
    }
  }

  /** With unique ids, no active contact is listed twice. */
  lemma {:induction false} ActiveIdsDistinct(cs: seq<Contact>)
    requires UniqueIds(cs)
    ensures forall i, j :: 0 <= i < j < |ActiveIds(cs)| ==> ActiveIds(cs)[i] != ActiveIds(cs)[j]
    decreases |cs|
  {
    if cs != [] {
      ActiveIdsDistinct(cs[1..]);
      var rest := ActiveIds(cs[1..]);
      forall k | 0 <= k < |rest| ensures rest[k] != cs[0].id {
        assert rest[k] in rest;
        var j :| 0 <= j < |cs[1..]| && cs[1..][j].status == Active && cs[1..][j].id == rest[k];
        assert cs[j + 1] == cs[1..][j];
      }
    }
  }

  /** The log entries one send appends: one per recipient, in recipient order. */
  function LogEntries(recipients: seq<int>, text: string, id: int, now: string): (r: seq<LogEntry>)
    ensures |r| == |recipients|
    ensures forall k :: 0 <= k < |r| ==>
              r[k] == LogEntry(id, recipients[k], text, "delivered", now, "Manual Send")
  {
    seq(|recipients|, k requires 0 <= k < |recipients| =>
      LogEntry(id, recipients[k], text, "delivered", now, "Manual Send"))
  }

  /** Logging for one more recipient appends one entry. */
  lemma LogEntriesStep(recipients: seq<int>, i: nat, text: string, id: int, now: string)
    requires i < |recipients|
    ensures LogEntries(recipients[..i + 1], text, id, now)
         == LogEntries(recipients[..i], text, id, now) + [LogEntry(id, recipients[i], text, "delivered", now, "Manual Send")]
  {
  }
}
