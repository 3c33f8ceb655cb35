/**
 * The browser console's state object and the operations that change it in
 * place: adding, editing and deleting contacts, bulk selection, merging
 * duplicates, re-opting a contact in, sending a message and importing a CSV
 * file. Confirmation dialogs are the `confirmed` parameters; the current date
 * and time are the `today` and `now` parameters.
 */
module ContactStore {
  import opened Text
  import opened Wrappers
  import opened Contacts
  import opened Csv
  import opened Duplicates
  import opened ContactViews

  /** Who a message goes to: the contact picked in the drop-down (None when
      nothing is picked), or every active contact. */
  datatype RecipientChoice = Individual(selected: Option<int>) | AllActive

  datatype SendOutcome = BlankMessage | NoContactSelected | Sent(recipients: nat)

  datatype ImportOutcome = NoFile | Imported(count: nat)

  /** The recipients of a send that gets past both checks. */
  function Recipients(choice: RecipientChoice, cs: seq<Contact>): seq<int>
    requires choice != Individual(None)
  {
    match choice
    case Individual(sel) => [sel.value]
    case AllActive => ActiveIds(cs)
  }

  /** `contacts.filter(c => ids.includes(c.id))`: the contacts a bulk export writes. */
  function KeepIds(cs: seq<Contact>, ids: seq<int>): (r: seq<Contact>)
    ensures |r| <= |cs|
    ensures forall c :: c in r <==> c in cs && c.id in ids
    decreases |cs|
  {
    if cs == [] then []
    else (if cs[0].id in ids then [cs[0]] else []) + KeepIds(cs[1..], ids)
  }

  /** The exported contacts keep store order: the filter distributes over concatenation. */
  lemma {:induction false} KeepIdsAppend(a: seq<Contact>, b: seq<Contact>, ids: seq<int>)
    ensures KeepIds(a + b, ids) == KeepIds(a, ids) + KeepIds(b, ids)
    decreases |a|
  {
    if a == [] {
      assert a + b == b;
    } else {
      assert (a + b)[0] == a[0];
      assert (a + b)[1..] == a[1..] + b;
      KeepIdsAppend(a[1..], b, ids);
    }
  }

  /** Removing by two lists of ids with the same members removes the same contacts. */
  lemma {:induction false} RemoveIdsSameMembers(cs: seq<Contact>, a: seq<int>, b: seq<int>)
    requires forall x :: x in a <==> x in b
    ensures RemoveIds(cs, a) == RemoveIds(cs, b)
    decreases |cs|
  {
    if cs != [] {
      RemoveIdsSameMembers(cs[1..], a, b);
    }
  }

  class AppState {
    var contacts: seq<Contact>
    var messages: seq<LogEntry>
    var optOuts: seq<OptOut>
    var selectedContacts: seq<int>

    /** Contact ids are unique. */
    predicate Valid()
      reads this
    {
      UniqueIds(contacts)
    }

    constructor (contacts0: seq<Contact>, messages0: seq<LogEntry>, optOuts0: seq<OptOut>)
      requires UniqueIds(contacts0)
      ensures Valid()
      ensures contacts == contacts0 && messages == messages0 && optOuts == optOuts0
      ensures selectedContacts == []
    {
      contacts := contacts0;
      messages := messages0;
      optOuts := optOuts0;
      selectedContacts := [];
    }

    /** `addContact(contactData)` after the form's submit handler: one more
        active contact, with the next id, at the end. */
    method AddContact(form: ContactForm, today: string)
      requires Valid()
      modifies this`contacts
      ensures Valid()
      ensures contacts == old(contacts) + [Contact(NextId(old(contacts)), FormDetails(form), Active, today)]
    {
      var c := Contact(NextId(contacts), FormDetails(form), Active, today);
      AppendFreshKeepsUnique(contacts, c);
      contacts := contacts + [c];
    }

    /** `addContactFromCSV(contactData)`. */
    method AddContactFromCsv(row: Row, today: string)
      requires Valid()
      modifies this`contacts
      ensures Valid()
      ensures contacts == old(contacts) + [Contact(NextId(old(contacts)), RowDetails(row), Active, today)]
    {
      var c := Contact(NextId(contacts), RowDetails(row), Active, today);
      AppendFreshKeepsUnique(contacts, c);
      contacts := contacts + [c];
    }

    /** `updateContact(contactId, formData)`: the contact's seven editable
        fields are replaced; id, status and date added stay. */
    method UpdateContact(id: int, form: ContactForm)
      requires Valid()
      modifies this`contacts
      ensures Valid()
      ensures contacts == UpdateDetails(old(contacts), id, FormDetails(form))
    {
      var i := IndexOfId(contacts, id);
      if i.Some? {
        contacts := contacts[i.value := contacts[i.value].(details := FormDetails(form))];
      }
    }

    /** `deleteContact(contactId)`, after the confirmation dialog. */
    method DeleteContact(id: int, confirmed: bool)
      requires Valid()
      modifies this`contacts
      ensures Valid()
      ensures contacts == if confirmed then RemoveIds(old(contacts), [id]) else old(contacts)
    {
      if confirmed {
        RemoveIdsKeepsUnique(contacts, [id]);
        contacts := RemoveIds(contacts, [id]);
      }
    }

    /** `updateSelectedContacts()`: the ids of the ticked rows. */
    method SelectContacts(ids: seq<int>)
      modifies this`selectedContacts
      ensures selectedContacts == ids
    {
      selectedContacts := ids;
    }

    /** `bulkDelete()`, after the confirmation dialog: the selected contacts
        go and the selection is cleared. */
    method BulkDelete(confirmed: bool)
      requires Valid()
      modifies this`contacts, this`selectedContacts
      ensures Valid()
      ensures confirmed ==> contacts == RemoveIds(old(contacts), old(selectedContacts)) && selectedContacts == []
      ensures !confirmed ==> contacts == old(contacts) && selectedContacts == old(selectedContacts)
    {
      if confirmed {
        RemoveIdsKeepsUnique(contacts, selectedContacts);
        contacts := RemoveIds(contacts, selectedContacts);
        selectedContacts := [];
      }
    }

    /** `bulkExport()`: the CSV text of the selected contacts, in store order. */
    method BulkExport() returns (csv: string)
      ensures csv == GenerateCsv(KeepIds(contacts, selectedContacts))
    {
      csv := GenerateCsv(KeepIds(contacts, selectedContacts));
    }

    /** `mergeDuplicates()`: the ticked ids, each once, are removed; the count
        of distinct ticked ids is what the alert reports. */
    method MergeDuplicates(checked: seq<int>) returns (removed: nat)
      requires Valid()
      modifies this`contacts
      ensures Valid()
      ensures removed == |Distinct(checked)|
      ensures contacts == RemoveIds(old(contacts), checked)
    {
      var toRemove: seq<int> := [];
      var i := 0;
      while i < |checked|
        invariant 0 <= i <= |checked|
        invariant toRemove == Distinct(checked[..i])
      {
        assert checked[..i + 1][..i] == checked[..i];
        if checked[i] !in toRemove {
          toRemove := toRemove + [checked[i]];
        }
        i := i + 1;
      }
      assert checked[..i] == checked;
      removed := |toRemove|;
      RemoveIdsSameMembers(contacts, toRemove, checked);
      if removed > 0 {
        RemoveIdsKeepsUnique(contacts, toRemove);
        contacts := RemoveIds(contacts, toRemove);
      } else {
        RemoveIdsNothing(contacts, toRemove);
      }
    }

    /** `reOptIn(contactId)`, after the confirmation dialog: when a contact has
        the id it becomes active and its opt-out records are dropped. */
    method ReOptIn(id: int, confirmed: bool) returns (done: bool)
      requires Valid()
      modifies this`contacts, this`optOuts
      ensures Valid()
      ensures done <==> confirmed && HasId(old(contacts), id)
      ensures done ==> contacts == Reactivate(old(contacts), id) && optOuts == RemoveOptOutsFor(old(optOuts), id)
      ensures !done ==> contacts == old(contacts) && optOuts == old(optOuts)
    {
      done := false;
      if confirmed {
        var i := IndexOfId(contacts, id);
        if i.Some? {
          contacts := contacts[i.value := contacts[i.value].(status := Active)];
          optOuts := RemoveOptOutsFor(optOuts, id);
          done := true;
        }
      }
    }

    /** `sendMessage()`: a blank message or a missing individual recipient is
        refused with nothing logged; otherwise one log entry per recipient is
        appended, all sharing the id one past the log's length. */
    method SendMessage(text: string, choice: RecipientChoice, now: string) returns (outcome: SendOutcome)
      modifies this`messages
      ensures Trim(text) == "" ==> outcome == BlankMessage
      ensures Trim(text) != "" && choice == Individual(None) ==> outcome == NoContactSelected
      ensures outcome.Sent? <==> Trim(text) != "" && choice != Individual(None)
      ensures outcome.Sent? ==>
                var rs := Recipients(choice, contacts);
                outcome.recipients == |rs|
                && messages == old(messages) + LogEntries(rs, text, |old(messages)| + 1, now)
      ensures !outcome.Sent? ==> messages == old(messages)
    {
      if Trim(text) == "" {
        return BlankMessage;
      }
      if choice == Individual(None) {
        return NoContactSelected;
      }
      var recipients := Recipients(choice, contacts);
      LogDeliveries(recipients, text, |messages| + 1, now);
      outcome := Sent(|recipients|);
    }

    /** The loop of `sendMessage()` that logs one delivered entry per recipient. */
    method LogDeliveries(recipients: seq<int>, text: string, messageId: int, now: string)
      modifies this`messages
      ensures messages == old(messages) + LogEntries(recipients, text, messageId, now)
    {
      var i := 0;
      while i < |recipients|
        invariant 0 <= i <= |recipients|
        invariant messages == old(messages) + LogEntries(recipients[..i], text, messageId, now)
      {
        messages := messages + [LogEntry(messageId, recipients[i], text, "delivered", now, "Manual Send")];
        LogEntriesStep(recipients, i, text, messageId, now);
        i := i + 1;
      }
      assert recipients[..i] == recipients;
    }

    /** `processCSVImport()`: without a file nothing happens; otherwise every
        parsed row with a first name, last name and phone is added in order. */
    method ProcessCsvImport(file: Option<string>, today: string) returns (outcome: ImportOutcome)
      requires Valid()
      modifies this`contacts
      ensures Valid()
      ensures file.None? ==> outcome == NoFile && contacts == old(contacts)
      ensures file.Some? ==>
                outcome == Imported(|AcceptedRows(ParsedRows(file.value))|)
                && contacts == ImportRows(old(contacts), ParsedRows(file.value), today)
    {
      if file.None? {
        return NoFile;
      }
      var rows := ParseCsv(file.value);
      var count := 0;
      var i := 0;
      while i < |rows|
        invariant 0 <= i <= |rows|
        invariant Valid()
        invariant ImportRows(contacts, rows[i..], today) == ImportRows(old(contacts), rows, today)
        invariant |contacts| == |old(contacts)| + count
      {
        assert rows[i..][1..] == rows[i + 1..];
        if Accepted(rows[i]) {
          AddContactFromCsv(rows[i], today);
          count := count + 1;
        }
        i := i + 1;
      }
      ImportRowsSpec(old(contacts), rows, today);
      assert rows[i..] == [];
      outcome := Imported(count);
    }

    /** `findDuplicateContacts()` as the walk over the store that builds it. */
    method FindDuplicateContacts() returns (groups: seq<seq<Contact>>)
      ensures groups == DuplicateGroups(contacts)
    {
      groups := [];
      var processed: set<int> := {};
      var i := 0;
      while i < |contacts|
        invariant 0 <= i <= |contacts|
        invariant groups + GroupsFrom(contacts, i, processed) == DuplicateGroups(contacts)
      {
        if contacts[i].id !in processed {
          var dups := DupsOf(contacts, i, processed, |contacts|);
          if |dups| > 0 {
            var group := [contacts[i]] + dups;
            assert groups + GroupsFrom(contacts, i, processed)
                == (groups + [group]) + GroupsFrom(contacts, i + 1, processed + Ids(group));
            processed := processed + Ids(group);
            groups := groups + [group];
          }
        }
        i := i + 1;
      }
      assert groups + [] == groups;
    }
  }

  /** A broadcast logs exactly one entry per active contact, and with unique
      ids no contact is messaged twice. */
  lemma BroadcastReachesActive(cs: seq<Contact>)
    requires UniqueIds(cs)
    ensures |Recipients(AllActive, cs)| == CountActive(cs)
    ensures forall i, j :: 0 <= i < j < |Recipients(AllActive, cs)| ==>
              Recipients(AllActive, cs)[i] != Recipients(AllActive, cs)[j]
    ensures forall k :: 0 <= k < |cs| && cs[k].status == Active ==> cs[k].id in Recipients(AllActive, cs)
  {
    ActiveIdsCount(cs);
    ActiveIdsDistinct(cs);
  }
}
