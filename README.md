# SMSProspector contact store and SMS relay, in Dafny

SMSProspector is a browser console for SMS campaigns. It keeps an address
book of contacts, a log of sent messages and a list of opt-outs. A few
serverless endpoints stand between the console and the SMS provider. This
project models the console's state and the operations that change it,
together with those endpoints:

- **Contacts** (`contacts.dfy`): contacts, opt-outs and log entries, and the
  functions the store's operations are specified by. These cover id
  allocation, removal by id, in-place field updates, re-activation and the
  recipients of a send.
- **The store** (`store.dfy`): the class `ContactStore.AppState` holds the
  console's mutable state (`contacts`, `messages`, `optOuts`,
  `selectedContacts`).
  - Its methods are add, edit, delete, bulk delete and export, merge
    duplicates, re-opt-in, send and CSV import.
  - Each method states its new state in terms of the specification functions
    and keeps contact ids unique.
- **CSV** (`csv.dfy`): export with bare commas and `;`-joined tags, and
  import. Import splits on newlines and commas, builds a row keyed by the
  header names, and keeps only the rows with a first name, last name and
  phone. An export of clean contacts is proved to read back to the same
  fields.
- **Duplicates** (`duplicates.dfy`): the grouping walk behind "find
  duplicates", and the shape of its result.
- **Views** (`views.dfy`): the contacts-table filter and the options of the
  suburb and tag drop-downs.
- **Preview** (`preview.dfy`): filling the `{{field}}` placeholders. This
  includes JavaScript's `$`-template expansion in `String.prototype.replace`.
- **Endpoints**:
  - `send_sms.dfy`: the relay to the provider.
  - `incoming.dfy`: the poll for stored replies.
  - `inbound.dfy`: the inbound-reply webhook, including opt-out keyword
    recognition.
  - `status.dfy`: the delivery-status webhook.
- **Shared** (`text.dfy`, `wrappers.dfy`): JavaScript string operations
  (`split`, `join`, `trim`, `toUpperCase`, `toLowerCase`, `includes`,
  `startsWith`), and `Option` for absent JSON fields.

The environment becomes parameters:

- The current date and time are `today`, `now` and `clockRef`.
- The confirmation dialogs are `confirmed`.
- The drop-downs and checkboxes are the values they hold.
- The SMS provider's answer is a `ProviderOutcome`.
- The shared key-value queue is a `QueueState`.
- The JSON store file is a `StoreFile`.

## Model

| member | source | states |
|---|---|---|
| Text.Trim | app.js:393 | The result has no surrounding whitespace (ECMAScript white space and line terminators) and is no longer than the input |
| Text.TrimBetween | app.js:393 | `trim` returns exactly the span between leading and trailing whitespace |
| Text.TrimPadded | api/webhooks/inbound.js:26 | Whitespace added around a string does not change its trimmed form |
| Text.JoinSplit | app.js:388 | Joining the pieces of a split with the separator gives back the text |
| Text.SplitJoin | app.js:388-393 | Separator-free pieces joined and split again are the same pieces |
| Text.ToUpperIdempotent | api/webhooks/inbound.js:26 | Upper-casing twice is upper-casing once |
| Text.ToUpperAppend | api/webhooks/inbound.js:26 | Upper-casing distributes over concatenation |
| Text.Split | app.js:388 | `split` gives at least one piece and no piece holds the separator; with Text.JoinSplit, Text.SplitJoin and Text.SplitAppend the pieces are exactly the separator-delimited spans |
| Text.Join | app.js:431-437 | No contract of its own; specified by Text.JoinSplit and Text.SplitJoin, which make it the inverse of Text.Split on separator-free pieces |
| Text.ToUpper | api/webhooks/inbound.js:26 | No contract of its own; specified by Text.ToUpperIdempotent and Text.ToUpperAppend and by InboundWebhook.OptOutCaseInsensitive |
| Text.ToLower | app.js:179-189 | `toLowerCase` keeps the length and lower-cases each character; with ContactViews.SearchCaseInsensitive the search ignores case |
| Contacts.MaxId | app.js:263 | The maximum id of a non-empty store belongs to some contact and bounds every id |
| Contacts.NextId | app.js:263 | A new id is above every existing id; on a non-empty store it is one past an existing id |
| Contacts.JsMax | app.js:263 | `Math.max` of JavaScript numbers is finite exactly when some argument is, and then bounds every finite argument |
| Contacts.NextIdAsWrittenRepeats | app.js:263 | As written, an empty store hands out -Infinity, and hands it out again to the next contact |
| Contacts.NextIdAsWritten | app.js:263 | No contract of its own; the as-written half of the Findings row, specified by Contacts.NextIdAsWrittenRepeats and Contacts.NextIdAgrees |
| Contacts.NextIdAgrees | app.js:411 | On a non-empty store the corrected id equals the as-written `Math.max(...ids) + 1` |
| Contacts.AppendFreshKeepsUnique | app.js:262-271 | Appending a contact with the next id keeps ids unique |
| Contacts.RemoveIds | app.js:329 | A contact survives removal exactly when its id is not among the removed ids |
| Contacts.RemoveIdsAppend | app.js:339 | Removal keeps the survivors in store order (it distributes over concatenation) |
| Contacts.RemoveIdsNothing | app.js:339 | Removing ids that no contact has leaves the store unchanged |
| Contacts.RemoveIdsIdempotent | app.js:339 | Removing the same ids twice is the same as removing them once |
| Contacts.RemoveIdsKeepsUnique | app.js:339 | Removal keeps ids unique |
| Contacts.IndexOfId | app.js:307 | `findIndex` is None exactly when no contact has the id; otherwise it is the first position holding it |
| Contacts.ParseTagList | app.js:317 | Every tag parsed from the form is non-empty, trimmed and comma-free, and a string is a tag exactly when it is the non-empty trimmed form of some comma-separated piece |
| Contacts.ParseTagListPieces | app.js:317 | The tags are the comma-separated pieces, trimmed, with the empty ones dropped, in order |
| Contacts.ParseTagListAppend | app.js:317 | The tags of `a,b` are the tags of `a` followed by the tags of `b` |
| Text.SplitAppend | app.js:317 | Splitting `a` + separator + `b` gives the pieces of `a` followed by the pieces of `b` |
| Contacts.EditTagsRoundTrip | app.js:317 | Clean tags shown as `join(', ')` in the edit form and saved again give back the same tags |
| Contacts.UpdateDetails | app.js:306-318 | Only the first contact with the id changes, and only its editable fields; ids, status and date are kept; an unknown id changes nothing |
| Contacts.EditUnchanged | app.js:279-318 | Opening the edit form and saving it untouched leaves the store as it was |
| Contacts.EditForm | app.js:279-295 | No contract of its own; specified by Contacts.EditTagsRoundTrip and Contacts.EditUnchanged (the form shows the stored fields, tags joined with `, `) |
| Contacts.FormDetails | app.js:310-318 | No contract of its own; specified by Contacts.ParseTagList, Contacts.EditTagsRoundTrip and Contacts.EditUnchanged (the saved form gives back the stored details) |
| Contacts.Reactivate | app.js:713-715 | Only the contact with the id changes, and only its status, which becomes active; an unknown id changes nothing |
| Contacts.RemoveOptOutsFor | app.js:716 | An opt-out record stays exactly when it belongs to another contact |
| Contacts.RemoveOptOutsForAppend | app.js:716 | Removal distributes over concatenation, so the kept records keep their order and multiplicity |
| Contacts.ActiveIds | app.js:627-629 | An id is a broadcast recipient exactly when some active contact has it |
| Contacts.ActiveIdsCount | app.js:627-629 | A broadcast has one recipient per active contact |
| Contacts.ActiveIdsDistinct | app.js:627-629 | With unique ids, no recipient of a broadcast is listed twice |
| Contacts.LogEntries | app.js:633-643 | One delivered "Manual Send" entry per recipient, in recipient order, all with the same id and time |
| Duplicates.IsDuplicateSymmetric | app.js:496-498 | The duplicate test is symmetric |
| Duplicates.IsDuplicate | app.js:496-498 | No contract of its own; specified by Duplicates.IsDuplicateSymmetric and by Duplicates.DupsOf, which collects exactly its matches |
| Duplicates.DupsOf | app.js:493-499 | The matches collected for a contact are exactly the other unprocessed contacts that match it |
| Duplicates.DupsAtOtherPositions | app.js:493-495 | Every match collected for position i is the contact at some other position, never the contact at i itself |
| Duplicates.GroupsWellFormed | app.js:490-505 | Every group has at least two members, all from the store and not yet processed, and each member after the first matches the first |
| Duplicates.GroupsDisjointFrom | app.js:488-503 | No contact id appears in two groups |
| Duplicates.DuplicateGroupsShape | app.js:486-509 | The groups of the whole store are well formed and pairwise disjoint |
| Duplicates.PositionAt | app.js:486-509 | With unique ids, the contact at store position j is found at position j |
| Duplicates.PositionOfId | app.js:486-509 | Contacts with the same id are found at the same store position |
| Duplicates.InStoreOrderPairwise | app.js:486-509 | When each group member lies after the one before it, every member lies after every earlier one |
| Duplicates.DupsPositions | app.js:493-495 | With unique ids, every match collected for position i among the first n contacts lies at a store position before n other than i |
| Duplicates.DupsInStoreOrder | app.js:493-499 | With unique ids, the matches collected for position i are listed in increasing store order |
| Duplicates.DupsAfter | app.js:490-499 | Once every earlier contact is settled, every match of an unprocessed contact lies after it in the store |
| Duplicates.SettledStep | app.js:490-505 | Each step of the walk keeps the invariant that no earlier contact is left unprocessed beside an unprocessed match |
| Duplicates.GroupInStoreOrder | app.js:490-502 | A group formed at position i starts with cs[i] and lists its members in store order |
| Duplicates.GroupsInStoreOrder | app.js:488-505 | The groups from position i on are non-empty and in store order, and their heads lie at increasing positions from i on |
| Duplicates.DuplicateGroupsInStoreOrder | app.js:486-509 | With unique ids, every two members of a group lie at increasing store positions and have different ids, so the head is the earliest member, and the groups come in the store order of their heads |
| Duplicates.MatchedPairGroupedFrom | app.js:490-505 | Of two unprocessed contacts that match, at least one ends up in a group |
| Duplicates.MatchedPairGrouped | app.js:486-509 | No two matching contacts are both left out of every group |
| Duplicates.GroupsFrom | app.js:490-505 | No contract of its own; specified by Duplicates.GroupsWellFormed, Duplicates.GroupsDisjointFrom, Duplicates.GroupsInStoreOrder and Duplicates.MatchedPairGroupedFrom |
| Duplicates.DuplicateGroups | app.js:486-509 | No contract of its own; specified by Duplicates.DuplicateGroupsShape, Duplicates.DuplicateGroupsInStoreOrder and Duplicates.MatchedPairGrouped |
| Csv.RowsOf | app.js:392-405 | There are never more rows than data lines |
| Csv.ParseCsv | app.js:387-408 | The loop returns the rows of the data lines whose field count matches the header and whose first field is non-empty, in order |
| Csv.AcceptedRows | app.js:370-375 | A row is kept exactly when it is one of the parsed rows and has a first name, last name and phone |
| Csv.AcceptedRowsAppend | app.js:370-375 | The filter distributes over concatenation, so the kept rows keep their order and multiplicity |
| Csv.ImportRowsKeeps | app.js:370-375 | Import keeps every existing contact in place and adds one contact per accepted row |
| Csv.ImportRowsAdded | app.js:410-425 | The added contacts carry the accepted rows' fields in row order, are active and are dated today |
| Csv.ImportRowsSpec | app.js:370-375 | Import is the existing store followed by one active contact per accepted row |
| Csv.ImportRowsUnique | app.js:410-425 | Import keeps contact ids unique |
| Csv.TagsField | app.js:398 | Clean tags joined with `;` form a clean field that imports back as the same tags |
| Csv.BuildRowExport | app.js:396-402 | A seven-field line under the export headers builds the row with those seven values, tags as a list |
| Csv.HeaderLine | app.js:429-431 | The exported header line splits back into the seven header names |
| Csv.LineRoundTrip | app.js:432-435 | One exported line of a clean contact has no newline and parses back to that contact's row |
| Csv.RowsOfParsed | app.js:392-405 | Data lines that each parse give exactly their rows, in order |
| Csv.ExportLines | app.js:428-440 | The export splits at its newlines into the header line and one line per contact |
| Csv.CsvRoundTrip | app.js:387-440 | Exporting clean contacts and parsing the text gives one row per contact, in order, holding exactly its seven fields |
| Csv.RowDetailsExport | app.js:410-425 | The fields import copies out of an exported row are the contact's own |
| Csv.GenerateCsvLines | app.js:428-440 | The export of n clean contacts has n + 1 lines |
| Csv.GenerateCsv | app.js:428-440 | No contract of its own; specified by Csv.HeaderLine, Csv.LineRoundTrip, Csv.ExportLines, Csv.GenerateCsvLines and Csv.CsvRoundTrip |
| Csv.ParsedRows | app.js:387-408 | No contract of its own; specified by Csv.RowsOf, Csv.ParseCsv, Csv.RowsOfParsed and Csv.CsvRoundTrip |
| Csv.ParseLine | app.js:393-405 | No contract of its own; specified by Csv.RowsOfParsed and Csv.LineRoundTrip (a line of the export parses back to its row) |
| Csv.BuildRow | app.js:395-402 | No contract of its own; specified by Csv.BuildRowExport |
| Csv.ImportRows | app.js:370-385 | No contract of its own; specified by Csv.ImportRowsKeeps, Csv.ImportRowsAdded, Csv.ImportRowsSpec and Csv.ImportRowsUnique |
| Csv.RowDetails | app.js:410-425 | No contract of its own; specified by Csv.RowDetailsExport and Csv.ImportRowsAdded |
| ContactViews.FilterContacts | app.js:184-196 | A contact is shown exactly when it is in the store and passes the search, status, suburb and tag tests |
| ContactViews.FilterAppend | app.js:184-196 | The table keeps store order (the filter distributes over concatenation) |
| ContactViews.FilterAllMatch | app.js:184-196 | A store whose contacts all pass is shown whole |
| ContactViews.NoFilterShowsAll | app.js:179-196 | With every control empty the whole store is shown |
| ContactViews.FilterIdempotent | app.js:184-196 | Filtering the shown rows again changes nothing |
| ContactViews.SearchCaseInsensitive | app.js:179-189 | Typing the search term in lower case shows the same rows |
| ContactViews.Distinct | app.js:228 | `[...new Set(xs)]` has the same members as `xs`, each once |
| ContactViews.DistinctOfDistinct | app.js:228 | A list without repeats is its own set of distinct values |
| ContactViews.NonEmptySuburbs | app.js:228 | Exactly the non-empty suburbs of the store |
| ContactViews.AllTags | app.js:229 | Exactly the tags of the store |
| ContactViews.SuburbOptionsSound | app.js:227-228 | Each suburb option is offered once and is non-empty; every suburb in the store is offered; choosing an option shows at least one contact |
| ContactViews.TagOptionsSound | app.js:229 | Each tag option is offered once; every tag in the store is offered; choosing a non-empty tag shows at least one contact |
| ContactViews.Matches | app.js:184-196 | No contract of its own; specified by ContactViews.FilterContacts, ContactViews.NoFilterShowsAll and ContactViews.SearchCaseInsensitive |
| ContactViews.SuburbOptions | app.js:228 | No contract of its own; specified by ContactViews.SuburbOptionsSound |
| ContactViews.TagOptions | app.js:229 | No contract of its own; specified by ContactViews.TagOptionsSound |
| Preview.Expand | app.js:573-578 | A replacement without `$` is inserted as it is |
| Preview.ReplaceLiteral | app.js:573-578 | With a `$`-free value, the global replace is plain substitution of every occurrence |
| Preview.LiteralReplaceSingle | app.js:573-578 | A single occurrence is replaced once, with the text around it kept |
| Preview.ReplaceFromAbsent | app.js:573-578 | Text without the placeholder comes back unchanged, whatever the value |
| Preview.ChainAbsent | app.js:572-578 | A message without `{` passes through the whole replacement chain unchanged |
| Preview.ChainOne | app.js:572-578 | A message holding one placeholder gets exactly that placeholder's value, when no value holds `{` or `$` |
| Preview.MessagePreview | app.js:559-585 | Without a contact the preview is the text (or the prompt when empty); with a selected contact that exists, it is the text with that contact's placeholders filled (or the prompt when that is empty); with a contact id that no contact has, the preview is left as it was; the preview is never empty |
| Preview.FillNoPlaceholder | app.js:572-578 | A message in which none of the six placeholders occurs previews as typed |
| Preview.ReplaceFromNotContained | app.js:573-578 | Replacing a placeholder that does not occur leaves the text unchanged |
| Preview.ChainNotContained | app.js:572-578 | Replacing a list of placeholders none of which occurs leaves the text unchanged |
| Preview.FillOne | app.js:572-578 | A message with one `{{field}}` previews with that field of the contact, or the `[No …]` note for an empty optional field |
| Preview.DollarAmpersandKeepsPlaceholder | app.js:573 | The value is a replace template: a first name `$&` previews as the placeholder itself |
| Preview.ReplaceAll | app.js:573-578 | No contract of its own; specified by Preview.Expand, Preview.ReplaceLiteral, Preview.LiteralReplaceSingle, Preview.ReplaceFromAbsent, Preview.ReplaceFromNotContained and Preview.DollarAmpersandKeepsPlaceholder |
| Preview.ReplaceChain | app.js:572-578 | No contract of its own; specified by Preview.ChainAbsent, Preview.ChainOne and Preview.ChainNotContained |
| Preview.FillPlaceholders | app.js:572-578 | No contract of its own; specified by Preview.FillOne, Preview.FillNoPlaceholder and Preview.MessagePreview |
| ContactStore.KeepIds | app.js:349 | A contact is exported exactly when it is in the store and its id is selected |
| ContactStore.KeepIdsAppend | app.js:349 | The selection distributes over concatenation, so the exported contacts keep store order and multiplicity |
| ContactStore.RemoveIdsSameMembers | app.js:515-523 | Removing by two id lists with the same members removes the same contacts, so dropping repeated ticks changes nothing |
| ContactStore.AppState.AddContact | app.js:262-271 | The store grows by one active contact with the next id (the corrected one: 1 on an empty store, where the code as written computes -Infinity), the form's fields and today's date; ids stay unique |
| ContactStore.AppState.AddContactFromCsv | app.js:410-425 | The store grows by one active contact with the next id (the corrected one: 1 on an empty store, where the code as written computes -Infinity) and the row's fields; ids stay unique |
| ContactStore.AppState.UpdateContact | app.js:306-318 | The store becomes `UpdateDetails` of the old store; ids stay unique |
| ContactStore.AppState.DeleteContact | app.js:327-335 | When confirmed, the contacts with the id are removed; otherwise nothing changes |
| ContactStore.AppState.SelectContacts | app.js:245-247 | The selection becomes the ticked ids |
| ContactStore.AppState.BulkDelete | app.js:337-346 | When confirmed, the selected contacts are removed and the selection is cleared; otherwise nothing changes |
| ContactStore.AppState.BulkExport | app.js:348-352 | The CSV of exactly the selected contacts, in store order (with KeepIds and KeepIdsAppend) |
| ContactStore.AppState.MergeDuplicates | app.js:511-528 | The ticked contacts are removed, and the reported count is the number of distinct ticked ids |
| ContactStore.AppState.ReOptIn | app.js:711-723 | It acts exactly when confirmed and a contact has the id; the contact becomes active and its opt-out records are dropped; otherwise nothing changes |
| ContactStore.AppState.SendMessage | app.js:603-654 | A blank message, or an individual send without a contact, is refused with nothing logged; otherwise one entry per recipient is appended, sharing the id one past the log's old length |
| ContactStore.AppState.LogDeliveries | app.js:633-643 | The log grows by exactly the entries for the recipients, in order |
| ContactStore.AppState.ProcessCsvImport | app.js:355-385 | Without a file nothing changes; otherwise the accepted rows are added in order, each with the corrected next id (1 on an empty store, where the code as written computes -Infinity), their number is reported, and ids stay unique |
| ContactStore.AppState.FindDuplicateContacts | app.js:486-509 | The loop returns the groups `DuplicateGroups` specifies |
| ContactStore.BroadcastReachesActive | app.js:626-630 | A broadcast reaches every active contact, once each, and no one else |
| ContactStore.Recipients | app.js:617-630 | No contract of its own; specified by ContactStore.BroadcastReachesActive and ContactStore.AppState.SendMessage |
| InboundWebhook.HandleInbound | api/webhooks/inbound.js:1-49 | Only POST is served; a reply is acknowledged only with both fields present, echoed verbatim; an opt-out is logged exactly when the message normalises to a keyword |
| InboundWebhook.InboundAck | api/webhooks/inbound.js:7-43 | A POST with both fields is answered 200 with them and the given timestamp or the current time; without one it is answered 400 |
| InboundWebhook.OptOutPadded | api/webhooks/inbound.js:26-28 | Whitespace around a reply does not change whether it opts out |
| InboundWebhook.OptOutCaseInsensitive | api/webhooks/inbound.js:26-28 | Case does not matter for opting out |
| InboundWebhook.KeywordsOptOut | api/webhooks/inbound.js:25-28 | Each of STOP, UNSUBSCRIBE, QUIT and CANCEL opts out |
| InboundWebhook.PaddedKeywordOptsOut | api/webhooks/inbound.js:25-28 | Any casing of a keyword, with any whitespace around it, opts out |
| InboundWebhook.PaddedStopOptsOut | api/webhooks/inbound.js:25-28 | A lower-case `stop` with whitespace around it opts out |
| InboundWebhook.SentenceNeverOptsOut | api/webhooks/inbound.js:25-28 | Two words never opt out, even when one of them is a keyword; the test is an exact match |
| InboundWebhook.IsOptOut | api/webhooks/inbound.js:25-28 | No contract of its own; specified by InboundWebhook.OptOutPadded, InboundWebhook.OptOutCaseInsensitive, InboundWebhook.KeywordsOptOut, InboundWebhook.PaddedKeywordOptsOut, InboundWebhook.PaddedStopOptsOut and InboundWebhook.SentenceNeverOptsOut |
| StatusWebhook.HandleStatus | api/webhooks/status.js:1-60 | Only POST is served; an update is acknowledged exactly when `to`, `status` and `message_id` are present, and it echoes them |
| StatusWebhook.StatusAck | api/webhooks/status.js:20-54 | An acknowledged update is a 200 carrying `received_at` or else the current time; a missing field gives 400 |
| StatusWebhook.StatusIgnoresExtras | api/webhooks/status.js:7-54 | `message`, `sender` and `custom_ref` do not affect the reply |
| IncomingMessages.Unprocessed | api/get-incoming-messages.js:40 | A record is returned exactly when it is stored and not yet processed |
| IncomingMessages.MarkAll | api/get-incoming-messages.js:44-48 | Every record is marked processed and nothing else changes |
| IncomingMessages.UnprocessedAppend | api/get-incoming-messages.js:40 | Returned records keep their stored order |
| IncomingMessages.NothingLeftAfterMarking | api/get-incoming-messages.js:40-48 | After marking, no record is unprocessed |
| IncomingMessages.SecondPollEmpty | api/get-incoming-messages.js:40-58 | A second poll with nothing new returns no messages but still counts every record |
| IncomingMessages.MarkAllProcessed | api/get-incoming-messages.js:44-48 | Records that were all processed are written back unchanged |
| IncomingMessages.MarkProcessed | api/get-incoming-messages.js:44-48 | The in-place loop yields `MarkAll` of the records |
| IncomingMessages.IncomingStore.Handle | api/get-incoming-messages.js:1-67 | Non-GET gives 405; a working queue's messages are returned as they are; otherwise a missing file gives an empty list, an unreadable one 500, and stored records give the unprocessed ones, sent with `processed` set because the same objects are marked before the reply is serialised, while every record is marked processed |
| IncomingMessages.ReplyFromWrittenFile | api/get-incoming-messages.js:40-57 | Every record in the reply is marked processed and is a record of the file as written back, and their number is the unprocessed count |
| IncomingMessages.FileReply | api/get-incoming-messages.js:40-58 | No contract of its own; specified by IncomingMessages.ReplyFromWrittenFile and IncomingMessages.SecondPollEmpty |
| SendSms.NormalisePhone | api/send-sms.js:23-28 | `+61…` and `61…` become `0…`, anything else is kept, and the result never starts with `+61` or `61` |
| SendSms.NormalisePhoneIdempotent | api/send-sms.js:23-28 | Rewriting a rewritten number changes nothing |
| SendSms.BuildPayload | api/send-sms.js:21-36 | A payload exists exactly when every message has a `to`; it has one entry per message, in order |
| SendSms.Prepare | api/send-sms.js:1-36 | A non-POST request is refused with 405, and nothing else is |
| SendSms.ValidationOrder | api/send-sms.js:9-15 | Missing messages are reported before a missing or incomplete configuration |
| SendSms.ForwardedPayload | api/send-sms.js:18-36 | A valid request goes to the configured endpoint with one entry per message: number rewritten, text kept, sender defaulted to SMSProspector |
| SendSms.ProviderErrorMapping | api/send-sms.js:67-89 | A provider failure keeps its status, with the fixed texts for 401, 403 and 429, else the provider's error, else a generic text |
| SendSms.FailedResults | api/send-sms.js:95 | A result is listed as failed exactly when its status is not `success` |
| SendSms.FailedResultsAppend | api/send-sms.js:95 | Failures are listed in the provider's order |
| SendSms.NoFailures | api/send-sms.js:94-99 | Nothing is listed as failed exactly when every result is a success |
| SendSms.CompletedBatch | api/send-sms.js:94-99 | A completed batch gives 400 exactly when some result failed, with the fixed error text and those failed results; otherwise "sent" |
| SendSms.OtherSuccess | api/send-sms.js:101 | Any other successful answer is passed on with 200 |
| SendSms.ErrorText | api/send-sms.js:74-83 | The error text of a failed provider answer is never empty; SendSms.ProviderErrorMapping gives each case |
| SendSms.ProviderReply | api/send-sms.js:67-101 | A reply built from the provider's answer is never the method or validation refusal; SendSms.ProviderErrorMapping, SendSms.CompletedBatch and SendSms.OtherSuccess give each case |
| SendSms.HandleSend | api/send-sms.js:1-111 | A request is refused with 405 exactly when it is not a POST; SendSms.ValidationOrder and SendSms.ForwardedPayload give the rest |

## Left out

- The DOM, rendering, modals, alerts and the dashboard are left out. Form and checkbox values and dialog answers are parameters.
- `new Date()` and `Date.now()` are left out. The date, time and reference string they produce are the `today`, `now` and `clockRef` parameters.
- Contacts.LogEntries, SendSms.PayloadEntry: the clock is read once per call (one `now`, one `clockRef`), whereas app.js:640 and api/send-sms.js:33 read it once per entry, so entries of one call may differ in time there.
- Contacts.LogEntries: the logged id is `messageId + Math.random()`. Only its integer part is modelled, because floating point and randomness are out of scope.
- The add-contact form's raw field set is modelled as the seven editable fields. Form values are always strings.
- JSON values that are not strings (numbers, objects, `null`) in request bodies, rows and records are not modelled. Absent fields are `None`, and the empty string is falsy.
- SendSms.BuildPayload: the call of `startsWith` on a missing `to` throws. The model gives the 500 reply (`None`) and does not model the throw itself.
- The base64 encoding of the credentials is not modelled; `ProviderRequest.credentials` is the `key:secret` text before encoding.
- `fetch` is not modelled: the provider's answer is an input (`ProviderOutcome`). A body that is not JSON is `None`, which gives the 500 reply.
- The shared key-value store (api/_utils/kv.js) is not part of this model. Its pop, including the limit of 100, is the `QueueState` input.
- The file system is not modelled: the stored file is a `StoreFile` value (absent, unreadable or records).
- Console logging is left out. That includes the per-status log lines of the delivery-status webhook (api/webhooks/status.js:32-44), which affect nothing else.
- InboundWebhook.HandleInbound: the inbound webhook only logs an opt-out request and changes no state. The model records it as `optOutLogged`.
- Text.ToUpper: upper-casing covers ASCII and the characters whose upper case is ASCII (ı, ſ, ß and the Latin ligatures), because full Unicode case mapping is out of scope.
- Text.ToLower: lower-casing covers ASCII only, for the same reason.
- api/events.js is not part of this model.
- CSV quoting and a separate phone normaliser for the store are not modelled, because the code has neither. The CSV code splits on bare commas, and phone numbers are stored as typed. Only the relay rewrites numbers, in `SendSms.NormalisePhone`.

## Findings

| source | as written | input that shows it | evidently intended | confidence | as-written member | corrected member |
|---|---|---|---|---|---|---|
| app.js:263 | `Math.max(...ids) + 1` is `-Infinity` when there are no contacts, and stays `-Infinity` for each contact added after it | a store emptied by deleting every contact, then two contacts added | the first id is 1 and each new id is above every existing id | not executed | Contacts.NextIdAsWrittenRepeats | Contacts.NextId |
