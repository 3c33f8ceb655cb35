/**
 * CSV export and import of contacts. Export writes a fixed header line and
 * one line per contact, fields joined by bare commas and tags by `;`. Import
 * splits on newlines and bare commas (there is no quoting), keys each row by
 * the trimmed header names, and keeps the rows that carry a first name, a
 * last name and a phone.
 */
module Csv {
  import opened Text
  import opened Contacts
  import opened Wrappers

  /** A parsed value: the `tags` column becomes a list, every other column a string. */
  datatype Cell = Str(s: string) | List(items: seq<string>)

  /** One parsed row: header name to value. */
  type Row = map<string, Cell>

  const ExportHeaders: seq<string> := ["firstName", "lastName", "phone", "email", "address", "suburb", "tags"]

  // ---------------------------------------------------------------------------
  // Export

  /** `header === 'tags' ? contact.tags.join(';') : contact[header] || ''`. */
  function ExportField(c: Contact, header: string): string {
    var d := c.details;
    if header == "tags" then Join(d.tags, ";")
    else if header == "firstName" then d.firstName
    else if header == "lastName" then d.lastName
    else if header == "phone" then d.phone
    else if header == "email" then d.email
    else if header == "address" then d.address
    else if header == "suburb" then d.suburb
    else ""
  }

  function ExportFields(c: Contact): (r: seq<string>)
    ensures |r| == |ExportHeaders|
  {
    seq(|ExportHeaders|, k requires 0 <= k < |ExportHeaders| => ExportField(c, ExportHeaders[k]))
  }

  function CsvLine(c: Contact): string {
    Join(ExportFields(c), ",")
  }

  function CsvLines(cs: seq<Contact>): (r: seq<string>)
    ensures |r| == |cs| && forall k :: 0 <= k < |cs| ==> r[k] == CsvLine(cs[k])
  {
    seq(|cs|, k requires 0 <= k < |cs| => CsvLine(cs[k]))
  }

  /** `generateCSV(contacts)`. */
  function GenerateCsv(cs: seq<Contact>): string {
    Join([Join(ExportHeaders, ",")] + CsvLines(cs), "\n")
  }

  // ---------------------------------------------------------------------------
  // Import

  /** `line.split(',').map(v => v.trim())`. */
  function Fields(line: string): (r: seq<string>)
    ensures |r| >= 1
  {
    TrimAll(Split(line, ','))
  }

  /** The value stored under one header. */
  function CellFor(header: string, value: string): Cell {
    if header == "tags" then List(if value != "" then TrimAll(Split(value, ';')) else [])
    else Str(value)
  }

  /** `headers.forEach((h, i) => contact[h] = ...)` from a given row on: the
      headers are set in order, so later headers overwrite earlier ones. */
  function BuildRowFrom(row: Row, headers: seq<string>, values: seq<string>): Row
    requires |headers| == |values|
    decreases |headers|
  {
    if headers == [] then row
    else BuildRowFrom(row[headers[0] := CellFor(headers[0], values[0])], headers[1..], values[1..])
  }

  function BuildRow(headers: seq<string>, values: seq<string>): Row
    requires |headers| == |values|
  {
    BuildRowFrom(map[], headers, values)
  }

  /** A data line yields a row only when it has exactly as many fields as the
      header line and its first field is non-empty. */
  function ParseLine(line: string, headers: seq<string>): Option<Row> {
    var values := Fields(line);
    if |values| == |headers| && values[0] != "" then Some(BuildRow(headers, values)) else None
  }

  /** The rows of the given data lines, in order. */
  function RowsOf(lines: seq<string>, headers: seq<string>): (r: seq<Row>)
    ensures |r| <= |lines|
    decreases |lines|
  {
    if lines == [] then []
    else
      var n := |lines| - 1;
      RowsOf(lines[..n], headers) + (match ParseLine(lines[n], headers) case Some(row) => [row] case None => [])
  }

  /** `parseCSV(csv)`: the first line gives the headers, the rest the rows. */
  function ParsedRows(csv: string): seq<Row> {
    var lines := Split(csv, '\n');
    RowsOf(lines[1..], Fields(lines[0]))
  }

  /** One more data line adds at most its own row. */
  lemma RowsOfStep(lines: seq<string>, headers: seq<string>, i: nat)
    requires 1 <= i < |lines|
    ensures RowsOf(lines[1..i + 1], headers)
         == RowsOf(lines[1..i], headers) + (match ParseLine(lines[i], headers) case Some(row) => [row] case None => [])
  {
    var next := lines[1..i + 1];
    assert next[..|next| - 1] == lines[1..i] && next[|next| - 1] == lines[i];
  }

  /** `parseCSV(csv)` as the loop that builds it. */
  method ParseCsv(csv: string) returns (rows: seq<Row>)
    ensures rows == ParsedRows(csv)
    ensures |rows| <= |Split(csv, '\n')| - 1
  {
    var lines := Split(csv, '\n');
    var headers := Fields(lines[0]);
    rows := [];
    var i := 1;
    while i < |lines|
      invariant 1 <= i <= |lines|
      invariant rows == RowsOf(lines[1..i], headers)
    {
      var values := Fields(lines[i]);
      if |values| == |headers| && values[0] != "" {
        rows := rows + [BuildRow(headers, values)];
      }
      RowsOfStep(lines, headers, i);
      i := i + 1;
    }
    assert lines[1..i] == lines[1..];
  }

  /** A value is truthy: a non-empty string, or any list. */
  predicate Truthy(row: Row, key: string) {
    key in row && (match row[key] case Str(s) => s != "" case List(_) => true)
  }

  /** The import filter: `contactData.firstName && contactData.lastName && contactData.phone`. */
  predicate Accepted(row: Row) {
    Truthy(row, "firstName") && Truthy(row, "lastName") && Truthy(row, "phone")
  }

  /** `contactData[key] || ''` for a string column; only `tags` ever holds a list. */
  function TextOf(row: Row, key: string): string {
    if key in row && row[key].Str? then row[key].s else ""
  }

  /** `contactData.tags || []`. */
  function TagsOf(row: Row): seq<string> {
    if "tags" in row && row["tags"].List? then row["tags"].items else []
  }

  /** The fields `addContactFromCSV` copies out of a row. */
  function RowDetails(row: Row): Details {
    Details(TextOf(row, "firstName"), TextOf(row, "lastName"), TextOf(row, "phone"),
            TextOf(row, "email"), TextOf(row, "address"), TextOf(row, "suburb"), TagsOf(row))
  }

  /** The rows the import keeps, in order. */
  function AcceptedRows(rows: seq<Row>): (r: seq<Row>)
    ensures |r| <= |rows|
    ensures forall k :: 0 <= k < |r| ==> Accepted(r[k])
    ensures forall row :: row in r <==> row in rows && Accepted(row)
    decreases |rows|
  {
    if rows == [] then [] else (if Accepted(rows[0]) then [rows[0]] else []) + AcceptedRows(rows[1..])
  }

  /** The kept rows stay in file order: the filter distributes over concatenation. */
  lemma {:induction false} AcceptedRowsAppend(a: seq<Row>, b: seq<Row>)
    ensures AcceptedRows(a + b) == AcceptedRows(a) + AcceptedRows(b)
    decreases |a|
  {
    if a == [] {
      assert a + b == b;
    } else {
      assert (a + b)[0] == a[0];
      assert (a + b)[1..] == a[1..] + b;
      AcceptedRowsAppend(a[1..], b);
    }
  }

  /** The store after importing `rows` one by one, each accepted row appended
      with the next id. */
  function ImportRows(cs: seq<Contact>, rows: seq<Row>, today: string): seq<Contact>
    decreases |rows|
  {
    if rows == [] then cs
    else
      var next := if Accepted(rows[0]) then cs + [Contact(NextId(cs), RowDetails(rows[0]), Active, today)] else cs;
      ImportRows(next, rows[1..], today)
  }

  /** Import keeps every existing contact, in place, and adds one contact per accepted row. */
  lemma {:induction false} ImportRowsKeeps(cs: seq<Contact>, rows: seq<Row>, today: string)
    ensures var r := ImportRows(cs, rows, today);
      |r| == |cs| + |AcceptedRows(rows)| && r[..|cs|] == cs
    decreases |rows|
  {
    if rows != [] {
      if Accepted(rows[0]) {
        var next := cs + [Contact(NextId(cs), RowDetails(rows[0]), Active, today)];
        ImportRowsKeeps(next, rows[1..], today);
        assert ImportRows(next, rows[1..], today)[..|cs|] == next[..|cs|];
      } else {
        ImportRowsKeeps(cs, rows[1..], today);
      }
    }
  }

  /** The added contacts are active, dated today, and carry the accepted rows' fields in row order. */
  lemma {:induction false} ImportRowsAdded(cs: seq<Contact>, rows: seq<Row>, today: string)
    ensures var r := ImportRows(cs, rows, today);
      |r| == |cs| + |AcceptedRows(rows)|
      && forall k :: |cs| <= k < |r| ==>
           r[k].details == RowDetails(AcceptedRows(rows)[k - |cs|]) && r[k].status == Active && r[k].dateAdded == today
    decreases |rows|
  {
    ImportRowsKeeps(cs, rows, today);
    if rows != [] {
      var tail := AcceptedRows(rows[1..]);
      if Accepted(rows[0]) {
        var c := Contact(NextId(cs), RowDetails(rows[0]), Active, today);
        var next := cs + [c];
        ImportRowsAdded(next, rows[1..], today);
        ImportRowsKeeps(next, rows[1..], today);
        var r := ImportRows(next, rows[1..], today);
        var accepted := AcceptedRows(rows);
        assert accepted == [rows[0]] + tail;
        assert r[|cs|] == r[..|next|][|cs|] == c;
        forall k | |cs| < k < |r|
          ensures r[k].details == RowDetails(accepted[k - |cs|]) && r[k].status == Active && r[k].dateAdded == today
        {
          assert accepted[k - |cs|] == tail[k - |next|];
        }
      } else {
        ImportRowsAdded(cs, rows[1..], today);
      }
    }
  }

  /** Import keeps every existing contact and appends one active contact per
      accepted row, in row order. */
  lemma ImportRowsSpec(cs: seq<Contact>, rows: seq<Row>, today: string)
    ensures var r := ImportRows(cs, rows, today);
      && |r| == |cs| + |AcceptedRows(rows)|
      && r[..|cs|] == cs
      && (forall k :: |cs| <= k < |r| ==>
            r[k].details == RowDetails(AcceptedRows(rows)[k - |cs|]) && r[k].status == Active && r[k].dateAdded == today)
  {
    ImportRowsKeeps(cs, rows, today);
    ImportRowsAdded(cs, rows, today);
  }

  /** Each imported contact gets an id above all earlier ones, so ids stay unique. */
  lemma {:induction false} ImportRowsUnique(cs: seq<Contact>, rows: seq<Row>, today: string)
    requires UniqueIds(cs)
    ensures UniqueIds(ImportRows(cs, rows, today))
    decreases |rows|
  {
    if rows != [] {
      if Accepted(rows[0]) {
        var c := Contact(NextId(cs), RowDetails(rows[0]), Active, today);
        AppendFreshKeepsUnique(cs, c);
        ImportRowsUnique(cs + [c], rows[1..], today);
      } else {
        ImportRowsUnique(cs, rows[1..], today);
      }
    }
  }

  // ---------------------------------------------------------------------------
  // Round trip

  /** A field survives export and import: no comma, no newline, no whitespace
      at either end. */
  predicate CleanField(s: string) {
    ',' !in s && '\n' !in s && IsTrimmed(s)
  }

  /** What export and import preserve: clean fields, a non-empty first name,
      and tags that are non-empty, clean and free of `;`. */
  predicate Exportable(c: Contact) {
    var d := c.details;
    && d.firstName != ""
    && CleanField(d.firstName) && CleanField(d.lastName) && CleanField(d.phone)
    && CleanField(d.email) && CleanField(d.address) && CleanField(d.suburb)
    && forall k :: 0 <= k < |d.tags| ==> d.tags[k] != "" && ';' !in d.tags[k] && CleanField(d.tags[k])
  }

  /** The row an exported contact parses back to. */
  function ExportRow(c: Contact): Row {
    var d := c.details;
    map["firstName" := Str(d.firstName), "lastName" := Str(d.lastName), "phone" := Str(d.phone),
        "email" := Str(d.email), "address" := Str(d.address), "suburb" := Str(d.suburb),
        "tags" := List(d.tags)]
  }

  lemma TrimAllTrimmed(xs: seq<string>)
    requires forall k :: 0 <= k < |xs| ==> IsTrimmed(xs[k])
    ensures TrimAll(xs) == xs
  {
    forall k | 0 <= k < |xs| ensures Trim(xs[k]) == xs[k] {
      TrimTrimmed(xs[k]);
    }
  }

  /** A join of non-empty trimmed pieces is trimmed. */
  lemma {:induction false} JoinTrimmed(parts: seq<string>, sep: string)
    requires forall k :: 0 <= k < |parts| ==> parts[k] != "" && IsTrimmed(parts[k])
    ensures IsTrimmed(Join(parts, sep))
    decreases |parts|
  {
    if |parts| > 1 {
      JoinTrimmed(parts[1..], sep);
      var rest := Join(parts[1..], sep);
      JoinNonEmpty(parts[1..], sep);
      var j := Join(parts, sep);
      assert j == parts[0] + (sep + rest);
      assert j[0] == parts[0][0];
      assert j[|j| - 1] == rest[|rest| - 1];
    }
  }

  lemma TagsField(c: Contact)
    requires Exportable(c)
    ensures CleanField(Join(c.details.tags, ";"))
    ensures CellFor("tags", Join(c.details.tags, ";")) == List(c.details.tags)
  {
    var tags := c.details.tags;
    JoinFree(tags, ";", ',');
    JoinFree(tags, ";", '\n');
    JoinTrimmed(tags, ";");
    if tags != [] {
      JoinNonEmpty(tags, ";");
      SplitJoin(tags, ';');
      TrimAllTrimmed(tags);
    }
  }

  /** Seven headers and values build the row that sets each header in turn. */
  lemma BuildRowSeven(h: seq<string>, v: seq<string>)
    requires |h| == |v| == 7
    ensures BuildRow(h, v)
         == map[][h[0] := CellFor(h[0], v[0])][h[1] := CellFor(h[1], v[1])][h[2] := CellFor(h[2], v[2])]
                 [h[3] := CellFor(h[3], v[3])][h[4] := CellFor(h[4], v[4])][h[5] := CellFor(h[5], v[5])]
                 [h[6] := CellFor(h[6], v[6])]
  {
    var m1 := map[][h[0] := CellFor(h[0], v[0])];
    var m2 := m1[h[1] := CellFor(h[1], v[1])];
    var m3 := m2[h[2] := CellFor(h[2], v[2])];
    var m4 := m3[h[3] := CellFor(h[3], v[3])];
    var m5 := m4[h[4] := CellFor(h[4], v[4])];
    var m6 := m5[h[5] := CellFor(h[5], v[5])];
    assert BuildRowFrom(m5, h[5..], v[5..]) == BuildRowFrom(m6, h[6..], v[6..]);
    assert BuildRowFrom(m4, h[4..], v[4..]) == BuildRowFrom(m5, h[5..], v[5..]);
    assert BuildRowFrom(m3, h[3..], v[3..]) == BuildRowFrom(m4, h[4..], v[4..]);
    assert BuildRowFrom(m2, h[2..], v[2..]) == BuildRowFrom(m3, h[3..], v[3..]);
    assert BuildRowFrom(m1, h[1..], v[1..]) == BuildRowFrom(m2, h[2..], v[2..]);
  }

  lemma BuildRowExport(values: seq<string>)
    requires |values| == 7
    ensures BuildRow(ExportHeaders, values)
         == map["firstName" := Str(values[0]), "lastName" := Str(values[1]), "phone" := Str(values[2]),
                "email" := Str(values[3]), "address" := Str(values[4]), "suburb" := Str(values[5]),
                "tags" := CellFor("tags", values[6])]
  {
    BuildRowSeven(ExportHeaders, values);
  }

  lemma HeaderLine()
    ensures Fields(Join(ExportHeaders, ",")) == ExportHeaders
    ensures '\n' !in Join(ExportHeaders, ",")
  {
    var h := ExportHeaders;
    assert forall k :: 0 <= k < |h| ==> CleanField(h[k]);
    JoinedFields(h);
  }

  lemma ExportFieldsOf(c: Contact)
    ensures var d := c.details;
            ExportFields(c) == [d.firstName, d.lastName, d.phone, d.email, d.address, d.suburb, Join(d.tags, ";")]
  {
  }

  /** Clean fields joined by commas split back into themselves. */
  lemma JoinedFields(fs: seq<string>)
    requires |fs| >= 1 && forall k :: 0 <= k < |fs| ==> CleanField(fs[k])
    ensures '\n' !in Join(fs, ",")
    ensures Fields(Join(fs, ",")) == fs
  {
    SplitJoin(fs, ',');
    TrimAllTrimmed(fs);
    JoinFree(fs, ",", '\n');
  }

  /** An exported line splits back into the exported fields. */
  lemma LineFields(c: Contact)
    requires Exportable(c)
    ensures '\n' !in CsvLine(c)
    ensures Fields(CsvLine(c)) == ExportFields(c)
  {
    var d := c.details;
    ExportFieldsOf(c);
    TagsField(c);
    CleanSeven(d.firstName, d.lastName, d.phone, d.email, d.address, d.suburb, Join(d.tags, ";"));
  }

  lemma CleanSeven(a: string, b: string, c: string, d: string, e: string, f: string, g: string)
    requires CleanField(a) && CleanField(b) && CleanField(c) && CleanField(d)
    requires CleanField(e) && CleanField(f) && CleanField(g)
    ensures '\n' !in Join([a, b, c, d, e, f, g], ",")
    ensures Fields(Join([a, b, c, d, e, f, g], ",")) == [a, b, c, d, e, f, g]
  {
    var fs := [a, b, c, d, e, f, g];
    assert forall k :: 0 <= k < |fs| ==> CleanField(fs[k]);
    JoinedFields(fs);
  }

  /** One exported line parses back to the contact's row. */
  lemma LineRoundTrip(c: Contact)
    requires Exportable(c)
    ensures '\n' !in CsvLine(c)
    ensures ParseLine(CsvLine(c), ExportHeaders) == Some(ExportRow(c))
  {
    LineFields(c);
    ExportFieldsOf(c);
    TagsField(c);
    BuildRowExport(ExportFields(c));
  }

  /** The rows a list of contacts exports to. */
  function ExportRows(cs: seq<Contact>): (r: seq<Row>)
    ensures |r| == |cs| && forall k :: 0 <= k < |cs| ==> r[k] == ExportRow(cs[k])
  {
    seq(|cs|, k requires 0 <= k < |cs| => ExportRow(cs[k]))
  }

  /** The last data line, when it parses, adds its row at the end. */
  lemma RowsOfLast(lines: seq<string>, headers: seq<string>, row: Row)
    requires lines != [] && ParseLine(lines[|lines| - 1], headers) == Some(row)
    ensures RowsOf(lines, headers) == RowsOf(lines[..|lines| - 1], headers) + [row]
  {
  }

  /** Data lines that each parse to a row give exactly those rows, prefix by prefix. */
  lemma {:induction false} RowsOfPrefix(lines: seq<string>, headers: seq<string>, rows: seq<Row>, i: nat)
    requires i <= |lines| == |rows|
    requires forall k {:trigger ParseLine(lines[k], headers)} :: 0 <= k < |lines| ==> ParseLine(lines[k], headers) == Some(rows[k])
    ensures RowsOf(lines[..i], headers) == rows[..i]
    decreases i
  {
    if i > 0 {
      RowsOfPrefix(lines, headers, rows, i - 1);
      var pre := lines[..i];
      assert pre[..i - 1] == lines[..i - 1] && pre[i - 1] == lines[i - 1];
      RowsOfLast(pre, headers, rows[i - 1]);
      PrefixSnoc(rows, i);
    }
  }

  lemma PrefixSnoc<T>(s: seq<T>, i: nat)
    requires 0 < i <= |s|
    ensures s[..i] == s[..i - 1] + [s[i - 1]]
  {
  }

  /** Data lines that each parse to a row give exactly those rows. */
  lemma RowsOfParsed(lines: seq<string>, headers: seq<string>, rows: seq<Row>)
    requires |lines| == |rows|
    requires forall k {:trigger ParseLine(lines[k], headers)} :: 0 <= k < |lines| ==> ParseLine(lines[k], headers) == Some(rows[k])
    ensures RowsOf(lines, headers) == rows
  {
    RowsOfPrefix(lines, headers, rows, |lines|);
    assert lines[..|lines|] == lines && rows[..|rows|] == rows;
  }

  /** The export splits at its newlines into the header line and one line per contact. */
  lemma ExportLines(cs: seq<Contact>)
    requires forall k :: 0 <= k < |cs| ==> Exportable(cs[k])
    ensures Split(GenerateCsv(cs), '\n') == [Join(ExportHeaders, ",")] + CsvLines(cs)
  {
    var lines := [Join(ExportHeaders, ",")] + CsvLines(cs);
    HeaderLine();
    forall k | 0 <= k < |lines| ensures '\n' !in lines[k] {
      if k > 0 { LineRoundTrip(cs[k - 1]); }
    }
    SplitJoin(lines, '\n');
  }

  /** Exporting contacts and importing the text reads back one row per
      contact, in order, holding exactly that contact's seven fields. */
  lemma CsvRoundTrip(cs: seq<Contact>)
    requires forall k :: 0 <= k < |cs| ==> Exportable(cs[k])
    ensures ParsedRows(GenerateCsv(cs)) == ExportRows(cs)
    ensures forall k :: 0 <= k < |cs| ==> RowDetails(ParsedRows(GenerateCsv(cs))[k]) == cs[k].details
  {
    ExportLines(cs);
    HeaderLine();
    var lines := CsvLines(cs);
    forall k | 0 <= k < |lines| ensures ParseLine(lines[k], ExportHeaders) == Some(ExportRows(cs)[k]) {
      LineRoundTrip(cs[k]);
    }
    RowsOfParsed(lines, ExportHeaders, ExportRows(cs));
    assert ([Join(ExportHeaders, ",")] + lines)[1..] == lines;
    forall k | 0 <= k < |cs| ensures RowDetails(ExportRows(cs)[k]) == cs[k].details {
      RowDetailsExport(cs[k]);
    }
  }

  /** The fields import copies out of an exported row are the contact's own. */
  lemma RowDetailsExport(c: Contact)
    ensures RowDetails(ExportRow(c)) == c.details
  {
  }

  /** The export has one header line and one line per contact. */
  lemma GenerateCsvLines(cs: seq<Contact>)
    requires forall k :: 0 <= k < |cs| ==> Exportable(cs[k])
    ensures |Split(GenerateCsv(cs), '\n')| == |cs| + 1
  {
    ExportLines(cs);
  }
}
