/**
 * The allowlist filter of Main.java: readCheckedEmails, findEmailColumn and
 * filterScrapedFile, and the run of main that chains them.
 *
 * The allowlist file arrives as its records (field lists, header excluded);
 * the data file as its header list and its rows, a row mapping column names
 * to values. Unlike the combiner, this pipeline does not catch the
 * IllegalArgumentException that `record.get(name)` throws for a column the
 * record lacks: the run stops there, with the rows printed so far left in
 * the output. `MissingField` models that stop.
 */
module Filter {
  import opened Wrappers
  import opened Text
  import opened Records

  /** The names findEmailColumn tries first, in priority order. */
  const EmailColumnNames: seq<string> := ["email", "Email", "EMAIL", "e-mail", "E-mail", "mail", "Mail"]

  /** The columns main removes from the output. */
  const ColumnsToRemove: set<string> :=
    {"Followers", "Following", "Tweets", "Profile picture link", "Screen name", "Bio"}

  datatype FilterError =
    | NoEmailColumn(available: seq<string>)                           // the RuntimeException of findEmailColumn
    | MissingField(row: nat, column: string, written: seq<seq<string>>) // record.get fails on row `row`

  /** What filterScrapedFile prints and counts. */
  datatype Filtered = Filtered(headers: seq<string>, rows: seq<seq<string>>, totalRows: nat, filteredRows: nat)

  // ---------------------------------------------------------------------------
  // readCheckedEmails

  /** A second-column value that enters the allowlist: not blank and not one of the two sentinels. */
  predicate IsCheckedEmail(value: string) {
    && !IsBlank(value)
    && !EqualsIgnoreCase(Trim(value), "ok")
    && !EqualsIgnoreCase(Trim(value), "ELV Result")
  }

  /** The record carries `e` at index 1, acceptably. */
  predicate Carries(record: seq<string>, e: string) {
    |record| > 1 && IsCheckedEmail(record[1]) && e == Normalize(record[1])
  }

  /** What one record adds to the allowlist. Only field index 1 is looked at. */
  function Contribution(record: seq<string>): set<string> {
    if |record| > 1 && IsCheckedEmail(record[1]) then {Normalize(record[1])} else {}
  }

  /** The allowlist built from the records, in order. */
  function CheckedEmails(records: seq<seq<string>>): set<string> {
    if records == [] then {}
    else CheckedEmails(records[..|records| - 1]) + Contribution(records[|records| - 1])
  }

  /** An email is allowlisted exactly when some record with at least two fields carries it, acceptably, at index 1. */
  lemma {:induction false} CheckedEmailsMembers(records: seq<seq<string>>)
    ensures forall e :: e in CheckedEmails(records) <==> exists k :: 0 <= k < |records| && Carries(records[k], e)
    decreases |records|
  {
    if records != [] {
      var n := |records| - 1;
      var prefix := records[..n];
      CheckedEmailsMembers(prefix);
      assert forall k :: 0 <= k < n ==> prefix[k] == records[k];
      assert forall e :: e in Contribution(records[n]) <==> Carries(records[n], e);
    }
  }

  /**
   * Every allowlist entry is trimmed, lower-cased and non-empty, and is
   * neither `ok` nor `ELV Result` in any letter case.
   */
  lemma CheckedEmailsShape(records: seq<seq<string>>)
    ensures forall e :: e in CheckedEmails(records) ==>
      && e != [] && Trim(e) == e && Lower(e) == e
      && !EqualsIgnoreCase(e, "ok") && !EqualsIgnoreCase(e, "ELV Result")
  {
    CheckedEmailsMembers(records);
    forall e | e in CheckedEmails(records)
      ensures e != [] && Trim(e) == e && Lower(e) == e
      ensures !EqualsIgnoreCase(e, "ok") && !EqualsIgnoreCase(e, "ELV Result")
    {
      var k :| 0 <= k < |records| && Carries(records[k], e);
      NormalizedShape(records[k][1]);
      LowerIdempotent(Trim(records[k][1]));
    }
  }

  /** readCheckedEmails: one pass over the records, adding each acceptable index-1 value, normalized. */
  method ReadCheckedEmails(records: seq<seq<string>>) returns (emails: set<string>)
    ensures emails == CheckedEmails(records)
  {
    emails := {};
    var k := 0;
    while k < |records|
      invariant 0 <= k <= |records|
      invariant emails == CheckedEmails(records[..k])
    {
      var record := records[k];
      if |record| > 1 {
        var email := record[1];
        if !IsBlank(email) && !EqualsIgnoreCase(Trim(email), "ok") && !EqualsIgnoreCase(Trim(email), "ELV Result") {
          emails := emails + {Normalize(email)};
        }
      }
      assert records[..k + 1][..k] == records[..k];
      k := k + 1;
    }
    assert records[..k] == records;
  }

  // ---------------------------------------------------------------------------
  // findEmailColumn

  /** The first of `names`, in their order, that is one of the headers. */
  function FirstListed(names: seq<string>, headers: seq<string>): Option<string> {
    if names == [] then None
    else if names[0] in headers then Some(names[0])
    else FirstListed(names[1..], headers)
  }

  /** FirstListed finds nothing exactly when no name is a header, and otherwise the earliest name that is. */
  lemma {:induction false} FirstListedFacts(names: seq<string>, headers: seq<string>)
    ensures var r := FirstListed(names, headers);
      && (r.None? <==> forall n :: n in names ==> n !in headers)
      && (r.Some? ==> r.value in headers)
      && (r.Some? ==> exists i :: 0 <= i < |names| && names[i] == r.value && forall j :: 0 <= j < i ==> names[j] !in headers)
    decreases |names|
  {
    if names != [] && names[0] !in headers {
      var rest := names[1..];
      FirstListedFacts(rest, headers);
      assert forall n :: n in names ==> n == names[0] || n in rest;
      var r := FirstListed(rest, headers);
      if r.Some? {
        var i :| 0 <= i < |rest| && rest[i] == r.value && forall j :: 0 <= j < i ==> rest[j] !in headers;
        assert names[i + 1] == r.value;
        forall j | 0 <= j < i + 1 ensures names[j] !in headers {
          if j > 0 { assert names[j] == rest[j - 1]; }
        }
      }
    } else if names != [] {
      assert names[0] in headers;
    }
  }

  /** A header findEmailColumn's second search accepts: its lower-cased name contains "email". */
  predicate MentionsEmail(header: string) {
    Contains(Lower(header), "email")
  }

  /** The first header, in header order, that mentions "email". */
  function FirstMentioning(headers: seq<string>): Option<string> {
    if headers == [] then None
    else if MentionsEmail(headers[0]) then Some(headers[0])
    else FirstMentioning(headers[1..])
  }

  /** FirstMentioning finds nothing exactly when no header mentions "email", and otherwise the earliest one that does. */
  lemma {:induction false} FirstMentioningFacts(headers: seq<string>)
    ensures var r := FirstMentioning(headers);
      && (r.None? <==> forall h :: h in headers ==> !MentionsEmail(h))
      && (r.Some? ==> MentionsEmail(r.value))
      && (r.Some? ==> exists i :: 0 <= i < |headers| && headers[i] == r.value && forall j :: 0 <= j < i ==> !MentionsEmail(headers[j]))
    decreases |headers|
  {
    if headers != [] && !MentionsEmail(headers[0]) {
      var rest := headers[1..];
      FirstMentioningFacts(rest);
      assert forall h :: h in headers ==> h == headers[0] || h in rest;
      var r := FirstMentioning(rest);
      if r.Some? {
        var i :| 0 <= i < |rest| && rest[i] == r.value && forall j :: 0 <= j < i ==> !MentionsEmail(rest[j]);
        assert headers[i + 1] == r.value;
        forall j | 0 <= j < i + 1 ensures !MentionsEmail(headers[j]) {
          if j > 0 { assert headers[j] == rest[j - 1]; }
        }
      }
    }
  }

  /** findEmailColumn: a priority name if one is present, else a header mentioning "email", else the schema error. */
  function FindEmailColumn(headers: seq<string>): Result<string, FilterError> {
    match FirstListed(EmailColumnNames, headers)
    case Some(name) => Ok(name)
    case None =>
      match FirstMentioning(headers)
      case Some(header) => Ok(header)
      case None => Err(NoEmailColumn(headers))
  }

  /**
   * The column findEmailColumn returns is a header. When some priority name
   * is present it is the earliest one in the priority list, whatever the
   * header order; otherwise it is the earliest header mentioning "email".
   * The schema error comes exactly when neither search finds anything, and
   * lists the available headers.
   */
  lemma FindEmailColumnFacts(headers: seq<string>)
    ensures var r := FindEmailColumn(headers);
      && (r.Ok? ==> r.value in headers)
      && (r.Err? <==> (forall n :: n in EmailColumnNames ==> n !in headers) && (forall h :: h in headers ==> !MentionsEmail(h)))
      && (r.Err? ==> r.error == NoEmailColumn(headers))
      && ((exists n :: n in EmailColumnNames && n in headers) ==>
            && r.Ok?
            && exists i :: 0 <= i < |EmailColumnNames| && EmailColumnNames[i] == r.value &&
                 forall j :: 0 <= j < i ==> EmailColumnNames[j] !in headers)
      && ((forall n :: n in EmailColumnNames ==> n !in headers) && r.Ok? ==>
            && MentionsEmail(r.value)
            && exists i :: 0 <= i < |headers| && headers[i] == r.value && forall j :: 0 <= j < i ==> !MentionsEmail(headers[j]))
  {
    FirstListedFacts(EmailColumnNames, headers);
    FirstMentioningFacts(headers);
  }

  // ---------------------------------------------------------------------------
  // filterScrapedFile: the header filter

  /** A header that survives: not blank and not, exactly, a removed name. */
  predicate KeepHeader(header: string, remove: set<string>) {
    !IsBlank(header) && header !in remove
  }

  /** The surviving headers, in their original order. */
  function KeptHeaders(headers: seq<string>, remove: set<string>): seq<string> {
    if headers == [] then []
    else
      var last := headers[|headers| - 1];
      KeptHeaders(headers[..|headers| - 1], remove) + (if KeepHeader(last, remove) then [last] else [])
  }

  /** `a` is `b` with some elements dropped and the rest in order. */
  predicate IsSubsequence(a: seq<string>, b: seq<string>)
    decreases |b|
  {
    if b == [] then a == []
    else
      || (a != [] && a[|a| - 1] == b[|b| - 1] && IsSubsequence(a[..|a| - 1], b[..|b| - 1]))
      || IsSubsequence(a, b[..|b| - 1])
  }

  /** The kept headers are an order-preserving subsequence of the original ones. */
  lemma {:induction false} KeptHeadersInOrder(headers: seq<string>, remove: set<string>)
    ensures IsSubsequence(KeptHeaders(headers, remove), headers)
    decreases |headers|
  {
    if headers != [] {
      var n := |headers| - 1;
      var prefix := headers[..n];
      KeptHeadersInOrder(prefix, remove);
      var kept := KeptHeaders(headers, remove);
      if KeepHeader(headers[n], remove) {
        assert kept == KeptHeaders(prefix, remove) + [headers[n]];
        assert kept[..|kept| - 1] == KeptHeaders(prefix, remove);
        assert kept[|kept| - 1] == headers[n];
      } else {
        assert kept == KeptHeaders(prefix, remove);
      }
      assert headers[..|headers| - 1] == prefix;
    }
  }

  /** A header is kept exactly when it is one of the originals, not blank and not removed. */
  lemma {:induction false} KeptHeadersMembers(headers: seq<string>, remove: set<string>)
    ensures forall h :: h in KeptHeaders(headers, remove) <==> h in headers && KeepHeader(h, remove)
    decreases |headers|
  {
    if headers != [] {
      var n := |headers| - 1;
      var prefix := headers[..n];
      KeptHeadersMembers(prefix, remove);
      assert headers == prefix + [headers[n]];
    }
  }

  /**
   * Every kept header appears as often as it does among the originals, and
   * every dropped one not at all: duplicated header names keep their multiplicity.
   */
  lemma {:induction false} KeptHeadersCount(headers: seq<string>, remove: set<string>)
    ensures forall h ::
      multiset(KeptHeaders(headers, remove))[h] == (if KeepHeader(h, remove) then multiset(headers)[h] else 0)
    decreases |headers|
  {
    if headers != [] {
      var n := |headers| - 1;
      var prefix := headers[..n];
      KeptHeadersCount(prefix, remove);
      assert headers == prefix + [headers[n]];
      assert multiset(headers) == multiset(prefix) + multiset{headers[n]};
    }
  }

  // ---------------------------------------------------------------------------
  // filterScrapedFile: the row filter

  /** The row test of filterScrapedFile, for a row that has the email column. */
  predicate Selected(row: Row, column: string, checkedEmails: set<string>)
    requires column in row
  {
    !IsBlank(row[column]) && Normalize(row[column]) in checkedEmails
  }

  /** The printed record: one value per kept header, or the first kept header the row lacks. */
  function ProjectKept(kept: seq<string>, row: Row): Result<seq<string>, string> {
    if kept == [] then Ok([])
    else
      var n := |kept| - 1;
      match ProjectKept(kept[..n], row)
      case Err(column) => Err(column)
      case Ok(values) => if kept[n] in row then Ok(values + [row[kept[n]]]) else Err(kept[n])
  }

  /**
   * The projection succeeds exactly when the row has every kept header, and
   * then holds the row's value under each, in header order; otherwise it
   * names the first kept header the row lacks.
   */
  lemma {:induction false} ProjectKeptFacts(kept: seq<string>, row: Row)
    ensures var r := ProjectKept(kept, row);
      && (r.Ok? <==> forall i :: 0 <= i < |kept| ==> kept[i] in row)
      && (r.Ok? ==> |r.value| == |kept| && forall i :: 0 <= i < |kept| ==> kept[i] in row && r.value[i] == row[kept[i]])
      && (r.Err? ==> exists i :: 0 <= i < |kept| && kept[i] == r.error && r.error !in row &&
                       forall j :: 0 <= j < i ==> kept[j] in row)
    decreases |kept|
  {
    if kept != [] {
      var n := |kept| - 1;
      var prefix := kept[..n];
      ProjectKeptFacts(prefix, row);
      var before := ProjectKept(prefix, row);
      assert forall i :: 0 <= i < n ==> kept[i] == prefix[i];
      if before.Err? {
        var i :| 0 <= i < |prefix| && prefix[i] == before.error && before.error !in row &&
                 forall j :: 0 <= j < i ==> prefix[j] in row;
        assert kept[i] == before.error;
      }
    }
  }

  /** Scanning state: the records printed and the two counters, or the failure that stopped the run. */
  datatype Scan = Scanning(written: seq<seq<string>>, totalRows: nat, filteredRows: nat) | Failed(error: FilterError)

  /** One data row, the `index`-th. */
  function ScanRow(kept: seq<string>, column: string, checkedEmails: set<string>, st: Scan, index: nat, row: Row): Scan {
    match st
    case Failed(_) => st
    case Scanning(written, totalRows, filteredRows) =>
      if column !in row then Failed(MissingField(index, column, written))
      else if !Selected(row, column, checkedEmails) then Scanning(written, totalRows + 1, filteredRows)
      else
        match ProjectKept(kept, row)
        case Err(missing) => Failed(MissingField(index, missing, written))
        case Ok(values) => Scanning(written + [values], totalRows + 1, filteredRows + 1)
  }

  function ScanRows(kept: seq<string>, column: string, checkedEmails: set<string>, rows: seq<Row>): Scan
    decreases |rows|
  {
    if rows == [] then Scanning([], 0, 0)
    else ScanRow(kept, column, checkedEmails, ScanRows(kept, column, checkedEmails, rows[..|rows| - 1]),
                 |rows| - 1, rows[|rows| - 1])
  }

  /** The specification of filterScrapedFile. */
  function FilterSpec(headers: seq<string>, rows: seq<Row>, checkedEmails: set<string>, remove: set<string>)
    : Result<Filtered, FilterError>
  {
    match FindEmailColumn(headers)
    case Err(e) => Err(e)
    case Ok(column) =>
      var kept := KeptHeaders(headers, remove);
      match ScanRows(kept, column, checkedEmails, rows)
      case Failed(e) => Err(e)
      case Scanning(written, totalRows, filteredRows) => Ok(Filtered(kept, written, totalRows, filteredRows))
  }

  // ---------------------------------------------------------------------------
  // Reference definitions for the row filter

  /** A row the filter can read without an exception. */
  predicate Readable(kept: seq<string>, column: string, checkedEmails: set<string>, row: Row) {
    column in row && (Selected(row, column, checkedEmails) ==> forall i :: 0 <= i < |kept| ==> kept[i] in row)
  }

  /** The projection of a row onto the kept headers, "" for a header it lacks. */
  function Values(kept: seq<string>, row: Row): (r: seq<string>)
    ensures |r| == |kept|
  {
    seq(|kept|, i requires 0 <= i < |kept| => if kept[i] in row then row[kept[i]] else "")
  }

  /** The records the filter should print: the projections of the selected rows, in order. */
  function Expected(kept: seq<string>, column: string, checkedEmails: set<string>, rows: seq<Row>): seq<seq<string>> {
    if rows == [] then []
    else
      var last := rows[|rows| - 1];
      Expected(kept, column, checkedEmails, rows[..|rows| - 1]) +
        (if column in last && Selected(last, column, checkedEmails) then [Values(kept, last)] else [])
  }

  /** The row scan succeeds exactly when every row is readable. */
  lemma {:induction false} ScanRowsSucceeds(kept: seq<string>, column: string, checkedEmails: set<string>, rows: seq<Row>)
    ensures ScanRows(kept, column, checkedEmails, rows).Scanning? <==>
      forall k :: 0 <= k < |rows| ==> Readable(kept, column, checkedEmails, rows[k])
    decreases |rows|
  {
    if rows != [] {
      var n := |rows| - 1;
      ScanRowsSucceeds(kept, column, checkedEmails, rows[..n]);
      assert forall k :: 0 <= k < n ==> rows[k] == rows[..n][k];
      ProjectKeptFacts(kept, rows[n]);
    }
  }

  /**
   * A successful scan prints exactly the selected rows, projected, counts
   * every row, and counts the printed ones.
   */
  lemma {:induction false} ScanRowsOutput(kept: seq<string>, column: string, checkedEmails: set<string>, rows: seq<Row>)
    ensures var s := ScanRows(kept, column, checkedEmails, rows);
      s.Scanning? ==>
        && s.written == Expected(kept, column, checkedEmails, rows)
        && s.totalRows == |rows|
        && s.filteredRows == |s.written|
    decreases |rows|
  {
    if rows != [] {
      var n := |rows| - 1;
      ScanRowsOutput(kept, column, checkedEmails, rows[..n]);
      var row := rows[n];
      if ScanRows(kept, column, checkedEmails, rows).Scanning? && column in row && Selected(row, column, checkedEmails) {
        ProjectKeptFacts(kept, row);
        assert ProjectKept(kept, row).value == Values(kept, row);
      }
    }
  }

  /** A failed scan stops at the first unreadable row, with the records of the rows before it printed. */
  lemma {:induction false} ScanRowsFailure(kept: seq<string>, column: string, checkedEmails: set<string>, rows: seq<Row>)
    ensures var s := ScanRows(kept, column, checkedEmails, rows);
      s.Failed? ==>
        && s.error.MissingField?
        && s.error.row < |rows|
        && !Readable(kept, column, checkedEmails, rows[s.error.row])
        && (forall k :: 0 <= k < s.error.row ==> Readable(kept, column, checkedEmails, rows[k]))
        && s.error.written == Expected(kept, column, checkedEmails, rows[..s.error.row])
    decreases |rows|
  {
    if rows != [] {
      var n := |rows| - 1;
      var prefix := rows[..n];
      ScanRowsFailure(kept, column, checkedEmails, prefix);
      var before := ScanRows(kept, column, checkedEmails, prefix);
      if before.Failed? {
        assert rows[..before.error.row] == prefix[..before.error.row];
        assert forall k :: 0 <= k <= before.error.row ==> rows[k] == prefix[k];
      } else if ScanRows(kept, column, checkedEmails, rows).Failed? {
        ScanRowsSucceeds(kept, column, checkedEmails, prefix);
        ScanRowsOutput(kept, column, checkedEmails, prefix);
        assert forall k :: 0 <= k < n ==> rows[k] == prefix[k];
        ProjectKeptFacts(kept, rows[n]);
      }
    }
  }

  /** Every expected record is as wide as the kept header line, and there are no more of them than rows. */
  lemma {:induction false} ExpectedShape(kept: seq<string>, column: string, checkedEmails: set<string>, rows: seq<Row>)
    ensures |Expected(kept, column, checkedEmails, rows)| <= |rows|
    ensures forall w :: w in Expected(kept, column, checkedEmails, rows) ==> |w| == |kept|
    decreases |rows|
  {
    if rows != [] {
      ExpectedShape(kept, column, checkedEmails, rows[..|rows| - 1]);
    }
  }

  /**
   * The schema error is reported exactly when no email column is found; every
   * other failure is a field missing from a row the filter reads.
   */
  lemma FilterSpecErrors(headers: seq<string>, rows: seq<Row>, checkedEmails: set<string>, remove: set<string>)
    ensures FindEmailColumn(headers).Err? <==> FilterSpec(headers, rows, checkedEmails, remove) == Err(NoEmailColumn(headers))
    ensures FindEmailColumn(headers).Ok? && FilterSpec(headers, rows, checkedEmails, remove).Err? ==>
      FilterSpec(headers, rows, checkedEmails, remove).error.MissingField?
  {
    var column := FindEmailColumn(headers);
    if column.Ok? {
      ScanRowsFailure(KeptHeaders(headers, remove), column.value, checkedEmails, rows);
    }
  }

  /**
   * A successful filter prints the kept headers, then exactly the selected
   * rows projected onto them, each as wide as the header line; it counts
   * every row, and the printed ones.
   */
  lemma FilterSpecOutput(headers: seq<string>, rows: seq<Row>, checkedEmails: set<string>, remove: set<string>)
    requires FilterSpec(headers, rows, checkedEmails, remove).Ok?
    ensures var out := FilterSpec(headers, rows, checkedEmails, remove).value;
      && FindEmailColumn(headers).Ok?
      && out.headers == KeptHeaders(headers, remove)
      && out.rows == Expected(out.headers, FindEmailColumn(headers).value, checkedEmails, rows)
      && out.totalRows == |rows|
      && out.filteredRows == |out.rows| <= out.totalRows
      && (forall w :: w in out.rows ==> |w| == |out.headers|)
  {
    var kept := KeptHeaders(headers, remove);
    var column := FindEmailColumn(headers).value;
    ScanRowsOutput(kept, column, checkedEmails, rows);
    ExpectedShape(kept, column, checkedEmails, rows);
  }

  // ---------------------------------------------------------------------------
  // The loop programs

  /** The header loop of filterScrapedFile. */
  method FilterHeaders(originalHeaders: seq<string>, columnsToRemove: set<string>) returns (filteredHeaders: seq<string>)
    ensures filteredHeaders == KeptHeaders(originalHeaders, columnsToRemove)
  {
    filteredHeaders := [];
    var i := 0;
    while i < |originalHeaders|
      invariant 0 <= i <= |originalHeaders|
      invariant filteredHeaders == KeptHeaders(originalHeaders[..i], columnsToRemove)
    {
      var header := originalHeaders[i];
      if !IsBlank(header) && header !in columnsToRemove {
        filteredHeaders := filteredHeaders + [header];
      }
      assert originalHeaders[..i + 1][..i] == originalHeaders[..i];
      i := i + 1;
    }
    assert originalHeaders[..i] == originalHeaders;
  }

  /** The loop that fills `filteredRecord`, stopping at the first kept header the row lacks. */
  method BuildFilteredRecord(filteredHeaders: seq<string>, record: Row) returns (r: Result<seq<string>, string>)
    ensures r == ProjectKept(filteredHeaders, record)
  {
    var filteredRecord: seq<string> := [];
    var i := 0;
    while i < |filteredHeaders|
      invariant 0 <= i <= |filteredHeaders|
      invariant ProjectKept(filteredHeaders[..i], record) == Ok(filteredRecord)
    {
      var header := filteredHeaders[i];
      assert filteredHeaders[..i + 1][..i] == filteredHeaders[..i];
      if header !in record {
        PrefixError(filteredHeaders, i, record);
        return Err(header);
      }
      filteredRecord := filteredRecord + [record[header]];
      i := i + 1;
    }
    assert filteredHeaders[..i] == filteredHeaders;
    return Ok(filteredRecord);
  }

  /** Once a prefix of the kept headers fails, the whole list fails with the same column. */
  lemma {:induction false} PrefixError(kept: seq<string>, i: nat, row: Row)
    requires i < |kept| && kept[i] !in row
    requires ProjectKept(kept[..i], row).Ok?
    ensures ProjectKept(kept, row) == Err(kept[i])
    decreases |kept|
  {
    if i == |kept| - 1 {
      assert kept[..|kept| - 1] == kept[..i];
    } else {
      var n := |kept| - 1;
      assert kept[..n][..i] == kept[..i];
      PrefixError(kept[..n], i, row);
    }
  }

  /** The record loop of filterScrapedFile. */
  method CopyVerifiedRows(filteredHeaders: seq<string>, emailColumn: string, checkedEmails: set<string>, rows: seq<Row>)
    returns (s: Scan)
    ensures s == ScanRows(filteredHeaders, emailColumn, checkedEmails, rows)
  {
    var written: seq<seq<string>> := [];
    var totalRows: nat := 0;
    var filteredRows: nat := 0;
    var k: nat := 0;
    while k < |rows|
      invariant k <= |rows|
      invariant ScanRows(filteredHeaders, emailColumn, checkedEmails, rows[..k]) == Scanning(written, totalRows, filteredRows)
    {
      var record := rows[k];
      assert rows[..k + 1][..k] == rows[..k];
      if emailColumn !in record {
        FailedStays(filteredHeaders, emailColumn, checkedEmails, rows, k + 1);
        return Failed(MissingField(k, emailColumn, written));
      }
      totalRows := totalRows + 1;
      var email := record[emailColumn];
      if !IsBlank(email) && Normalize(email) in checkedEmails {
        var filteredRecord := BuildFilteredRecord(filteredHeaders, record);
        if filteredRecord.Err? {
          FailedStays(filteredHeaders, emailColumn, checkedEmails, rows, k + 1);
          return Failed(MissingField(k, filteredRecord.error, written));
        }
        written := written + [filteredRecord.value];
        filteredRows := filteredRows + 1;
      }
      k := k + 1;
    }
    assert rows[..k] == rows;
    return Scanning(written, totalRows, filteredRows);
  }

  /** A failure is final: the rows after it do not change the outcome. */
  lemma {:induction false} FailedStays(kept: seq<string>, column: string, checkedEmails: set<string>, rows: seq<Row>, k: nat)
    requires k <= |rows|
    requires ScanRows(kept, column, checkedEmails, rows[..k]).Failed?
    ensures ScanRows(kept, column, checkedEmails, rows) == ScanRows(kept, column, checkedEmails, rows[..k])
    decreases |rows| - k
  {
    if k < |rows| {
      assert rows[..k + 1][..k] == rows[..k];
      FailedStays(kept, column, checkedEmails, rows, k + 1);
    } else {
      assert rows[..k] == rows;
    }
  }

  /** filterScrapedFile: filter the headers, resolve the email column, then copy the verified rows. */
  method FilterScrapedFile(originalHeaders: seq<string>, rows: seq<Row>, checkedEmails: set<string>, columnsToRemove: set<string>)
    returns (r: Result<Filtered, FilterError>)
    ensures r == FilterSpec(originalHeaders, rows, checkedEmails, columnsToRemove)
    ensures r.Ok? ==> forall h :: h in r.value.headers ==> h in originalHeaders && KeepHeader(h, columnsToRemove)
    ensures r.Ok? ==> r.value.filteredRows <= r.value.totalRows == |rows|
  {
    var filteredHeaders := FilterHeaders(originalHeaders, columnsToRemove);
    var emailColumn := FindEmailColumn(originalHeaders);
    FindEmailColumnFacts(originalHeaders);
    if emailColumn.Err? {
      return Err(emailColumn.error);
    }
    var s := CopyVerifiedRows(filteredHeaders, emailColumn.value, checkedEmails, rows);
    match s {
      case Failed(e) => return Err(e);
      case Scanning(written, totalRows, filteredRows) =>
        r := Ok(Filtered(filteredHeaders, written, totalRows, filteredRows));
        KeptHeadersMembers(originalHeaders, columnsToRemove);
        FilterSpecOutput(originalHeaders, rows, checkedEmails, columnsToRemove);
    }
  }

  /**
   * main: load the allowlist from the checked file, then filter the scraped
   * file with the fixed set of removed columns. None of them reaches the output.
   */
  method RunFilter(checkedRecords: seq<seq<string>>, scrapedHeaders: seq<string>, scrapedRows: seq<Row>)
    returns (r: Result<Filtered, FilterError>)
    ensures r == FilterSpec(scrapedHeaders, scrapedRows, CheckedEmails(checkedRecords), ColumnsToRemove)
    ensures r.Ok? ==> forall h :: h in r.value.headers ==> h !in ColumnsToRemove && !IsBlank(h)
  {
    var checkedEmails := ReadCheckedEmails(checkedRecords);
    r := FilterScrapedFile(scrapedHeaders, scrapedRows, checkedEmails, ColumnsToRemove);
  }
}
