/**
 * The multi-file prospect combiner of Main2.combineProspectsCsvFiles.
 *
 * Each input CSV arrives already parsed: either it could not be opened (its
 * IOException is caught and the file is skipped) or it is a header list and
 * a sequence of rows. A row maps column names to values; a name that is not a
 * key is a column the record does not have, which the Java code turns into ""
 * by catching IllegalArgumentException.
 *
 * `Combine` is the specification: a left fold over files and, inside each
 * file, over rows. `CombineProspectsCsvFiles` is the loop program of the
 * source, proved equal to it. The lemmas state what the fold guarantees.
 */
module Combiner {
  import opened Wrappers
  import opened Text
  import opened Records

  /** One entry of the prospects folder. */
  datatype InputFile = Unreadable | Parsed(headers: seq<string>, rows: seq<Row>)

  /** What the run leaves behind: the printed header and records, the seen set and the counters. */
  datatype Combined = Combined(
    headers: Option<seq<string>>,   // None while no file could be opened (no CSVPrinter exists)
    records: seq<seq<string>>,      // every record handed to printRecord, in order
    uniqueEmails: set<string>,
    totalRecords: nat,
    skippedRecords: nat,
    duplicateRecords: nat,
    processedFiles: nat,
    mismatchedFiles: seq<nat>)      // indices of the files that drew the "different headers" warning

  /** The fold's state: the visible result plus the dedup key of every printed record, in order. */
  datatype Run = Run(out: Combined, keys: seq<string>)

  /** How one record is classified. */
  datatype Decision = NoEmail | Duplicate | Accept(chosen: string, key: string)

  const EmailColumn: string := "email"
  const PersonalEmailColumn: string := "personal_email"

  const Start: Run := Run(Combined(None, [], {}, 0, 0, 0, 0, []), [])

  /** `record.get(name)` with a missing column read as "". */
  function Field(row: Row, name: string): string {
    if name in row then row[name] else ""
  }

  /** The email a record contributes: `email`, or `personal_email` when `email` is blank. */
  function ChooseEmail(row: Row): (r: Option<string>)
    ensures r.None? <==> IsBlank(Field(row, EmailColumn)) && IsBlank(Field(row, PersonalEmailColumn))
    ensures !IsBlank(Field(row, EmailColumn)) ==> r == Some(Field(row, EmailColumn))
    ensures IsBlank(Field(row, EmailColumn)) && !IsBlank(Field(row, PersonalEmailColumn)) ==>
      r == Some(Field(row, PersonalEmailColumn))
    ensures r.Some? ==> !IsBlank(r.value)
  {
    var email := Field(row, EmailColumn);
    var personal := Field(row, PersonalEmailColumn);
    if IsBlank(email) && IsBlank(personal) then None
    else Some(if IsBlank(email) then personal else email)
  }

  /** The decision for one record, given the normalized emails accepted so far. */
  function DecideRow(seen: set<string>, row: Row): (d: Decision)
    ensures d.NoEmail? <==> IsBlank(Field(row, EmailColumn)) && IsBlank(Field(row, PersonalEmailColumn))
    ensures d.Duplicate? <==> ChooseEmail(row).Some? && Normalize(ChooseEmail(row).value) in seen
    ensures d.Accept? ==> d.chosen == ChooseEmail(row).value
    ensures d.Accept? ==> d.key == Normalize(d.chosen) && d.key !in seen
    ensures d.Accept? ==> d.key != [] && Normalize(d.key) == d.key
  {
    match ChooseEmail(row)
    case None => NoEmail
    case Some(chosen) =>
      var key := Normalize(chosen);
      NormalizedShape(chosen);
      if key in seen then Duplicate else Accept(chosen, key)
  }

  /** The value printed under one master header. */
  function Cell(header: string, row: Row, chosen: string): string {
    if EqualsIgnoreCase(header, EmailColumn) then chosen else Field(row, header)
  }

  /** The record printed for an accepted row, one value per master header. */
  function ProjectRow(master: seq<string>, row: Row, chosen: string): (r: seq<string>)
    ensures |r| == |master|
    ensures forall i :: 0 <= i < |master| ==>
      r[i] == (if EqualsIgnoreCase(master[i], EmailColumn) then chosen else Field(row, master[i]))
  {
    if master == [] then []
    else ProjectRow(master[..|master| - 1], row, chosen) + [Cell(master[|master| - 1], row, chosen)]
  }

  /** The effect of one record on the run. */
  function RowStep(master: seq<string>, st: Run, row: Row): Run {
    match DecideRow(st.out.uniqueEmails, row)
    case NoEmail => st.(out := st.out.(skippedRecords := st.out.skippedRecords + 1))
    case Duplicate => st.(out := st.out.(duplicateRecords := st.out.duplicateRecords + 1))
    case Accept(chosen, key) =>
      Run(st.out.(uniqueEmails := st.out.uniqueEmails + {key},
                  records := st.out.records + [ProjectRow(master, row, chosen)],
                  totalRecords := st.out.totalRecords + 1),
          st.keys + [key])
  }

  /** The records of one file, in order. */
  function RowsFold(master: seq<string>, st: Run, rows: seq<Row>): Run
    decreases |rows|
  {
    if rows == [] then st
    else RowStep(master, RowsFold(master, st, rows[..|rows| - 1]), rows[|rows| - 1])
  }

  /** Opening a file: the first one fixes the master headers, a later one can only be warned about. */
  function OpenFile(st: Run, index: nat, headers: seq<string>): Run {
    match st.out.headers
    case None => st.(out := st.out.(headers := Some(headers)))
    case Some(master) =>
      if master == headers then st
      else st.(out := st.out.(mismatchedFiles := st.out.mismatchedFiles + [index]))
  }

  function FileStep(st: Run, index: nat, file: InputFile): Run {
    match file
    case Unreadable => st
    case Parsed(headers, rows) =>
      var afterOpen := OpenFile(st, index, headers);
      var read := RowsFold(afterOpen.out.headers.value, afterOpen, rows);
      read.(out := read.out.(processedFiles := read.out.processedFiles + 1))
  }

  function FilesFold(files: seq<InputFile>): Run
    decreases |files|
  {
    if files == [] then Start
    else FileStep(FilesFold(files[..|files| - 1]), |files| - 1, files[|files| - 1])
  }

  /** The specification of combineProspectsCsvFiles. */
  function Combine(files: seq<InputFile>): Combined {
    FilesFold(files).out
  }

  // ---------------------------------------------------------------------------
  // Reference definitions the fold is measured against

  /** The headers of the first file that could be opened, searching from the front. */
  function FirstReadable(files: seq<InputFile>): Option<seq<string>> {
    if files == [] then None
    else if files[0].Parsed? then Some(files[0].headers)
    else FirstReadable(files[1..])
  }

  /** The number of records read from the files that could be opened. */
  function RowsRead(files: seq<InputFile>): nat {
    if files == [] then 0
    else RowsRead(files[..|files| - 1]) + RowCount(files[|files| - 1])
  }

  function RowCount(file: InputFile): nat {
    match file
    case Unreadable => 0
    case Parsed(_, rows) => |rows|
  }

  /** The number of files that could be opened. */
  function ReadableCount(files: seq<InputFile>): nat {
    if files == [] then 0
    else ReadableCount(files[..|files| - 1]) + (if files[|files| - 1].Parsed? then 1 else 0)
  }

  ghost predicate Distinct(s: seq<string>) {
    forall i, j :: 0 <= i < j < |s| ==> s[i] != s[j]
  }

  /** What holds of the run after every record. */
  ghost predicate Consistent(st: Run) {
    && (st.out.headers.None? ==> st == Start)
    && |st.keys| == |st.out.records| == st.out.totalRecords
    && Distinct(st.keys)
    && (forall k :: k in st.keys <==> k in st.out.uniqueEmails)
    && (forall k :: k in st.keys ==> k != [] && Normalize(k) == k)
    && (st.out.headers.Some? ==> forall r :: r in st.out.records ==> |r| == |st.out.headers.value|)
  }

  // ---------------------------------------------------------------------------
  // Lemmas

  /**
   * One record: the seen set only grows, the counters account for the record
   * exactly once, and a duplicate or an email-less record changes nothing else.
   */
  lemma RowStepFacts(master: seq<string>, st: Run, row: Row)
    requires Consistent(st) && st.out.headers == Some(master)
    ensures var r := RowStep(master, st, row);
      && Consistent(r)
      && r.out.headers == st.out.headers
      && r.out.processedFiles == st.out.processedFiles
      && r.out.mismatchedFiles == st.out.mismatchedFiles
      && st.out.uniqueEmails <= r.out.uniqueEmails
      && r.out.totalRecords + r.out.skippedRecords + r.out.duplicateRecords
         == st.out.totalRecords + st.out.skippedRecords + st.out.duplicateRecords + 1
  {
    var d := DecideRow(st.out.uniqueEmails, row);
    if d.Accept? {
      AcceptKeepsConsistent(master, st, row, d.chosen, d.key);
    }
  }

  lemma AcceptKeepsConsistent(master: seq<string>, st: Run, row: Row, chosen: string, key: string)
    requires Consistent(st) && st.out.headers == Some(master)
    requires DecideRow(st.out.uniqueEmails, row) == Accept(chosen, key)
    ensures Consistent(RowStep(master, st, row))
  {
    var r := RowStep(master, st, row);
    assert r.keys == st.keys + [key];
    assert r.out.uniqueEmails == st.out.uniqueEmails + {key};
    assert r.out.records == st.out.records + [ProjectRow(master, row, chosen)];
    assert r.out.totalRecords == st.out.totalRecords + 1;
    assert r.out.headers == st.out.headers;
    ConsistentExtend(st, r, key, ProjectRow(master, row, chosen));
  }

  /** Appending a fresh, normalized key and a full-width record keeps the run consistent. */
  lemma ConsistentExtend(st: Run, r: Run, key: string, rec: seq<string>)
    requires Consistent(st) && st.out.headers.Some?
    requires key !in st.out.uniqueEmails && key != [] && Normalize(key) == key
    requires |rec| == |st.out.headers.value|
    requires r.out.headers == st.out.headers
    requires r.keys == st.keys + [key]
    requires r.out.uniqueEmails == st.out.uniqueEmails + {key}
    requires r.out.records == st.out.records + [rec]
    requires r.out.totalRecords == st.out.totalRecords + 1
    ensures Consistent(r)
  {
    var keys := r.keys;
    assert Distinct(keys) by {
      forall i, j | 0 <= i < j < |keys| ensures keys[i] != keys[j] {
        if j == |keys| - 1 { assert keys[i] in st.keys; }
      }
    }
    forall k ensures k in keys <==> k in r.out.uniqueEmails {
      assert k in keys <==> k in st.keys || k == key;
    }
    forall k | k in keys ensures k != [] && Normalize(k) == k {
      assert k in st.keys || k == key;
    }
    forall x | x in r.out.records ensures |x| == |rec| {
      assert x in st.out.records || x == rec;
    }
  }

  lemma {:induction false} RowsFoldFacts(master: seq<string>, st: Run, rows: seq<Row>)
    requires Consistent(st) && st.out.headers == Some(master)
    ensures var r := RowsFold(master, st, rows);
      && Consistent(r)
      && r.out.headers == st.out.headers
      && r.out.processedFiles == st.out.processedFiles
      && r.out.mismatchedFiles == st.out.mismatchedFiles
      && st.out.uniqueEmails <= r.out.uniqueEmails
      && r.out.totalRecords + r.out.skippedRecords + r.out.duplicateRecords
         == st.out.totalRecords + st.out.skippedRecords + st.out.duplicateRecords + |rows|
    decreases |rows|
  {
    if rows != [] {
      var prefix := rows[..|rows| - 1];
      RowsFoldFacts(master, st, prefix);
      RowStepFacts(master, RowsFold(master, st, prefix), rows[|rows| - 1]);
    }
  }

  lemma {:induction false} FirstReadableSnoc(files: seq<InputFile>, f: InputFile)
    ensures FirstReadable(files + [f]) ==
      if FirstReadable(files).Some? then FirstReadable(files)
      else if f.Parsed? then Some(f.headers) else None
    decreases |files|
  {
    if files != [] {
      assert (files + [f])[1..] == files[1..] + [f];
      FirstReadableSnoc(files[1..], f);
    } else {
      assert (files + [f])[1..] == [];
    }
  }

  /**
   * The whole run: the invariant holds, the master headers are those of the
   * first readable file, and every record read is counted exactly once.
   */
  lemma {:induction false} FilesFoldFacts(files: seq<InputFile>)
    ensures var r := FilesFold(files);
      && Consistent(r)
      && r.out.headers == FirstReadable(files)
      && r.out.processedFiles == ReadableCount(files)
      && r.out.totalRecords + r.out.skippedRecords + r.out.duplicateRecords == RowsRead(files)
    decreases |files|
  {
    if files != [] {
      var n := |files| - 1;
      var prefix := files[..n];
      FilesFoldFacts(prefix);
      assert files == prefix + [files[n]];
      FirstReadableSnoc(prefix, files[n]);
      FileStepFacts(FilesFold(prefix), n, files[n]);
    }
  }

  /** One file: the invariant is kept, the first readable file fixes the headers, its records are all counted. */
  lemma FileStepFacts(st: Run, index: nat, file: InputFile)
    requires Consistent(st)
    ensures var r := FileStep(st, index, file);
      && Consistent(r)
      && r.out.headers == (if st.out.headers.None? && file.Parsed? then Some(file.headers) else st.out.headers)
      && r.out.processedFiles == st.out.processedFiles + (if file.Parsed? then 1 else 0)
      && r.out.totalRecords + r.out.skippedRecords + r.out.duplicateRecords
         == st.out.totalRecords + st.out.skippedRecords + st.out.duplicateRecords + RowCount(file)
  {
    match file
    case Unreadable =>
    case Parsed(headers, rows) =>
      var afterOpen := OpenFile(st, index, headers);
      RowsFoldFacts(afterOpen.out.headers.value, afterOpen, rows);
  }

  /**
   * Dedup: no two printed records share a normalized email, the seen set is
   * exactly the set of their keys, and so its size equals the accepted count
   * (the "Unique emails in output" line equals "Total records combined").
   */
  lemma CombineDedup(files: seq<InputFile>)
    ensures var r := FilesFold(files);
      && |r.keys| == |r.out.records| == r.out.totalRecords
      && (forall i, j :: 0 <= i < j < |r.keys| ==> r.keys[i] != r.keys[j])
      && (forall k :: k in r.out.uniqueEmails <==> k in r.keys)
      && (forall k :: k in r.out.uniqueEmails ==> k != [] && Normalize(k) == k)
      && |r.out.uniqueEmails| == r.out.totalRecords
  {
    FilesFoldFacts(files);
    var r := FilesFold(files);
    DistinctCard(r.keys, r.out.uniqueEmails);
  }

  lemma {:induction false} DistinctCard(s: seq<string>, e: set<string>)
    requires Distinct(s)
    requires forall k :: k in e <==> k in s
    ensures |e| == |s|
    decreases |s|
  {
    if s != [] {
      var n := |s| - 1;
      var prefix := s[..n];
      assert s[n] !in prefix;
      DistinctCard(prefix, e - {s[n]});
    } else {
      assert e == {};
    }
  }

  /** Every record read is accepted, skipped for no email, or skipped as a duplicate — exactly one of them. */
  lemma CombineAccounting(files: seq<InputFile>)
    ensures var c := Combine(files);
      && c.totalRecords + c.skippedRecords + c.duplicateRecords == RowsRead(files)
      && c.processedFiles == ReadableCount(files)
  {
    FilesFoldFacts(files);
  }

  /**
   * The master headers are those of the first file that could be opened;
   * every printed record has exactly one value per master header; with no
   * readable file nothing at all is printed.
   */
  lemma CombineShape(files: seq<InputFile>)
    ensures var c := Combine(files);
      && c.headers == FirstReadable(files)
      && (c.headers.Some? ==> forall r :: r in c.records ==> |r| == |c.headers.value|)
      && (c.headers.None? ==> c.records == [] && c.uniqueEmails == {} && c.processedFiles == 0)
  {
    FilesFoldFacts(files);
  }

  /**
   * A later file draws the header warning exactly when its headers differ
   * from the master headers fixed by an earlier file; it never replaces them.
   */
  lemma {:induction false} CombineMismatch(files: seq<InputFile>)
    ensures forall i :: i in Combine(files).mismatchedFiles <==>
      && 0 <= i < |files|
      && files[i].Parsed?
      && FirstReadable(files[..i]).Some?
      && files[i].headers != FirstReadable(files[..i]).value
    decreases |files|
  {
    if files != [] {
      var n := |files| - 1;
      var prefix := files[..n];
      CombineMismatch(prefix);
      FilesFoldFacts(prefix);
      var st := FilesFold(prefix);
      FileStepMismatch(st, n, files[n]);
      var m := Combine(files).mismatchedFiles;
      forall i ensures i in m <==>
        && 0 <= i < |files|
        && files[i].Parsed?
        && FirstReadable(files[..i]).Some?
        && files[i].headers != FirstReadable(files[..i]).value
      {
        if 0 <= i < n {
          assert files[..i] == prefix[..i];
          assert files[i] == prefix[i];
        } else if i == n {
          assert files[..i] == prefix;
        }
      }
    }
  }

  /** Reading a file's records leaves the warning list as opening the file left it. */
  lemma FileStepMismatch(st: Run, index: nat, file: InputFile)
    requires Consistent(st)
    ensures FileStep(st, index, file).out.mismatchedFiles == OpenedMismatch(st, index, file)
    ensures OpenedMismatch(st, index, file) == st.out.mismatchedFiles + (
      if file.Parsed? && st.out.headers.Some? && st.out.headers.value != file.headers then [index] else [])
  {
    match file
    case Unreadable =>
    case Parsed(headers, rows) =>
      var afterOpen := OpenFile(st, index, headers);
      RowsFoldFacts(afterOpen.out.headers.value, afterOpen, rows);
  }

  /** The warning list after a file, without the record loop (which leaves it alone). */
  function OpenedMismatch(st: Run, index: nat, file: InputFile): seq<nat> {
    match file
    case Unreadable => st.out.mismatchedFiles
    case Parsed(headers, _) => OpenFile(st, index, headers).out.mismatchedFiles
  }

  /**
   * What one record does, decision by decision: an email-less record and a
   * duplicate each move their own counter and leave the seen set, the printed
   * records and the accepted count alone; an accepted record adds its fresh
   * key and prints its projection, and moves no skip counter.
   */
  lemma RowStepEffect(master: seq<string>, st: Run, row: Row)
    ensures var r := RowStep(master, st, row);
      var d := DecideRow(st.out.uniqueEmails, row);
      && (!d.Accept? ==>
            && r.keys == st.keys
            && r.out.uniqueEmails == st.out.uniqueEmails
            && r.out.records == st.out.records
            && r.out.totalRecords == st.out.totalRecords)
      && (d.NoEmail? ==>
            r.out.skippedRecords == st.out.skippedRecords + 1 && r.out.duplicateRecords == st.out.duplicateRecords)
      && (d.Duplicate? ==>
            r.out.duplicateRecords == st.out.duplicateRecords + 1 && r.out.skippedRecords == st.out.skippedRecords)
      && (d.Accept? ==>
            && d.key !in st.out.uniqueEmails
            && r.out.uniqueEmails == st.out.uniqueEmails + {d.key}
            && r.out.records == st.out.records + [ProjectRow(master, row, d.chosen)]
            && r.out.totalRecords == st.out.totalRecords + 1
            && r.out.skippedRecords == st.out.skippedRecords
            && r.out.duplicateRecords == st.out.duplicateRecords)
  {
  }

  // ---------------------------------------------------------------------------
  // The first-occurrence reference: which records a run must print

  /** The email a record contributes, or "" when it has none. */
  function EmailOf(row: Row): string {
    match ChooseEmail(row)
    case None => ""
    case Some(e) => e
  }

  /** The record has an email and it normalizes to `key`. */
  predicate HasKey(row: Row, key: string) {
    ChooseEmail(row).Some? && Normalize(EmailOf(row)) == key
  }

  /** The records read from one file: none when it could not be opened. */
  function FileRows(file: InputFile): seq<Row> {
    match file
    case Unreadable => []
    case Parsed(_, rows) => rows
  }

  /** Every record read, in order: the rows of the readable files, one file after the other. */
  function AllRows(files: seq<InputFile>): seq<Row> {
    if files == [] then []
    else AllRows(files[..|files| - 1]) + FileRows(files[|files| - 1])
  }

  /** The normalized emails of the records that have one. */
  function SeenKeys(rows: seq<Row>): set<string> {
    if rows == [] then {}
    else
      var last := rows[|rows| - 1];
      SeenKeys(rows[..|rows| - 1]) + (if ChooseEmail(last).Some? then {Normalize(EmailOf(last))} else {})
  }

  /** The records whose normalized email no earlier record has, in order. */
  function FirstOccurrences(rows: seq<Row>): seq<Row> {
    if rows == [] then []
    else
      var last := rows[|rows| - 1];
      var prefix := rows[..|rows| - 1];
      FirstOccurrences(prefix) +
        (if ChooseEmail(last).Some? && Normalize(EmailOf(last)) !in SeenKeys(prefix) then [last] else [])
  }

  /** The normalized email of each record. */
  function KeyList(rows: seq<Row>): seq<string> {
    seq(|rows|, i requires 0 <= i < |rows| => Normalize(EmailOf(rows[i])))
  }

  /** Each record projected onto the master headers with its chosen email. */
  function Projected(master: seq<string>, rows: seq<Row>): seq<seq<string>> {
    seq(|rows|, i requires 0 <= i < |rows| => ProjectRow(master, rows[i], EmailOf(rows[i])))
  }

  /** A key has been seen exactly when some record carries it. */
  lemma {:induction false} SeenKeysMembers(rows: seq<Row>)
    ensures forall k :: k in SeenKeys(rows) <==> exists i :: 0 <= i < |rows| && HasKey(rows[i], k)
    decreases |rows|
  {
    if rows != [] {
      var n := |rows| - 1;
      SeenKeysMembers(rows[..n]);
      assert forall i :: 0 <= i < n ==> rows[..n][i] == rows[i];
    }
  }

  /**
   * A record is kept as a first occurrence exactly when it has an email and
   * no earlier record has the same normalized email.
   */
  lemma FirstOccurrenceStep(rows: seq<Row>, row: Row)
    ensures FirstOccurrences(rows + [row]) ==
      FirstOccurrences(rows) +
        (if ChooseEmail(row).Some? && forall i :: 0 <= i < |rows| ==> !HasKey(rows[i], Normalize(EmailOf(row)))
         then [row] else [])
  {
    assert (rows + [row])[..|rows|] == rows;
    SeenKeysMembers(rows);
  }

  /** The run's state matches the reference for the records read so far. */
  ghost predicate Tracks(st: Run, rows: seq<Row>) {
    && st.out.uniqueEmails == SeenKeys(rows)
    && st.keys == KeyList(FirstOccurrences(rows))
    && (st.out.headers.None? ==> rows == [] && st.out.records == [])
    && (st.out.headers.Some? ==> st.out.records == Projected(st.out.headers.value, FirstOccurrences(rows)))
  }

  lemma RowStepTracks(master: seq<string>, st: Run, rows: seq<Row>, row: Row)
    requires Tracks(st, rows) && st.out.headers == Some(master)
    ensures Tracks(RowStep(master, st, row), rows + [row])
    ensures RowStep(master, st, row).out.headers == Some(master)
  {
    var all := rows + [row];
    assert all[..|all| - 1] == rows;
    var acc := FirstOccurrences(rows);
    var d := DecideRow(st.out.uniqueEmails, row);
    if d.Accept? {
      assert KeyList(acc + [row]) == KeyList(acc) + [d.key];
      assert Projected(master, acc + [row]) == Projected(master, acc) + [ProjectRow(master, row, d.chosen)];
    }
  }

  lemma {:induction false} RowsFoldTracks(master: seq<string>, st: Run, read: seq<Row>, rows: seq<Row>)
    requires Tracks(st, read) && st.out.headers == Some(master)
    ensures Tracks(RowsFold(master, st, rows), read + rows)
    ensures RowsFold(master, st, rows).out.headers == Some(master)
    decreases |rows|
  {
    if rows == [] {
      assert read + rows == read;
    } else {
      var n := |rows| - 1;
      RowsFoldTracks(master, st, read, rows[..n]);
      RowStepTracks(master, RowsFold(master, st, rows[..n]), read + rows[..n], rows[n]);
      assert read + rows[..n] + [rows[n]] == read + rows;
    }
  }

  lemma FileStepTracks(st: Run, read: seq<Row>, index: nat, file: InputFile)
    requires Tracks(st, read)
    ensures Tracks(FileStep(st, index, file), read + FileRows(file))
  {
    match file
    case Unreadable =>
      assert read + [] == read;
    case Parsed(headers, rows) =>
      var afterOpen := OpenFile(st, index, headers);
      RowsFoldTracks(afterOpen.out.headers.value, afterOpen, read, rows);
  }

  lemma {:induction false} FilesFoldTracks(files: seq<InputFile>)
    ensures Tracks(FilesFold(files), AllRows(files))
    decreases |files|
  {
    if files != [] {
      var n := |files| - 1;
      FilesFoldTracks(files[..n]);
      FileStepTracks(FilesFold(files[..n]), AllRows(files[..n]), n, files[n]);
    }
  }

  /**
   * Which records a run prints: of all records read, in order, exactly the
   * first one carrying each normalized email, each projected onto the master
   * headers with its chosen email. The seen set holds the normalized emails
   * of all records read.
   */
  lemma CombineFirstOccurrences(files: seq<InputFile>)
    ensures var c := Combine(files);
      var acc := FirstOccurrences(AllRows(files));
      && c.uniqueEmails == SeenKeys(AllRows(files))
      && |c.records| == |acc| == c.totalRecords
      && (c.headers.Some? ==>
            forall i :: 0 <= i < |acc| ==> c.records[i] == ProjectRow(c.headers.value, acc[i], EmailOf(acc[i])))
  {
    FilesFoldTracks(files);
    CombineDedup(files);
  }

  /**
   * The normalized emails of the printed records, `KeyList` of the first
   * occurrences, are pairwise distinct, and every email seen is one of them:
   * nothing is lost.
   */
  lemma CombineFirstOccurrenceKeys(files: seq<InputFile>)
    ensures var keys := KeyList(FirstOccurrences(AllRows(files)));
      && (forall i, j :: 0 <= i < j < |keys| ==> keys[i] != keys[j])
      && (forall k :: k in Combine(files).uniqueEmails <==> k in keys)
  {
    FilesFoldTracks(files);
    FilesFoldFacts(files);
  }

  // ---------------------------------------------------------------------------
  // The loop program

  /**
   * combineProspectsCsvFiles: files in folder order, records in file order.
   * The run's tallies live in `result` (its `headers` being None is the
   * source's `isFirstFile`). It computes exactly `Combine(files)`; the dedup
   * and accounting facts proved about `Combine` are restated for the caller.
   */
  method CombineProspectsCsvFiles(files: seq<InputFile>) returns (result: Combined)
    ensures result == Combine(files)
    ensures result.headers == FirstReadable(files)
    ensures |result.uniqueEmails| == result.totalRecords == |result.records|
    ensures result.totalRecords + result.skippedRecords + result.duplicateRecords == RowsRead(files)
    ensures result.uniqueEmails == SeenKeys(AllRows(files))
    ensures result.headers.Some? ==> result.records == Projected(result.headers.value, FirstOccurrences(AllRows(files)))
  {
    result := Start.out;
    ghost var keys: seq<string> := [];
    var f: nat := 0;
    while f < |files|
      invariant f <= |files|
      invariant Run(result, keys) == FilesFold(files[..f])
    {
      match files[f] {
        case Unreadable =>
          // the IOException is caught and the next file is tried
        case Parsed(fileHeaders, rows) =>
          if result.headers.None? {
            result := result.(headers := Some(fileHeaders));
          } else if result.headers.value != fileHeaders {
            result := result.(mismatchedFiles := result.mismatchedFiles + [f]);
          }
          result, keys := CopyRecords(result.headers.value, rows, result, keys);
          result := result.(processedFiles := result.processedFiles + 1);
      }
      FilesFoldSnoc(files, f);
      f := f + 1;
    }
    assert files[..f] == files;
    CombineDedup(files);
    CombineShape(files);
    CombineAccounting(files);
    FilesFoldTracks(files);
  }

  /** The record loop of one file: classify each record, count it, print the accepted ones. */
  method CopyRecords(headers: seq<string>, rows: seq<Row>, start: Combined, ghost startKeys: seq<string>)
    returns (out: Combined, ghost keys: seq<string>)
    ensures out == RowsFold(headers, Run(start, startKeys), rows).out
    ensures keys == RowsFold(headers, Run(start, startKeys), rows).keys
  {
    out, keys := start, startKeys;
    var j: nat := 0;
    while j < |rows|
      invariant j <= |rows|
      invariant Run(out, keys) == RowsFold(headers, Run(start, startKeys), rows[..j])
    {
      RowsFoldSnoc(headers, Run(start, startKeys), rows, j);
      var record := rows[j];
      var decision := ClassifyRecord(out.uniqueEmails, record);
      match decision {
        case NoEmail =>
          out := out.(skippedRecords := out.skippedRecords + 1);
        case Duplicate =>
          out := out.(duplicateRecords := out.duplicateRecords + 1);
        case Accept(finalEmailValue, normalizedEmail) =>
          var recordValues := BuildRecordValues(headers, record, finalEmailValue);
          out := out.(uniqueEmails := out.uniqueEmails + {normalizedEmail},
                      records := out.records + [recordValues],
                      totalRecords := out.totalRecords + 1);
          keys := keys + [normalizedEmail];
      }
      j := j + 1;
    }
    assert rows[..j] == rows;
  }

  /**
   * The checks the source makes on one record before printing it: read
   * `email` and `personal_email`, skip when both are blank, fall back to
   * `personal_email`, and look the normalized email up in the seen set.
   */
  method ClassifyRecord(uniqueEmails: set<string>, record: Row) returns (decision: Decision)
    ensures decision == DecideRow(uniqueEmails, record)
  {
    var emailValue := Field(record, EmailColumn);
    var personalEmailValue := Field(record, PersonalEmailColumn);
    if IsBlank(emailValue) && IsBlank(personalEmailValue) {
      return NoEmail;
    }
    var finalEmailValue := if IsBlank(emailValue) then personalEmailValue else emailValue;
    var normalizedEmail := Normalize(finalEmailValue);
    if normalizedEmail in uniqueEmails {
      return Duplicate;
    }
    return Accept(finalEmailValue, normalizedEmail);
  }

  /** The loop that fills `recordValues` for an accepted record, one value per master header. */
  method BuildRecordValues(headers: seq<string>, record: Row, finalEmailValue: string)
    returns (recordValues: seq<string>)
    ensures recordValues == ProjectRow(headers, record, finalEmailValue)
  {
    recordValues := [];
    var i := 0;
    while i < |headers|
      invariant 0 <= i <= |headers|
      invariant recordValues == ProjectRow(headers[..i], record, finalEmailValue)
    {
      var header := headers[i];
      var value := "";
      if EqualsIgnoreCase(header, EmailColumn) {
        value := finalEmailValue;
      } else {
        value := Field(record, header);
      }
      assert headers[..i + 1][..i] == headers[..i];
      recordValues := recordValues + [value];
      i := i + 1;
    }
    assert headers[..i] == headers;
  }

  lemma RowsFoldSnoc(master: seq<string>, st: Run, rows: seq<Row>, j: nat)
    requires j < |rows|
    ensures RowsFold(master, st, rows[..j + 1]) == RowStep(master, RowsFold(master, st, rows[..j]), rows[j])
  {
    assert rows[..j + 1][..j] == rows[..j];
  }

  lemma FilesFoldSnoc(files: seq<InputFile>, f: nat)
    requires f < |files|
    ensures FilesFold(files[..f + 1]) == FileStep(FilesFold(files[..f]), f, files[f])
  {
    assert files[..f + 1][..f] == files[..f];
  }
}
