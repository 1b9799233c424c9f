/**
 * Worked examples of the combiner: a two-file run in which the second file
 * has a different header line, one record has no email at all, one is a
 * case-insensitive duplicate and one falls back to `personal_email`.
 */
module CombinerExamples {
  import opened Wrappers
  import opened Text
  import opened Records
  import opened Combiner

  const FirstHeaders: seq<string> := ["email", "name"]
  const SecondHeaders: seq<string> := ["email", "personal_email", "name"]
  const RowA: Row := map["email" := "a@x.com", "name" := "A"]
  const RowB: Row := map["email" := "", "name" := "B"]
  const RowC: Row := map["email" := "a@X.com", "personal_email" := "", "name" := "C"]
  const RowD: Row := map["email" := "", "personal_email" := "b@y.com", "name" := "D"]

  /** The raw values of the scenario, trimmed and lower-cased. */
  lemma ScenarioKeys()
    ensures Normalize("a@x.com") == "a@x.com" && Normalize("a@X.com") == "a@x.com" && Normalize("b@y.com") == "b@y.com"
    ensures !IsBlank("a@x.com") && !IsBlank("a@X.com") && !IsBlank("b@y.com") && IsBlank("")
  {
    assert Trim("a@x.com") == "a@x.com";
    assert Trim("a@X.com") == "a@X.com";
    assert Trim("b@y.com") == "b@y.com";
    assert Lower("a@x.com") == "a@x.com";
    assert Lower("a@X.com") == "a@x.com";
    assert Lower("b@y.com") == "b@y.com";
  }

  /** The email column takes the chosen email; `name` is copied. */
  lemma ScenarioProjections()
    ensures ProjectRow(FirstHeaders, RowA, "a@x.com") == ["a@x.com", "A"]
    ensures ProjectRow(FirstHeaders, RowD, "b@y.com") == ["b@y.com", "D"]
  {
    assert EqualsIgnoreCase("email", EmailColumn);
    assert |Lower("name")| == 4;
  }

  /** The first file fixes the headers, accepts A and skips B, which has no email. */
  lemma ScenarioFirstFile()
    ensures FileStep(Start, 0, Parsed(FirstHeaders, [RowA, RowB])) ==
      Run(Combined(Some(FirstHeaders), [["a@x.com", "A"]], {"a@x.com"}, 1, 1, 0, 1, []), ["a@x.com"])
  {
    ScenarioKeys();
    ScenarioProjections();
    var afterOpen0 := OpenFile(Start, 0, FirstHeaders);
    assert [RowA, RowB][..1] == [RowA];
    assert [RowA][..0] == [];
    assert afterOpen0 == Run(Combined(Some(FirstHeaders), [], {}, 0, 0, 0, 0, []), []);
    assert DecideRow({}, RowA) == Accept("a@x.com", "a@x.com");
    assert DecideRow({"a@x.com"}, RowB) == NoEmail;
    var one := [RowA];
    assert one[..|one| - 1] == [];
    assert RowsFold(FirstHeaders, afterOpen0, []) == afterOpen0;
    var afterA := RowsFold(FirstHeaders, afterOpen0, one);
    assert afterA == RowStep(FirstHeaders, afterOpen0, RowA);
    assert afterA == Run(Combined(Some(FirstHeaders), [["a@x.com", "A"]], {"a@x.com"}, 1, 0, 0, 0, []), ["a@x.com"]);
    var afterB := RowsFold(FirstHeaders, afterOpen0, [RowA, RowB]);
    assert afterB == RowStep(FirstHeaders, afterA, RowB);
  }

  /** The run after the first file. */
  const AfterFirst: Run := Run(Combined(Some(FirstHeaders), [["a@x.com", "A"]], {"a@x.com"}, 1, 1, 0, 1, []), ["a@x.com"])

  /**
   * The second file's headers differ, so it is recorded as mismatched and
   * read with the first file's headers; C repeats A's email in another case
   * and is a duplicate; D has only a personal email, which is accepted and
   * printed in the email column.
   */
  lemma ScenarioSecondFile()
    ensures FileStep(AfterFirst, 1, Parsed(SecondHeaders, [RowC, RowD])) ==
      Run(Combined(Some(FirstHeaders), [["a@x.com", "A"], ["b@y.com", "D"]], {"a@x.com", "b@y.com"}, 2, 1, 1, 2, [1]),
          ["a@x.com", "b@y.com"])
  {
    ScenarioKeys();
    ScenarioProjections();
    var afterOpen1 := OpenFile(AfterFirst, 1, SecondHeaders);
    assert FirstHeaders != SecondHeaders by { assert |FirstHeaders| != |SecondHeaders|; }
    assert afterOpen1 == AfterFirst.(out := AfterFirst.out.(mismatchedFiles := [1]));
    assert DecideRow({"a@x.com"}, RowC) == Duplicate;
    assert DecideRow({"a@x.com"}, RowD) == Accept("b@y.com", "b@y.com");
    var one := [RowC];
    assert one[..|one| - 1] == [];
    assert RowsFold(FirstHeaders, afterOpen1, []) == afterOpen1;
    var afterC := RowsFold(FirstHeaders, afterOpen1, one);
    assert afterC == RowStep(FirstHeaders, afterOpen1, RowC);
    assert afterC == afterOpen1.(out := afterOpen1.out.(duplicateRecords := 1));
    assert [RowC, RowD][..1] == one;
    var afterD := RowsFold(FirstHeaders, afterOpen1, [RowC, RowD]);
    assert afterD == RowStep(FirstHeaders, afterC, RowD);
  }

  /** The whole run: two records printed, one skipped, one duplicate, the second file mismatched. */
  lemma TwoFileScenario()
    ensures Combine([Parsed(FirstHeaders, [RowA, RowB]), Parsed(SecondHeaders, [RowC, RowD])]) ==
      Combined(Some(FirstHeaders), [["a@x.com", "A"], ["b@y.com", "D"]], {"a@x.com", "b@y.com"}, 2, 1, 1, 2, [1])
  {
    var files := [Parsed(FirstHeaders, [RowA, RowB]), Parsed(SecondHeaders, [RowC, RowD])];
    ScenarioFirstFile();
    ScenarioSecondFile();
    assert files[..1][..0] == [];
    assert FilesFold(files[..1]) == AfterFirst;
    assert files[..|files| - 1] == files[..1];
  }

  /** A record with both addresses. */
  const RowE: Row := map["email" := "a@x.com", "personal_email" := "b@y.com"]

  /**
   * When both addresses are present, `email` wins; and once its key has been
   * seen the record is a duplicate, although its personal address is new.
   */
  lemma EmailBeatsPersonalEmail()
    ensures ChooseEmail(RowE) == Some("a@x.com")
    ensures DecideRow({}, RowE) == Accept("a@x.com", "a@x.com")
    ensures DecideRow({"a@x.com"}, RowE) == Duplicate
  {
    ScenarioKeys();
  }

  /**
   * The email lookup is exact while the projection ignores case: a record of
   * a file whose column is `Email` has no `email`, so without a non-blank
   * `personal_email` it is skipped for want of an email; with one, it is
   * accepted and its personal address fills the `Email` column.
   */
  lemma CapitalisedEmailColumn(seen: set<string>, value: string)
    ensures DecideRow(seen, map["Email" := value]) == NoEmail
    ensures DecideRow({}, map["Email" := value, "personal_email" := "b@y.com"]) == Accept("b@y.com", "b@y.com")
    ensures ProjectRow(["Email"], map["Email" := value, "personal_email" := "b@y.com"], "b@y.com") == ["b@y.com"]
  {
    ScenarioKeys();
    assert Lower("Email") == Lower(EmailColumn);
  }
}
