/**
 * Worked examples of the allowlist filter: the schema failure, the priority
 * order of email column names, and the sentinel values of the allowlist.
 */
module FilterExamples {
  import opened Wrappers
  import opened Text
  import opened Records
  import opened Filter

  /** A header line with no email-like column is the schema error, which lists the headers. */
  lemma NoEmailColumnExample()
    ensures FindEmailColumn(["id"]) == Err(NoEmailColumn(["id"]))
  {
    ContainsLength(Lower("id"), "email");
  }

  /** The priority list decides, not the header order: `email` wins over an earlier `Email`. */
  lemma PriorityOrderExample()
    ensures FindEmailColumn(["Email", "email"]) == Ok("email")
  {
  }

  /** The two sentinels are rejected; a padded, mixed-case address is accepted and normalized. */
  lemma SentinelValues()
    ensures !IsCheckedEmail("ok") && !IsCheckedEmail("ELV Result")
    ensures Normalize(" A@x.COM ") == "a@x.com" && IsCheckedEmail(" A@x.COM ")
  {
    assert Trim("ok") == "ok";
    assert Trim("ELV Result") == "ELV Result";
    assert TrimStart(" A@x.COM ") == "A@x.COM ";
    assert Trim(" A@x.COM ") == "A@x.COM";
    assert Lower("A@x.COM") == "a@x.com";
  }

  /** An allowlist file with both sentinels, one address and a one-field record. */
  lemma AllowlistExample()
    ensures CheckedEmails([["1", "ok"], ["2", "ELV Result"], ["3", " A@x.COM "], ["4"]]) == {"a@x.com"}
  {
    var records := [["1", "ok"], ["2", "ELV Result"], ["3", " A@x.COM "], ["4"]];
    SentinelValues();
    assert Contribution(records[0]) == {};
    assert Contribution(records[1]) == {};
    assert Contribution(records[2]) == {"a@x.com"};
    assert CheckedEmails(records[..1]) == {};
    assert records[..1][..0] == [];
    assert records[..2][..1] == records[..1];
    assert CheckedEmails(records[..2]) == {};
    assert records[..3][..2] == records[..2];
    assert CheckedEmails(records[..3]) == {"a@x.com"};
    assert records[..|records| - 1] == records[..3];
  }
}
