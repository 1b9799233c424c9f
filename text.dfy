/**
 * The string operations the two pipelines use: Java's String.trim, isEmpty
 * after trim, toLowerCase, equalsIgnoreCase and contains.
 *
 * trim is exact: Java strips every leading and trailing character whose code
 * is at most U+0020. Lower-casing is ASCII only.
 *
 * The functions carry no postconditions; what they guarantee is stated by the
 * lemmas below, so that clients only pay for the facts they ask for.
 */
module Text {

  /** A character String.trim removes from either end. */
  predicate IsTrimmable(c: char) {
    c <= ' '
  }

  /** Drops the leading trimmable characters. */
  function TrimStart(s: string): string {
    if s != [] && IsTrimmable(s[0]) then TrimStart(s[1..]) else s
  }

  /** Drops the trailing trimmable characters. */
  function TrimEnd(s: string): string {
    if s != [] && IsTrimmable(s[|s| - 1]) then TrimEnd(s[..|s| - 1]) else s
  }

  /** Java's String.trim(). */
  function Trim(s: string): string {
    TrimEnd(TrimStart(s))
  }

  /** `s.trim().isEmpty()`: the value counts as missing. */
  predicate IsBlank(s: string) {
    Trim(s) == []
  }

  /** Character.toLowerCase restricted to ASCII. */
  function LowerChar(c: char): char {
    if 'A' <= c <= 'Z' then (c as int + 32) as char else c
  }

  /** String.toLowerCase, character by character. */
  function Lower(s: string): string {
    seq(|s|, i requires 0 <= i < |s| => LowerChar(s[i]))
  }

  /** String.equalsIgnoreCase: equal after lower-casing. */
  predicate EqualsIgnoreCase(a: string, b: string) {
    Lower(a) == Lower(b)
  }

  /** String.contains. */
  predicate Contains(s: string, part: string)
    decreases |s|
  {
    part <= s || (s != [] && Contains(s[1..], part))
  }

  /** The dedup and allowlist key of a raw email value: `trim().toLowerCase()`. */
  function Normalize(s: string): string {
    Lower(Trim(s))
  }

  // ---------------------------------------------------------------------------

  /** TrimStart removes a prefix made only of trimmable characters, and stops at a kept one. */
  lemma {:induction false} TrimStartShape(s: string)
    ensures |TrimStart(s)| <= |s| && TrimStart(s) == s[|s| - |TrimStart(s)|..]
    ensures TrimStart(s) != [] ==> !IsTrimmable(TrimStart(s)[0])
    ensures forall i :: 0 <= i < |s| - |TrimStart(s)| ==> IsTrimmable(s[i])
    decreases |s|
  {
    if s != [] && IsTrimmable(s[0]) {
      TrimStartShape(s[1..]);
    }
  }

  /** TrimEnd removes a suffix made only of trimmable characters, and stops at a kept one. */
  lemma {:induction false} TrimEndShape(s: string)
    ensures |TrimEnd(s)| <= |s| && TrimEnd(s) == s[..|TrimEnd(s)|]
    ensures TrimEnd(s) != [] ==> !IsTrimmable(TrimEnd(s)[|TrimEnd(s)| - 1])
    ensures forall i :: |TrimEnd(s)| <= i < |s| ==> IsTrimmable(s[i])
    decreases |s|
  {
    if s != [] && IsTrimmable(s[|s| - 1]) {
      TrimEndShape(s[..|s| - 1]);
    }
  }

  /**
   * trim returns the slice of `s` left after dropping trimmable characters
   * from both ends: it never lengthens, leaves no trimmable character at
   * either end, and yields "" exactly when every character is trimmable.
   */
  lemma TrimShape(s: string)
    ensures |Trim(s)| <= |s|
    ensures exists a, b ::
      && 0 <= a <= b <= |s|
      && Trim(s) == s[a..b]
      && (forall i :: 0 <= i < a ==> IsTrimmable(s[i]))
      && (forall i :: b <= i < |s| ==> IsTrimmable(s[i]))
    ensures Trim(s) != [] ==> !IsTrimmable(Trim(s)[0]) && !IsTrimmable(Trim(s)[|Trim(s)| - 1])
    ensures Trim(s) == [] <==> forall i :: 0 <= i < |s| ==> IsTrimmable(s[i])
  {
    var t := TrimStart(s);
    TrimStartShape(s);
    TrimEndShape(t);
    var a := |s| - |t|;
    var b := a + |Trim(s)|;
    assert Trim(s) == s[a..b];
    forall i | b <= i < |s| ensures IsTrimmable(s[i]) {
      assert s[i] == t[i - a];
    }
    if Trim(s) != [] {
      assert Trim(s)[0] == t[0];
    }
  }

  /** A string with no trimmable character at either end is its own trim. */
  lemma TrimOfTrimmed(t: string)
    requires t != [] ==> !IsTrimmable(t[0]) && !IsTrimmable(t[|t| - 1])
    ensures Trim(t) == t
  {
    assert TrimStart(t) == t;
    assert TrimEnd(t) == t;
  }

  /** Lower-casing twice is lower-casing once. */
  lemma LowerIdempotent(s: string)
    ensures Lower(Lower(s)) == Lower(s)
  {
    var l := Lower(s);
    assert forall i :: 0 <= i < |s| ==> LowerChar(l[i]) == l[i];
  }

  /**
   * A normalized key is already trimmed and lower-cased, so normalizing it
   * again changes nothing; it is empty exactly when the raw value is blank.
   */
  lemma NormalizedShape(s: string)
    ensures Trim(Normalize(s)) == Normalize(s)
    ensures Lower(Normalize(s)) == Normalize(s)
    ensures Normalize(Normalize(s)) == Normalize(s)
    ensures Normalize(s) == [] <==> IsBlank(s)
  {
    var t := Trim(s);
    var n := Lower(t);
    TrimShape(s);
    assert n != [] ==> !IsTrimmable(n[0]) && !IsTrimmable(n[|n| - 1]);
    TrimOfTrimmed(n);
    LowerIdempotent(t);
  }

  /** `s.contains(part)` holds exactly when `part` starts at some position of `s`. */
  lemma {:induction false} ContainsAt(s: string, part: string)
    ensures Contains(s, part) <==> exists i :: 0 <= i <= |s| && part <= s[i..]
    decreases |s|
  {
    if s != [] {
      ContainsAt(s[1..], part);
      if Contains(s, part) {
        if part <= s {
          assert s[0..] == s;
        } else {
          var i :| 0 <= i <= |s[1..]| && part <= s[1..][i..];
          assert s[1..][i..] == s[i + 1..];
        }
      }
      if exists i :: 0 <= i <= |s| && part <= s[i..] {
        var i :| 0 <= i <= |s| && part <= s[i..];
        if i == 0 {
          assert s[0..] == s;
        } else {
          assert s[i..] == s[1..][i - 1..];
          assert Contains(s[1..], part);
        }
      }
    } else {
      assert s[0..] == s;
    }
  }

  /** A string contains only parts no longer than itself. */
  lemma {:induction false} ContainsLength(s: string, part: string)
    ensures Contains(s, part) ==> |part| <= |s|
    decreases |s|
  {
    if s != [] {
      ContainsLength(s[1..], part);
    }
  }
}
