/** The WWN format test of check 1 in checks.py and wwnsToAliases.py:
    `re.search("([0-9a-fA-F]{2}:){7}[0-9a-fA-F]{2}", entry)`. The pattern
    has a fixed length of 23 characters, so a search succeeds exactly when
    some offset starts eight hex pairs separated by colons. */
module WwnFormat {

  const WwnLength: nat := 23

  predicate IsHexDigit(c: char) {
    ('0' <= c <= '9') || ('a' <= c <= 'f') || ('A' <= c <= 'F')
  }

  /** Two hex digits at j. */
  predicate HexPair(s: string, j: nat)
    requires j + 2 <= |s|
  {
    IsHexDigit(s[j]) && IsHexDigit(s[j + 1])
  }

  /** Offset i starts `hh:hh:hh:hh:hh:hh:hh:hh`: seven hex pairs each
      followed by a colon, then an eighth pair. */
  predicate WwnAt(s: string, i: nat)
    requires i + WwnLength <= |s|
  {
    && HexPair(s, i) && s[i + 2] == ':'
    && HexPair(s, i + 3) && s[i + 5] == ':'
    && HexPair(s, i + 6) && s[i + 8] == ':'
    && HexPair(s, i + 9) && s[i + 11] == ':'
    && HexPair(s, i + 12) && s[i + 14] == ':'
    && HexPair(s, i + 15) && s[i + 17] == ':'
    && HexPair(s, i + 18) && s[i + 20] == ':'
    && HexPair(s, i + 21)
  }

  /** re.search is unanchored: a match anywhere in the entry will do. */
  predicate ContainsWwn(s: string) {
    exists i: nat :: i + WwnLength <= |s| && WwnAt(s, i)
  }

  /** Because the search is unanchored, text around a WWN does not make
      the entry fail the format check. */
  lemma SurroundedWwnPasses(before: string, s: string, after: string)
    requires ContainsWwn(s)
    ensures ContainsWwn(before + s + after)
  {
    var i: nat :| i + WwnLength <= |s| && WwnAt(s, i);
    var t := before + s + after;
    assert t[|before| + i..|before| + i + WwnLength] == s[i..i + WwnLength];
    assert WwnAt(t, |before| + i);
  }

  /** s is exactly one WWN: 23 characters, a colon at every third position
      and a hex digit, of either case, everywhere else. */
  predicate CanonicalWwn(s: string) {
    |s| == WwnLength && forall j :: 0 <= j < |s| ==> if j % 3 == 2 then s[j] == ':' else IsHexDigit(s[j])
  }

  /** A WWN written canonically passes the check, in lower- or upper-case
      hex digits. */
  lemma CanonicalWwnPasses(s: string)
    requires CanonicalWwn(s)
    ensures ContainsWwn(s)
  {
    assert WwnAt(s, 0);
  }

  /** An entry shorter than a WWN fails, and so does one of exactly a WWN's
      length that lacks a colon at one of the seven separator positions. */
  lemma MalformedWwnFails(s: string)
    requires |s| < WwnLength || (|s| == WwnLength && exists j :: 0 <= j < |s| && j % 3 == 2 && s[j] != ':')
    ensures !ContainsWwn(s)
  {
    if |s| == WwnLength {
      var j :| 0 <= j < |s| && j % 3 == 2 && s[j] != ':';
      assert j in {2, 5, 8, 11, 14, 17, 20};
      assert !WwnAt(s, 0);
    }
  }

  /** Collects the entries that fail the format check, as the first loop of
      both scripts does (it raises its problem flag once per failing entry). */
  method FindMalformed(entries: set<string>) returns (bad: set<string>)
    ensures bad == set e | e in entries && !ContainsWwn(e)
  {
    bad := {};
    var rest := entries;
    while rest != {}
      invariant rest <= entries
      invariant bad == set e | e in entries - rest && !ContainsWwn(e)
      decreases rest
    {
      var e :| e in rest;
      if !ContainsWwn(e) {
        bad := bad + {e};
      }
      rest := rest - {e};
    }
  }
}
