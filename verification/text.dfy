/** The string operations the filters and forms rely on: lower-casing,
    substring search and whitespace trimming. Only ASCII letters are
    case-mapped, and the whitespace set is the ASCII one plus no-break space
    and the byte-order mark. */
module Text {

  function LowerChar(c: char): char {
    if 'A' <= c <= 'Z' then (c as int + 32) as char else c
  }

  /** `toLowerCase`, restricted to ASCII letters. */
  function ToLower(s: string): (r: string)
    ensures |r| == |s|
    ensures forall i :: 0 <= i < |s| ==> r[i] == LowerChar(s[i])
  {
    seq(|s|, i requires 0 <= i < |s| => LowerChar(s[i]))
  }

  /** `s.includes(sub)`: `sub` occurs in `s` at some offset. */
  predicate Includes(s: string, sub: string) {
    exists i :: 0 <= i <= |s| && OccursAt(s, sub, i)
  }

  predicate OccursAt(s: string, sub: string, i: nat) {
    i + |sub| <= |s| && s[i..i + |sub|] == sub
  }

  /** Every string includes the empty string. */
  lemma IncludesEmpty(s: string)
    ensures Includes(s, "")
  {
    assert OccursAt(s, "", 0);
  }

  /** A search match as the source writes it: the lower-cased name includes
      the lower-cased query. */
  predicate NameMatches(name: string, query: string) {
    Includes(ToLower(name), ToLower(query))
  }

  lemma EmptyQueryMatches(name: string)
    ensures NameMatches(name, "")
  {
    assert ToLower("") == "";
    IncludesEmpty(ToLower(name));
  }

  predicate IsSpace(c: char) {
    c == ' ' || c == '\t' || c == '\n' || c == '\r' || c == '\U{000B}' || c == '\U{000C}'
    || c == '\U{00A0}' || c == '\U{FEFF}'
  }

  /** Number of leading whitespace characters of `s`. */
  function LeadingSpaces(s: string): (n: nat)
    ensures n <= |s|
    ensures forall i :: 0 <= i < n ==> IsSpace(s[i])
    ensures n < |s| ==> !IsSpace(s[n])
    decreases |s|
  {
    if s != [] && IsSpace(s[0]) then 1 + LeadingSpaces(s[1..]) else 0
  }

  /** Number of trailing whitespace characters of `s`. */
  function TrailingSpaces(s: string): (n: nat)
    ensures n <= |s|
    ensures forall i :: |s| - n <= i < |s| ==> IsSpace(s[i])
    ensures n < |s| ==> !IsSpace(s[|s| - n - 1])
    decreases |s|
  {
    if s != [] && IsSpace(s[|s| - 1]) then 1 + TrailingSpaces(s[..|s| - 1]) else 0
  }

  /** `r` is `s` with only whitespace removed from either end, and neither
      starts nor ends with whitespace; it is empty exactly when `s` is all
      whitespace. */
  predicate TrimmedFrom(r: string, s: string) {
    && (exists i, j :: 0 <= i <= j <= |s| && r == s[i..j]
                       && (forall k :: 0 <= k < i ==> IsSpace(s[k]))
                       && (forall k :: j <= k < |s| ==> IsSpace(s[k])))
    && (r != [] ==> !IsSpace(r[0]) && !IsSpace(r[|r| - 1]))
    && (r == [] <==> forall k :: 0 <= k < |s| ==> IsSpace(s[k]))
  }

  /** `trim()`: the longest slice of `s` that neither starts nor ends with
      whitespace, obtained by removing only whitespace from either end. */
  function Trim(s: string): (r: string)
    ensures TrimmedFrom(r, s)
  {
    var t := s[LeadingSpaces(s)..];
    var r := t[..|t| - TrailingSpaces(t)];
    assert r == s[LeadingSpaces(s)..LeadingSpaces(s) + |r|];
    r
  }

  /** Trimming twice is trimming once. */
  lemma TrimIdempotent(s: string)
    ensures Trim(Trim(s)) == Trim(s)
  {
    var r := Trim(s);
    if r != [] {
      assert LeadingSpaces(r) == 0;
      assert TrailingSpaces(r) == 0;
    }
  }
}
