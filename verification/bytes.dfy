/**
 The searches that the library borrows from the C++ standard library.
 A byte is a `char` and a buffer is a `string`.  The position one past the last byte
 stands both for `end()` and for `npos`.
 */
module Bytes {

  const CRLF: string := "\r\n"

  datatype Option<+T> = None | Some(value: T)

  /** std::find: the first position of `c`, or the end. */
  function IndexOf(s: string, c: char): (r: nat)
    ensures r <= |s|
    ensures r < |s| ==> s[r] == c
    ensures forall i :: 0 <= i < r ==> s[i] != c
  {
    if s == "" then 0 else if s[0] == c then 0 else 1 + IndexOf(s[1..], c)
  }

  /** std::find from a position on. */
  function IndexFrom(s: string, c: char, pos: nat): (r: nat)
    requires pos <= |s|
    ensures pos <= r <= |s|
    ensures r < |s| ==> s[r] == c
    ensures forall i :: pos <= i < r ==> s[i] != c
  {
    pos + IndexOf(s[pos..], c)
  }

  /** The contract of `IndexOf` has one solution. */
  lemma IndexOfIs(s: string, c: char, r: nat)
    requires r <= |s|
    requires r < |s| ==> s[r] == c
    requires forall i :: 0 <= i < r ==> s[i] != c
    ensures IndexOf(s, c) == r
  {
  }

  /** Does `pat` stand in `s` at position `i`? */
  predicate MatchesAt(s: string, pat: string, i: nat) {
    i + |pat| <= |s| && s[i..i + |pat|] == pat
  }

  ghost predicate Contains(s: string, pat: string) {
    exists i :: 0 <= i <= |s| && MatchesAt(s, pat, i)
  }

  /** std::search and string::find: the first match of a nonempty `pat`, or the end. */
  function Search(s: string, pat: string): (r: nat)
    requires pat != ""
    ensures r <= |s|
    ensures r < |s| ==> MatchesAt(s, pat, r)
    ensures forall i :: 0 <= i < r ==> !MatchesAt(s, pat, i)
    ensures r == |s| ==> !Contains(s, pat)
  {
    if s == "" then 0
    else if MatchesAt(s, pat, 0) then 0
    else
      var r := Search(s[1..], pat);
      assert forall i :: 0 < i <= |s| && MatchesAt(s, pat, i) ==> MatchesAt(s[1..], pat, i - 1);
      assert r + 1 < |s| ==> MatchesAt(s, pat, r + 1);
      r + 1
  }

  /** The contract of `Search` has one solution. */
  lemma SearchIs(s: string, pat: string, r: nat)
    requires pat != ""
    requires r <= |s|
    requires r < |s| ==> MatchesAt(s, pat, r)
    requires forall i :: 0 <= i < r ==> !MatchesAt(s, pat, i)
    ensures Search(s, pat) == r
  {
  }

  /** string::find of a nonempty `pat` from a position on. */
  function SearchFrom(s: string, pat: string, pos: nat): (r: nat)
    requires pat != "" && pos <= |s|
    ensures pos <= r <= |s|
    ensures r < |s| ==> MatchesAt(s, pat, r)
  {
    var r := pos + Search(s[pos..], pat);
    assert r < |s| ==> s[pos..][r - pos..r - pos + |pat|] == s[r..r + |pat|];
    r
  }

  /** A line without CRLF is found again in front of the CRLF that ends it. */
  lemma SearchLine(line: string, rest: string)
    requires !Contains(line, CRLF)
    ensures Search(line + CRLF + rest, CRLF) == |line|
  {
    var s := line + CRLF + rest;
    forall i | 0 <= i < |line| ensures !MatchesAt(s, CRLF, i) {
      if i + 1 < |line| {
        assert !MatchesAt(line, CRLF, i);
        assert s[i..i + 2] == line[i..i + 2];
      } else {
        assert s[i..i + 2][1] == '\r';
      }
    }
    assert s[|line|..|line| + 2] == CRLF;
    SearchIs(s, CRLF, |line|);
  }

  predicate IsDigit(c: char) {
    '0' <= c <= '9'
  }

  /** ASCII lower case, as `tolower` gives it in the C locale. */
  function ToLower(c: char): char {
    if 'A' <= c <= 'Z' then (c as int + 32) as char else c
  }

  function Lower(s: string): (r: string)
    ensures |r| == |s|
  {
    seq(|s|, i requires 0 <= i < |s| => ToLower(s[i]))
  }

  /** The byte `c` and its lower-case form `l`, by their codes. */
  predicate FoldsTo(c: char, l: char) {
    l as int == c as int + (if 65 <= c as int <= 90 then 32 else 0)
  }

  /** `r` is `s` with its letters in lower case. */
  predicate IsFolded(s: string, r: string) {
    |r| == |s| && forall i :: 0 <= i < |s| ==> FoldsTo(s[i], r[i])
  }

  lemma LowerIsFolded(s: string, r: string)
    ensures Lower(s) == r <==> IsFolded(s, r)
  {
    var l := Lower(s);
    if IsFolded(s, r) {
      assert forall i :: 0 <= i < |s| ==> FoldsTo(s[i], l[i]) && FoldsTo(s[i], r[i]);
    }
  }

  /** Equal but for the case of ASCII letters. */
  predicate SameButCase(a: string, b: string) {
    |a| == |b| && forall i :: 0 <= i < |a| ==>
      a[i] == b[i] || (IsLetter(a[i]) && IsLetter(b[i]) && (a[i] as int - b[i] as int == 32 || b[i] as int - a[i] as int == 32))
  }

  predicate IsLetter(c: char) {
    65 <= c as int <= 90 || 97 <= c as int <= 122
  }

  lemma LowerSameButCase(a: string, b: string)
    ensures Lower(a) == Lower(b) <==> SameButCase(a, b)
  {
    var x, y := Lower(a), Lower(b);
    if SameButCase(a, b) {
      assert forall i :: 0 <= i < |a| ==> x[i] == y[i];
    }
    if x == y {
      assert forall i :: 0 <= i < |a| ==> ToLower(a[i]) == x[i] && ToLower(b[i]) == y[i];
    }
  }

  /** What a C function sees of a string: everything before the first NUL. */
  function CStr(s: string): (r: string)
    ensures r <= s
    ensures forall i :: 0 <= i < |r| ==> r[i] as int != 0
    ensures |r| < |s| ==> s[|r|] as int == 0
    ensures '\0' !in s ==> r == s
  {
    s[..IndexOf(s, '\0')]
  }
}
