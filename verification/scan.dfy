/**
 The two C formatting routines the HTTP client depends on: `sscanf` with the status-line
 format, and the decimal conversions of `printf`.
 */
module Scan {
  import opened Bytes

  /** isspace in the C locale */
  predicate IsSpace(c: char) {
    c == ' ' || 9 <= c as int <= 13
  }

  /** The text behind leading white space. */
  function SkipSpace(s: string): (r: string)
    ensures |r| <= |s|
    ensures r != "" ==> !IsSpace(r[0])
  {
    if s != "" && IsSpace(s[0]) then SkipSpace(s[1..]) else s
  }

  /** The length of the run of bytes that are no white space. */
  function WordLength(s: string): (n: nat)
    ensures n <= |s|
    ensures s != "" && !IsSpace(s[0]) ==> n > 0
    ensures forall i :: 0 <= i < n ==> !IsSpace(s[i])
    ensures n < |s| ==> IsSpace(s[n])
  {
    if s != "" && !IsSpace(s[0]) then 1 + WordLength(s[1..]) else 0
  }

  function DigitsLength(s: string): (n: nat)
    ensures n <= |s|
    ensures forall i :: 0 <= i < n ==> IsDigit(s[i])
    ensures n < |s| ==> !IsDigit(s[n])
  {
    if s != "" && IsDigit(s[0]) then 1 + DigitsLength(s[1..]) else 0
  }

  /** The number a run of digits denotes. */
  function Value(s: string): nat
    requires forall i :: 0 <= i < |s| ==> IsDigit(s[i])
  {
    if s == "" then 0
    else
      assert IsDigit(s[|s| - 1]);
      Value(s[..|s| - 1]) * 10 + (s[|s| - 1] as int - '0' as int)
  }

  /** `%u`, `%zu` */
  function Decimal(n: nat): (s: string)
    ensures s != "" && forall i :: 0 <= i < |s| ==> IsDigit(s[i])
  {
    if n < 10 then [(n + 48) as char] else Decimal(n / 10) + [(n % 10 + 48) as char]
  }

  /** `%d` */
  function SignedDecimal(n: int): string {
    if n < 0 then "-" + Decimal(-n) else Decimal(n)
  }

  lemma {:induction false} ValueOfDecimal(n: nat)
    ensures Value(Decimal(n)) == n
  {
    if n >= 10 {
      ValueOfDecimal(n / 10);
      assert Decimal(n)[..|Decimal(n)| - 1] == Decimal(n / 10);
    } else {
      assert Decimal(n)[..0] == "";
    }
  }

  /** `%d` of sscanf, at the first byte that is no white space: the number and the rest. */
  function ScanInt(s: string): Option<(int, string)> {
    var signed := s != "" && (s[0] == '-' || s[0] == '+');
    var t := if signed then s[1..] else s;
    var n := DigitsLength(t);
    if n == 0 then None
    else
      var v: int := Value(t[..n]);
      Some((if signed && s[0] == '-' then -v else v, t[n..]))
  }

  /** A printed number in front of something else. */
  lemma DigitsThen(n: nat, rest: string)
    requires rest != "" ==> !IsDigit(rest[0])
    ensures var t := Decimal(n) + rest;
      var k := DigitsLength(t);
      && k == |Decimal(n)| > 0 && IsDigit(t[0])
      && Value(t[..k]) == n && t[k..] == rest
  {
    hide Value, Decimal, DigitsLength;
    var d, t := Decimal(n), Decimal(n) + rest;
    DigitsAre(t, |d|);
    assert t[..|d|] == d;
    ValueOfDecimal(n);
  }

  lemma ScanSigned(n: int, t: string, rest: string)
    requires var k := DigitsLength(t); k > 0 && Value(t[..k]) == -n && t[k..] == rest
    ensures ScanInt("-" + t) == Some((n, rest))
  {
    hide Value, DigitsLength;
    assert ("-" + t)[1..] == t;
  }

  lemma ScanOfDecimal(n: int, rest: string)
    requires rest != "" ==> !IsDigit(rest[0])
    ensures ScanInt(SignedDecimal(n) + rest) == Some((n, rest))
  {
    hide Value, Decimal, DigitsLength;
    if n < 0 {
      DigitsThen(-n, rest);
      ScanSigned(n, Decimal(-n) + rest, rest);
      assert SignedDecimal(n) + rest == "-" + (Decimal(-n) + rest);
    } else {
      DigitsThen(n, rest);
    }
  }

  lemma DigitsAre(s: string, n: nat)
    requires n <= |s| && (forall i :: 0 <= i < n ==> IsDigit(s[i])) && (n < |s| ==> !IsDigit(s[n]))
    ensures DigitsLength(s) == n
  {
  }

  lemma WordIs(s: string, n: nat)
    requires n <= |s| && (forall i :: 0 <= i < n ==> !IsSpace(s[i])) && (n < |s| ==> IsSpace(s[n]))
    ensures WordLength(s) == n
  {
  }

  /** What `sscanf(line, "HTTP/%s %d %s", version, &code, buf)` assigned. */
  datatype Preamble = Preamble(count: nat, version: string, code: int)

  /** `code` keeps its old value unless the second conversion succeeds. */
  function ScanPreamble(line: string, code: int): Preamble {
    var s := CStr(line);
    if !("HTTP/" <= s) then Preamble(0, "", code)
    else
      var t := SkipSpace(s[5..]);
      if t == "" then Preamble(0, "", code)
      else
        var version := t[..WordLength(t)];
        match ScanInt(SkipSpace(t[WordLength(t)..])) {
          case None => Preamble(1, version, code)
          case Some((n, rest)) => Preamble(if SkipSpace(rest) == "" then 2 else 3, version, n)
        }
  }

  /** White space by its codes. */
  predicate IsBlankCode(n: int) {
    n == 32 || 9 <= n <= 13
  }

  predicate Blank(s: string) {
    forall i :: 0 <= i < |s| ==> IsBlankCode(s[i] as int)
  }

  /** A nonempty token that sscanf reads as one word. */
  predicate IsWord(s: string) {
    s != "" && forall i :: 0 <= i < |s| ==> !IsBlankCode(s[i] as int) && s[i] as int != 0
  }

  lemma CStrBehind(a: string, b: string)
    requires '\0' !in a
    ensures CStr(a + b) == a + CStr(b)
  {
    IndexOfIs(a + b, '\0', |a| + IndexOf(b, '\0'));
  }

  lemma {:induction false} BlankThen(ws: string, u: string)
    requires Blank(ws) && (u != "" ==> !IsBlankCode(u[0] as int))
    ensures SkipSpace(ws + u) == u
  {
    if ws == "" {
      assert ws + u == u;
    } else {
      assert (ws + u)[1..] == ws[1..] + u;
      BlankThen(ws[1..], u);
    }
  }

  lemma WordThen(w: string, rest: string)
    requires IsWord(w) && (rest != "" ==> IsBlankCode(rest[0] as int))
    ensures var s := w + rest;
      WordLength(s) == |w| && s[..|w|] == w && s[|w|..] == rest
  {
    WordIs(w + rest, |w|);
  }

  lemma DecimalIsPrintable(n: int)
    ensures var d := SignedDecimal(n);
      && d != "" && '\0' !in d && !IsBlankCode(d[0] as int)
      && (forall i :: 0 <= i < |d| ==> d[i] == '-' || IsDigit(d[i]))
  {
  }

  function Pow10(k: nat): (r: nat)
    ensures r > 0
  {
    if k == 0 then 1 else 10 * Pow10(k - 1)
  }

  /** The digits by their codes: the one `k` places from the right counts `Pow10(k)`. */
  lemma {:induction false} DecimalByCode(n: nat, k: nat)
    requires k < |Decimal(n)|
    ensures Decimal(n)[|Decimal(n)| - 1 - k] as int == 48 + n / Pow10(k) % 10
  {
    if k > 0 {
      DecimalByCode(n / 10, k - 1);
      assert Decimal(n)[..|Decimal(n)| - 1] == Decimal(n / 10);
      assert Pow10(k) == 10 * Pow10(k - 1);
      DivTwice(n, Pow10(k - 1));
      hide Pow10, Decimal;
      assert Decimal(n)[|Decimal(n)| - 1 - k] == Decimal(n / 10)[|Decimal(n / 10)| - 1 - (k - 1)];
    }
  }

  /** There are enough digits, and a number but zero does not start with a zero. */
  lemma {:induction false} DecimalLength(n: nat)
    ensures n < Pow10(|Decimal(n)|)
    ensures n > 0 ==> Decimal(n)[0] as int != 48
  {
    if n >= 10 {
      DecimalLength(n / 10);
    }
  }

  lemma DivTwice(n: nat, p: nat)
    requires p > 0
    ensures n / 10 / p == n / (10 * p)
  {
    var q := n / 10 / p;
    assert n / 10 == p * q + n / 10 % p;
    assert n == 10 * (p * q + n / 10 % p) + n % 10;
    assert 10 * (p * q) == (10 * p) * q;
    var r := 10 * (n / 10 % p) + n % 10;
    assert r < 10 * p;
    DivIs(n, 10 * p, q, r);
  }

  lemma DivIs(n: nat, d: int, q: nat, r: nat)
    requires n == d * q + r && r < d
    ensures n / d == q
  {
    var e := n / d - q;
    assert d * (n / d) == d * q + d * e;
    assert e >= 1 ==> d * e >= d;
    assert e <= -1 ==> d * e <= -d;
  }

  // ---------- what a status line yields ----------

  /** The text behind `HTTP/`: its first word, and what is behind the white space there. */
  lemma ScanWord(ws0: string, version: string, ws1: string, u: string, before: int)
    requires Blank(ws0) && IsWord(version) && Blank(ws1)
    requires (u != "" ==> !IsBlankCode(u[0] as int) && ws1 != "") && '\0' !in u
    ensures ScanPreamble("HTTP/" + (ws0 + (version + (ws1 + u))), before) ==
      match ScanInt(u)
      case None => Preamble(1, version, before)
      case Some((n, rest)) => Preamble(if SkipSpace(rest) == "" then 2 else 3, version, n)
  {
    var line := "HTTP/" + (ws0 + (version + (ws1 + u)));
    NoNul(ws0, version, ws1, u);
    assert CStr(line) == line && line[5..] == ws0 + (version + (ws1 + u));
    hide CStr, ScanInt, SkipSpace;
    BlankThen(ws0, version + (ws1 + u));
    WordThen(version, ws1 + u);
    BlankThen(ws1, u);
  }

  lemma NoNul(ws0: string, version: string, ws1: string, u: string)
    requires Blank(ws0) && IsWord(version) && Blank(ws1) && '\0' !in u
    ensures '\0' !in "HTTP/" + (ws0 + (version + (ws1 + u)))
  {
  }

  /** A status line with any white space is read back; of the reason phrase only the presence counts, and
      it may follow the code at once if it does not start with a digit. */
  lemma ScanSpaced(ws0: string, version: string, ws1: string, n: int, ws2: string, reason: string, before: int)
    requires Blank(ws0) && IsWord(version) && Blank(ws1) && ws1 != "" && Blank(ws2) && '\0' !in reason
    requires reason != "" ==> !IsBlankCode(reason[0] as int) && (ws2 == "" ==> !IsDigit(reason[0]))
    ensures ScanPreamble("HTTP/" + (ws0 + (version + (ws1 + (SignedDecimal(n) + (ws2 + reason))))), before)
         == Preamble(if reason == "" then 2 else 3, version, n)
  {
    var code, rest := SignedDecimal(n), ws2 + reason;
    DecimalIsPrintable(n);
    assert '\0' !in code + rest;
    hide SignedDecimal, ScanInt, SkipSpace, IsDigit, CStr;
    ScanWord(ws0, version, ws1, code + rest, before);
    BlankIsNoDigit(ws2);
    ScanOfDecimal(n, rest);
    BlankThen(ws2, reason);
  }

  lemma BlankIsNoDigit(ws: string)
    requires Blank(ws)
    ensures ws != "" ==> !IsDigit(ws[0])
  {
  }

  /** A printed status line is read back, also if its reason holds a NUL later on. */
  lemma ScanPrinted(version: string, n: int, reason: string, before: int)
    requires IsWord(version)
    requires reason != "" && !IsBlankCode(reason[0] as int) && reason[0] as int != 0
    ensures ScanPreamble("HTTP/" + version + " " + SignedDecimal(n) + " " + reason, before) == Preamble(3, version, n)
  {
    var code, cut := SignedDecimal(n), CStr(reason);
    DecimalIsPrintable(n);
    assert '\0' !in "HTTP/" + version + " " + code + " ";
    hide SignedDecimal, ScanPreamble, IsWord, CStr;
    CStrBehind("HTTP/" + version + " " + code + " ", reason);
    CStrOfCStr("HTTP/" + version + " " + code + " " + reason, before);
    assert cut != "" && cut[0] == reason[0];
    Spelled(version, code, cut);
    ScanSpaced("", version, " ", n, " ", cut, before);
  }

  lemma Spelled(version: string, code: string, rest: string)
    ensures "HTTP/" + version + " " + code + " " + rest
         == "HTTP/" + ("" + (version + (" " + (code + (" " + rest)))))
  {
  }

  lemma CStrOfCStr(line: string, before: int)
    ensures ScanPreamble(CStr(line), before) == ScanPreamble(line, before)
  {
  }

  /** Without a number where the code should be, only the version is read. */
  lemma ScanNoCode(ws0: string, version: string, ws1: string, u: string, before: int)
    requires Blank(ws0) && IsWord(version) && Blank(ws1) && '\0' !in u
    requires u != "" ==> ws1 != "" && !IsBlankCode(u[0] as int) && !IsDigit(u[0])
    requires u != "" && (u[0] == '-' || u[0] == '+') ==> |u| == 1 || !IsDigit(u[1])
    ensures ScanPreamble("HTTP/" + (ws0 + (version + (ws1 + u))), before) == Preamble(1, version, before)
  {
    ScanWord(ws0, version, ws1, u, before);
  }

  /** Nothing is read of any other line. */
  lemma ScanNothing(line: string, before: int)
    requires !("HTTP/" <= line) || Blank(line[5..])
    ensures ScanPreamble(line, before) == Preamble(0, "", before)
  {
    if "HTTP/" <= line {
      BlankThen(line[5..], "");
      assert line[5..] + "" == line[5..];
      assert line == "HTTP/" + line[5..];
      assert CStr(line) == line;
    }
  }

  /** A plus sign is read over. */
  lemma ScanPlus(n: nat, rest: string)
    requires rest != "" ==> !IsDigit(rest[0])
    ensures ScanInt("+" + (Decimal(n) + rest)) == Some((n, rest))
  {
    hide Value, Decimal, DigitsLength;
    DigitsThen(n, rest);
    assert ("+" + (Decimal(n) + rest))[1..] == Decimal(n) + rest;
  }
}
