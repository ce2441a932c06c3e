/**
 The hand-written URI parser of src/uri.cpp.

 `Parts` is the syntax tree of an accepted string, with an Option for every part that may be
 missing together with its delimiter.  Splitting and printing are inverse to each other; the
 class `Uri` is what the library keeps of the parts.
 */
module Uri {
  import opened Bytes

  const SCHEME_END: string := "://"

  datatype Login = Login(user: string, password: Option<string>)
  datatype Query = Query(text: string, fragment: Option<string>)
  datatype Tail = Tail(path: string, query: Option<Query>)
  datatype Parts = Parts(scheme: Option<string>, login: Option<Login>, host: string,
                         port: Option<string>, tail: Option<Tail>)

  // ---------- splitting: the searches in the order of the code ----------

  /** Text in front of the first `c`, and the text behind it if there is one. */
  function SplitAt(s: string, c: char): (string, Option<string>) {
    var i := IndexOf(s, c);
    (s[..i], if i == |s| then None else Some(s[i + 1..]))
  }

  function SplitLogin(s: string): Login {
    var (user, password) := SplitAt(s, ':');
    Login(user, password)
  }

  function SplitQuery(s: string): Query {
    var (text, fragment) := SplitAt(s, '#');
    Query(text, fragment)
  }

  function SplitTail(s: string): Tail {
    var (path, query) := SplitAt(s, '?');
    Tail(path, if query.None? then None else Some(SplitQuery(query.value)))
  }

  /** Host, port and path, behind the login. */
  function SplitSite(scheme: Option<string>, login: Option<Login>, s: string): (p: Parts)
    ensures p.scheme == scheme && p.login == login
  {
    var (site, tail) := SplitAt(s, '/');
    var (host, port) := SplitAt(site, ':');
    Parts(scheme, login, host, port, if tail.None? then None else Some(SplitTail(tail.value)))
  }

  /** Everything behind the scheme. */
  function SplitBody(scheme: Option<string>, s: string): (p: Parts)
    ensures p.scheme == scheme
  {
    var i := IndexOf(s, '@');
    if i == |s| then SplitSite(scheme, None, s)
    else SplitSite(scheme, Some(SplitLogin(s[..i])), s[i + 1..])
  }

  function Split(s: string): Parts {
    var i := Search(s, SCHEME_END);
    if i == |s| then SplitBody(None, s) else SplitBody(Some(s[..i]), s[i + 3..])
  }

  // ---------- printing ----------

  function PrintPair(first: string, c: char, second: Option<string>): string {
    first + (if second.None? then "" else [c] + second.value)
  }

  function PrintTail(t: Tail): string {
    PrintPair(t.path, '?',
              if t.query.None? then None
              else Some(PrintPair(t.query.value.text, '#', t.query.value.fragment)))
  }

  function PrintSite(p: Parts): string {
    PrintPair(PrintPair(p.host, ':', p.port), '/', if p.tail.None? then None else Some(PrintTail(p.tail.value)))
  }

  function PrintBody(p: Parts): string {
    (if p.login.None? then "" else PrintPair(p.login.value.user, ':', p.login.value.password) + "@")
    + PrintSite(p)
  }

  function Print(p: Parts): string {
    (if p.scheme.None? then "" else p.scheme.value + SCHEME_END) + PrintBody(p)
  }

  /** No part holds the delimiter that ends it. */
  ghost predicate WellFormed(p: Parts) {
    && !Contains(if p.scheme.None? then PrintBody(p) else p.scheme.value, SCHEME_END)
    && (p.login.None? ==> '@' !in PrintSite(p))
    && (p.login.Some? ==>
          && ':' !in p.login.value.user
          && '@' !in PrintPair(p.login.value.user, ':', p.login.value.password))
    && ':' !in p.host
    && '/' !in PrintPair(p.host, ':', p.port)
    && (p.tail.Some? ==>
          && '?' !in p.tail.value.path
          && (p.tail.value.query.Some? ==> '#' !in p.tail.value.query.value.text))
  }

  // ---------- the two are inverse ----------

  lemma SplitAtPrint(s: string, c: char)
    ensures var (a, b) := SplitAt(s, c); PrintPair(a, c, b) == s && c !in a
  {
  }

  lemma PrintSplitAt(a: string, c: char, b: Option<string>)
    requires c !in a
    ensures SplitAt(PrintPair(a, c, b), c) == (a, b)
  {
    var s := PrintPair(a, c, b);
    IndexOfIs(s, c, |a|);
    assert s[..|a|] == a;
    assert b.Some? ==> s[|a| + 1..] == b.value;
  }

  lemma PrintOfSplitTail(s: string)
    ensures PrintTail(SplitTail(s)) == s
    ensures var t := SplitTail(s);
      '?' !in t.path && (t.query.Some? ==> '#' !in t.query.value.text)
  {
    SplitAtPrint(s, '?');
    var query := SplitAt(s, '?').1;
    if query.Some? {
      SplitAtPrint(query.value, '#');
    }
  }

  lemma PrintOfSplitSite(scheme: Option<string>, login: Option<Login>, s: string)
    ensures var p := SplitSite(scheme, login, s);
      && PrintSite(p) == s
      && p.scheme == scheme && p.login == login
      && ':' !in p.host
      && '/' !in PrintPair(p.host, ':', p.port)
      && (p.tail.Some? ==>
            && '?' !in p.tail.value.path
            && (p.tail.value.query.Some? ==> '#' !in p.tail.value.query.value.text))
  {
    hide SplitAt, PrintPair, PrintTail, SplitTail;
    var (site, tail) := SplitAt(s, '/');
    SplitAtPrint(s, '/');
    SplitAtPrint(site, ':');
    if tail.Some? {
      PrintOfSplitTail(tail.value);
    }
  }

  lemma PrintOfSplitBody(scheme: Option<string>, s: string)
    ensures var p := SplitBody(scheme, s);
      PrintBody(p) == s && p.scheme == scheme
      && (WellFormed(p) <==> !Contains(if scheme.None? then s else scheme.value, SCHEME_END))
  {
    hide SplitSite, PrintSite, PrintPair, SplitAt, Contains;
    var j := IndexOf(s, '@');
    if j == |s| {
      PrintOfSplitSite(scheme, None, s);
      assert "" + s == s;
    } else {
      var login := SplitLogin(s[..j]);
      SplitAtPrint(s[..j], ':');
      PrintOfSplitSite(scheme, Some(login), s[j + 1..]);
      assert s == s[..j] + "@" + s[j + 1..];
    }
  }

  /** Nothing of a string is lost or moved, and no part holds the delimiter that ends it. */
  lemma PrintOfSplit(s: string)
    ensures Print(Split(s)) == s
    ensures WellFormed(Split(s))
  {
    var i := Search(s, SCHEME_END);
    assert i < |s| ==> i + 3 <= |s|;
    hide SplitBody, PrintBody, WellFormed, Contains, MatchesAt;
    if i == |s| {
      PrintOfSplitBody(None, s);
      assert "" + s == s;
    } else {
      NoMatchBefore(s, i);
      PrintOfSplitBody(Some(s[..i]), s[i + 3..]);
      SchemeSplit(s, i);
    }
  }

  lemma SchemeSplit(s: string, i: nat)
    requires MatchesAt(s, SCHEME_END, i)
    ensures s == s[..i] + SCHEME_END + s[i + 3..]
  {
    assert s == s[..i] + s[i..i + 3] + s[i + 3..];
  }

  lemma NoMatchBefore(s: string, i: nat)
    requires i <= |s| && forall k :: 0 <= k < i ==> !MatchesAt(s, SCHEME_END, k)
    ensures !Contains(s[..i], SCHEME_END)
  {
    forall k | 0 <= k <= i ensures !MatchesAt(s[..i], SCHEME_END, k) {
      if k + 3 <= i {
        assert s[..i][k..k + 3] == s[k..k + 3];
        assert !MatchesAt(s, SCHEME_END, k);
      }
    }
  }

  lemma SplitOfPrintTail(t: Tail)
    requires '?' !in t.path
    requires t.query.Some? ==> '#' !in t.query.value.text
    ensures SplitTail(PrintTail(t)) == t
  {
    hide SplitAt, PrintPair;
    if t.query.None? {
      PrintSplitAt(t.path, '?', None);
    } else {
      var q := t.query.value;
      PrintSplitAt(q.text, '#', q.fragment);
      PrintSplitAt(t.path, '?', Some(PrintPair(q.text, '#', q.fragment)));
    }
  }

  lemma SplitOfPrintSite(p: Parts)
    requires WellFormed(p)
    ensures SplitSite(p.scheme, p.login, PrintSite(p)) == p
  {
    hide SplitAt, PrintPair, SplitTail, PrintTail, Contains, PrintBody;
    PrintSplitAt(p.host, ':', p.port);
    if p.tail.None? {
      PrintSplitAt(PrintPair(p.host, ':', p.port), '/', None);
    } else {
      SplitOfPrintTail(p.tail.value);
      PrintSplitAt(PrintPair(p.host, ':', p.port), '/', Some(PrintTail(p.tail.value)));
    }
  }

  lemma SplitOfPrintBody(p: Parts)
    requires WellFormed(p)
    ensures SplitBody(p.scheme, PrintBody(p)) == p
  {
    hide SplitSite, PrintSite, Contains, PrintPair, SplitAt;
    SplitOfPrintSite(p);
    var site := PrintSite(p);
    if p.login.None? {
      assert PrintBody(p) == site;
      IndexOfIs(site, '@', |site|);
    } else {
      var l := p.login.value;
      var text := PrintPair(l.user, ':', l.password);
      assert PrintBody(p) == text + "@" + site;
      IndexOfIs(text + "@" + site, '@', |text|);
      assert (text + "@" + site)[..|text|] == text;
      assert (text + "@" + site)[|text| + 1..] == site;
      PrintSplitAt(l.user, ':', l.password);
    }
  }

  /** The first `://` behind a scheme without one is its end. */
  lemma SchemeEnds(scheme: string, body: string)
    requires !Contains(scheme, SCHEME_END)
    ensures Search(scheme + SCHEME_END + body, SCHEME_END) == |scheme|
  {
    var s := scheme + SCHEME_END + body;
    forall i | 0 <= i < |scheme| ensures !MatchesAt(s, SCHEME_END, i) {
      if i + 3 <= |scheme| {
        assert !MatchesAt(scheme, SCHEME_END, i);
        assert s[i..i + 3] == scheme[i..i + 3];
      } else if i + 2 == |scheme| {
        assert s[i..i + 3][2] == s[|scheme|] == ':';
      } else {
        assert s[i..i + 3][1] == s[|scheme|] == ':';
      }
    }
    assert s[|scheme|..|scheme| + 3] == SCHEME_END;
    SearchIs(s, SCHEME_END, |scheme|);
  }

  /** Every well-formed tree is recovered from its text. */
  lemma SplitOfPrint(p: Parts)
    requires WellFormed(p)
    ensures Split(Print(p)) == p
  {
    hide SplitBody, PrintBody;
    SplitOfPrintBody(p);
    if p.scheme.None? {
      assert Print(p) == PrintBody(p) by { assert "" + PrintBody(p) == PrintBody(p); }
      NotFound(PrintBody(p));
    } else {
      var scheme, body := p.scheme.value, PrintBody(p);
      SchemeEnds(scheme, body);
      assert Print(p)[..|scheme|] == scheme;
      assert Print(p)[|scheme| + 3..] == body;
    }
  }

  lemma NotFound(s: string)
    requires !Contains(s, SCHEME_END)
    ensures Search(s, SCHEME_END) == |s|
  {
    SearchIs(s, SCHEME_END, |s|);
  }

  // ---------- what the library keeps ----------

  datatype Fields = Fields(scheme: string, user: string, password: string, host: string,
                           port: string, path: string, query: string, fragment: string)

  const NO_FIELDS := Fields("", "", "", "", "", "", "", "")

  /** `parse` returns true. */
  predicate Accepts(s: string, defaultScheme: string) {
    s != "" && (Search(s, SCHEME_END) < |s| || defaultScheme != "")
  }

  /** The accessors: scheme and host in lower case, the password with its colon, the path
      without its slash, the fragment with its hash. */
  function Keep(p: Parts, defaultScheme: string): Fields {
    Fields(
      if p.scheme.None? then defaultScheme else Lower(p.scheme.value),
      if p.login.None? then "" else p.login.value.user,
      if p.login.None? || p.login.value.password.None? then "" else ":" + p.login.value.password.value,
      Lower(p.host),
      if p.port.None? then "" else p.port.value,
      if p.tail.None? then "" else p.tail.value.path,
      if p.tail.None? || p.tail.value.query.None? then "" else p.tail.value.query.value.text,
      if p.tail.None? || p.tail.value.query.None? || p.tail.value.query.value.fragment.None? then ""
      else "#" + p.tail.value.query.value.fragment.value)
  }

  /** The text a tree stands for, rebuilt from what the library keeps, the unchanged scheme and
      host, and the knowledge of which delimiters were there. */
  function Rebuild(p: Parts, f: Fields, scheme: string, host: string): string {
    (if p.scheme.Some? then scheme + "://" else "") + RebuildBody(p, f, host)
  }

  function RebuildBody(p: Parts, f: Fields, host: string): string {
    (if p.login.Some? then f.user + f.password + "@" else "")
    + ((host + (if p.port.Some? then ":" + f.port else ""))
       + (if p.tail.Some? then "/" + RebuildTail(p.tail.value, f) else ""))
  }

  function RebuildTail(t: Tail, f: Fields): string {
    f.path + (if t.query.Some? then "?" + (f.query + f.fragment) else "")
  }

  /** Parsing is lossless: the kept fields give the input back up to the case of scheme and host, and
      each field ends where its delimiter is. */
  lemma KeepIsLossless(s: string, defaultScheme: string)
    requires Accepts(s, defaultScheme)
    ensures var p, f := Split(s), Keep(Split(s), defaultScheme);
      exists scheme: string, host: string ::
        && s == Rebuild(p, f, scheme, host)
        && IsFolded(host, f.host)
        && (if p.scheme.Some? then IsFolded(scheme, f.scheme) else f.scheme == defaultScheme)
    ensures var f := Keep(Split(s), defaultScheme);
      && ':' !in f.user && (f.password == "" || f.password[0] == ':') && ':' !in f.host
      && '?' !in f.path && '#' !in f.query && (f.fragment == "" || f.fragment[0] == '#')
    ensures var p, f := Split(s), Keep(Split(s), defaultScheme);
      && (p.login.None? ==> f.user == f.password == "")
      && (p.port.None? ==> f.port == "")
      && (p.tail.None? ==> f.path == "")
      && (p.tail.None? || p.tail.value.query.None? ==> f.query == f.fragment == "")
  {
    PrintOfSplit(s);
    var p, f := Split(s), Keep(Split(s), defaultScheme);
    var scheme := if p.scheme.Some? then p.scheme.value else "";
    LowerIsFolded(p.host, f.host);
    LowerIsFolded(scheme, f.scheme);
    FoldedFree(p.host, f.host, ':');
    hide Split, WellFormed, Accepts, Lower, IsFolded;
    if p.tail.Some? {
      RebuildsTail(p.tail.value, f);
    }
    if p.login.Some? {
      assert PrintPair(p.login.value.user, ':', p.login.value.password) == f.user + f.password;
    }
    assert s == Rebuild(p, f, scheme, p.host);
  }

  lemma FoldedFree(s: string, r: string, c: char)
    requires IsFolded(s, r) && c !in s && !IsLetter(c)
    ensures c !in r
  {
    forall i | 0 <= i < |r| ensures r[i] != c {
      assert FoldsTo(s[i], r[i]) && s[i] != c;
    }
  }

  /** `parse` accepts the nonempty strings that have a scheme or get one. */
  lemma AcceptsIff(s: string, defaultScheme: string)
    ensures Accepts(s, defaultScheme) <==> s != "" && (defaultScheme != "" || Contains(s, "://"))
  {
    var i := Search(s, SCHEME_END);
    assert i < |s| ==> MatchesAt(s, "://", i);
  }

  /** No upper-case letter is kept in the host, nor in a scheme that the string has. */
  lemma KeptInLowerCase(s: string, defaultScheme: string)
    requires Accepts(s, defaultScheme)
    ensures var f := Keep(Split(s), defaultScheme);
      && (forall i :: 0 <= i < |f.host| ==> !(65 <= f.host[i] as int <= 90))
      && (Contains(s, "://") ==> forall i :: 0 <= i < |f.scheme| ==> !(65 <= f.scheme[i] as int <= 90))
  {
    var p, f := Split(s), Keep(Split(s), defaultScheme);
    LowerIsFolded(p.host, f.host);
    assert forall i :: 0 <= i < |f.host| ==> FoldsTo(p.host[i], f.host[i]);
    if p.scheme.Some? {
      LowerIsFolded(p.scheme.value, f.scheme);
      assert forall i :: 0 <= i < |f.scheme| ==> FoldsTo(p.scheme.value[i], f.scheme[i]);
    }
  }

  // ---------- case does not matter in scheme and host ----------

  predicate SameOption(a: Option<string>, b: Option<string>) {
    a.Some? == b.Some? && (a.Some? ==> SameButCase(a.value, b.value))
  }

  predicate SameQuery(a: Query, b: Query) {
    SameButCase(a.text, b.text) && SameOption(a.fragment, b.fragment)
  }

  predicate SameTail(a: Tail, b: Tail) {
    SameButCase(a.path, b.path) && a.query.Some? == b.query.Some?
    && (a.query.Some? ==> SameQuery(a.query.value, b.query.value))
  }

  /** Two trees of the same shape whose texts differ in the case of letters only. */
  predicate SameParts(p: Parts, q: Parts) {
    && SameOption(p.scheme, q.scheme)
    && p.login.Some? == q.login.Some?
    && (p.login.Some? ==>
          SameButCase(p.login.value.user, q.login.value.user)
          && SameOption(p.login.value.password, q.login.value.password))
    && SameButCase(p.host, q.host)
    && SameOption(p.port, q.port)
    && p.tail.Some? == q.tail.Some?
    && (p.tail.Some? ==> SameTail(p.tail.value, q.tail.value))
  }

  lemma SameIndex(a: string, b: string, c: char)
    requires SameButCase(a, b) && !IsLetter(c)
    ensures IndexOf(a, c) == IndexOf(b, c)
  {
    IndexOfIs(b, c, IndexOf(a, c));
  }

  lemma SameSplitAt(a: string, b: string, c: char)
    requires SameButCase(a, b) && !IsLetter(c)
    ensures SameButCase(SplitAt(a, c).0, SplitAt(b, c).0) && SameOption(SplitAt(a, c).1, SplitAt(b, c).1)
  {
    SameIndex(a, b, c);
  }

  lemma SameSplitTail(a: string, b: string)
    requires SameButCase(a, b)
    ensures SameTail(SplitTail(a), SplitTail(b))
  {
    hide SplitAt, SameButCase;
    SameSplitAt(a, b, '?');
    var query := SplitAt(a, '?').1;
    if query.Some? {
      SameSplitAt(query.value, SplitAt(b, '?').1.value, '#');
    }
  }

  lemma SameSplitSite(p: Parts, q: Parts, a: string, b: string)
    requires SameParts(p, q) && SameButCase(a, b)
    ensures SameParts(SplitSite(p.scheme, p.login, a), SplitSite(q.scheme, q.login, b))
  {
    hide SplitAt, SameButCase, SplitTail, SameTail;
    SameSplitAt(a, b, '/');
    var (site, tail) := SplitAt(a, '/');
    SameSplitAt(site, SplitAt(b, '/').0, ':');
    if tail.Some? {
      SameSplitTail(tail.value, SplitAt(b, '/').1.value);
    }
  }

  lemma SameSplitBody(p: Option<string>, q: Option<string>, a: string, b: string)
    requires SameOption(p, q) && SameButCase(a, b)
    ensures SameParts(SplitBody(p, a), SplitBody(q, b))
  {
    SameIndex(a, b, '@');
    var i := IndexOf(a, '@');
    assert SameButCase(a[..i], b[..i]);
    assert i < |a| ==> SameButCase(a[i + 1..], b[i + 1..]);
    hide SplitSite, SplitAt, SameButCase;
    if i == |a| {
      SameSplitSite(Parts(p, None, a[..i], None, None), Parts(q, None, b[..i], None, None), a, b);
    } else {
      SameSplitAt(a[..i], b[..i], ':');
      SameSplitSite(Parts(p, Some(SplitLogin(a[..i])), a[..i], None, None),
                    Parts(q, Some(SplitLogin(b[..i])), b[..i], None, None), a[i + 1..], b[i + 1..]);
    }
  }

  lemma SameSearch(a: string, b: string)
    requires SameButCase(a, b)
    ensures Search(a, SCHEME_END) == Search(b, SCHEME_END)
  {
    forall i | 0 <= i <= |a| ensures MatchesAt(a, SCHEME_END, i) <==> MatchesAt(b, SCHEME_END, i) {
      SameMatch(a, b, i);
    }
    SearchIs(b, SCHEME_END, Search(a, SCHEME_END));
  }

  lemma SameMatch(a: string, b: string, i: nat)
    requires SameButCase(a, b)
    ensures MatchesAt(a, SCHEME_END, i) <==> MatchesAt(b, SCHEME_END, i)
  {
    MatchIs(a, i);
    MatchIs(b, i);
    hide MatchesAt;
  }

  lemma MatchIs(s: string, i: nat)
    ensures MatchesAt(s, SCHEME_END, i) <==> i + 3 <= |s| && s[i] == ':' && s[i + 1] == '/' && s[i + 2] == '/'
  {
    if i + 3 <= |s| {
      assert s[i..i + 3] == [s[i], s[i + 1], s[i + 2]];
    }
  }

  lemma SameSlices(s: string, t: string, i: nat)
    requires SameButCase(s, t) && i + 3 <= |s|
    ensures |s| == |t| && SameButCase(s[..i], t[..i]) && SameButCase(s[i + 3..], t[i + 3..])
  {
  }

  /** Two strings that differ in the case of letters only are split at the same places. */
  lemma SameSplit(s: string, t: string)
    requires SameButCase(s, t)
    ensures SameParts(Split(s), Split(t))
  {
    SameSearch(s, t);
    var i := Search(s, SCHEME_END);
    hide SplitBody, Search, SameParts, SameButCase, MatchesAt;
    if i == |s| {
      SameSplitBody(None, None, s, t);
    } else {
      MatchIs(s, i);
      SameSlices(s, t, i);
      SameSplitBody(Some(s[..i]), Some(t[..i]), s[i + 3..], t[i + 3..]);
    }
  }

  /** They keep the same scheme and host; if they differ in scheme and host only, they keep the same
      fields. */
  lemma CaseDoesNotMatter(s: string, t: string, defaultScheme: string)
    requires SameButCase(s, t)
    ensures Accepts(s, defaultScheme) <==> Accepts(t, defaultScheme)
    ensures var p, q := Split(s), Split(t);
      var f, g := Keep(p, defaultScheme), Keep(q, defaultScheme);
      && f.scheme == g.scheme && f.host == g.host
      && (p.login == q.login && p.port == q.port && p.tail == q.tail ==> f == g)
  {
    SameSplit(s, t);
    SameSearch(s, t);
    var p, q := Split(s), Split(t);
    hide Split, Lower, SameButCase, Search;
    LowerSameButCase(p.host, q.host);
    if p.scheme.Some? {
      LowerSameButCase(p.scheme.value, q.scheme.value);
    }
  }

  lemma RebuildsTail(t: Tail, f: Fields)
    requires f.path == t.path
    requires t.query.Some? ==> f.query == t.query.value.text
    requires t.query.Some? ==>
      var h := t.query.value.fragment; f.fragment == if h.None? then "" else "#" + h.value
    ensures RebuildTail(t, f) == PrintTail(t)
  {
  }

  /** A string without `://` under a lower-case default scheme parses like the same string with
      that scheme written out; under any other default scheme it does not. */
  lemma DefaultScheme(u: string, defaultScheme: string)
    requires u != "" && defaultScheme != ""
    requires !Contains(u, SCHEME_END) && !Contains(defaultScheme, SCHEME_END)
    ensures var spelled := defaultScheme + SCHEME_END + u;
      && Accepts(u, defaultScheme) && Accepts(spelled, defaultScheme)
      && (Keep(Split(u), defaultScheme) == Keep(Split(spelled), defaultScheme)
          <==> Lower(defaultScheme) == defaultScheme)
  {
    var spelled := defaultScheme + SCHEME_END + u;
    SchemeEnds(defaultScheme, u);
    NotFound(u);
    assert spelled[..|defaultScheme|] == defaultScheme && spelled[|defaultScheme| + 3..] == u;
    assert Split(u) == SplitBody(None, u);
    assert Split(spelled) == SplitBody(Some(defaultScheme), u);
    assert Split(spelled) == Split(u).(scheme := Some(defaultScheme));
  }

  /** uri::full_path: a `?` and a `#` are put in front of a nonempty query and fragment, although
      the fragment already starts with its `#`. */
  function FullPath(f: Fields): string {
    f.path + (if f.query != "" then "?" + f.query else "") + (if f.fragment != "" then "#" + f.fragment else "")
  }

  /** `full_path` is the text behind the first slash exactly if there was no query, or a nonempty
      query without fragment. */
  lemma FullPathIff(p: Parts, defaultScheme: string)
    requires WellFormed(p) && p.tail.Some?
    ensures FullPath(Keep(p, defaultScheme)) == PrintTail(p.tail.value)
       <==> (p.tail.value.query.None?
             || (p.tail.value.query.value.text != "" && p.tail.value.query.value.fragment.None?))
  {
    var t := p.tail.value;
    if t.query.Some? {
      var q := t.query.value;
      if q.text == "" && q.fragment.Some? {
        var full, text := FullPath(Keep(p, defaultScheme)), PrintTail(t);
        assert text[|t.path|] == '?';
        assert full[|t.path|] == '#';
      }
    }
  }

  /** A fragment comes out behind two hashes, and an empty query loses its `?`. */
  lemma FullPathDoubles(p: Parts, defaultScheme: string)
    requires p.tail.Some? && p.tail.value.query.Some? && p.tail.value.query.value.fragment.Some?
    ensures var t := p.tail.value;
      var q := t.query.value;
      FullPath(Keep(p, defaultScheme))
        == t.path + (if q.text == "" then "" else "?" + q.text) + "##" + q.fragment.value
  {
    assert "#" + ("#" + p.tail.value.query.value.fragment.value) == "##" + p.tail.value.query.value.fragment.value;
  }

  /** `SplitAt` on a range of the text, by positions. */
  lemma SplitRange(s: string, c: char, first: nat, last: nat)
    requires first <= last <= |s|
    ensures var k := first + IndexOf(s[first..last], c);
      SplitAt(s[first..last], c) == (s[first..k], if k == last then None else Some(s[k + 1..last]))
    ensures last == |s| ==> first + IndexOf(s[first..last], c) == IndexFrom(s, c, first)
  {
    assert last == |s| ==> s[first..last] == s[first..];
    var k := first + IndexOf(s[first..last], c);
    assert s[first..last][..k - first] == s[first..k];
    assert k < last ==> s[first..last][k - first + 1..] == s[k + 1..last];
  }

  /** The query starts at the first `?` behind the slash. */
  lemma TailRange(s: string, pathAt: nat)
    requires pathAt < |s| && s[pathAt] == '/'
    ensures var k := IndexFrom(s, '?', pathAt);
      && pathAt < k
      && SplitAt(s[pathAt + 1..], '?') == (s[pathAt + 1..k], if k == |s| then None else Some(s[k + 1..]))
  {
    var k := IndexFrom(s, '?', pathAt);
    IndexOfIs(s[pathAt + 1..], '?', k - pathAt - 1);
    assert s[pathAt + 1..][..k - pathAt - 1] == s[pathAt + 1..k];
    assert k < |s| ==> s[pathAt + 1..][k - pathAt..] == s[k + 1..];
  }

  /** The login ends at the first `@` anywhere behind the scheme. */
  lemma LoginRange(s: string, pos: nat, scheme: Option<string>)
    requires pos <= |s|
    ensures var k := IndexFrom(s, '@', pos);
      SplitBody(scheme, s[pos..]) ==
        if k == |s| then SplitSite(scheme, None, s[pos..])
        else SplitSite(scheme, Some(SplitLogin(s[pos..k])), s[k + 1..])
  {
    hide SplitSite;
    var k := IndexFrom(s, '@', pos);
    assert s[pos..][..k - pos] == s[pos..k];
    assert k < |s| ==> s[pos..][k - pos + 1..] == s[k + 1..];
  }

  /** Where the scheme ends, and what is kept of it. */
  lemma SchemeAt(s: string, defaultScheme: string)
    ensures var i := Search(s, SCHEME_END);
      var at := if i == |s| then 0 else i + 3;
      && at <= |s|
      && Split(s) == SplitBody(Split(s).scheme, s[at..])
      && Keep(Split(s), defaultScheme).scheme == if i == |s| then defaultScheme else Lower(s[..i])
  {
    hide SplitBody, Lower;
    assert s[0..] == s;
  }

  /** What is kept of the login, by positions. */
  lemma LoginAt(s: string, pos: nat, parts: Parts, defaultScheme: string)
    requires pos <= |s| && parts == SplitBody(parts.scheme, s[pos..])
    ensures var f, at := Keep(parts, defaultScheme), IndexFrom(s, '@', pos);
      if at == |s| then
        f.user == f.password == "" && parts == SplitSite(parts.scheme, parts.login, s[pos..])
      else
        var colon := pos + IndexOf(s[pos..at], ':');
        && f.user == s[pos..colon] && f.password == s[colon..at]
        && parts == SplitSite(parts.scheme, parts.login, s[at + 1..])
  {
    hide SplitSite, SplitAt, Lower;
    LoginRange(s, pos, parts.scheme);
    var at := IndexFrom(s, '@', pos);
    if at < |s| {
      SplitRange(s, ':', pos, at);
      var colon := pos + IndexOf(s[pos..at], ':');
      assert colon < at ==> s[pos..at][colon - pos] == ':';
      assert colon < at ==> s[colon..at] == ":" + s[colon + 1..at];
    }
  }

  /** What is kept of host, port and the rest, by positions. */
  lemma SiteAt(s: string, pos: nat, parts: Parts, defaultScheme: string)
    requires pos <= |s| && parts == SplitSite(parts.scheme, parts.login, s[pos..])
    ensures var f, slash := Keep(parts, defaultScheme), IndexFrom(s, '/', pos);
      var colon := pos + IndexOf(s[pos..slash], ':');
      && f.host == Lower(s[pos..colon])
      && f.port == s[if colon < slash then colon + 1 else slash..slash]
      && (slash == |s| ==> f.path == f.query == f.fragment == "")
      && (slash < |s| ==> parts.tail == Some(SplitTail(s[slash + 1..])))
  {
    hide SplitAt, Lower, SplitTail;
    var slash := IndexFrom(s, '/', pos);
    SplitRange(s, '/', pos, |s|);
    assert s[pos..|s|] == s[pos..];
    assert slash < |s| ==> s[slash + 1..|s|] == s[slash + 1..];
    SplitRange(s, ':', pos, slash);
  }

  lemma TailAt(s: string, slash: nat, parts: Parts, defaultScheme: string)
    requires slash < |s| && s[slash] == '/' && parts.tail == Some(SplitTail(s[slash + 1..]))
    ensures var f, mark := Keep(parts, defaultScheme), IndexFrom(s, '?', slash);
      && slash < mark && f.path == s[slash + 1..mark]
      && (mark == |s| ==> f.query == f.fragment == "")
      && (mark < |s| ==>
            var hash := IndexFrom(s, '#', mark + 1);
            f.query == s[mark + 1..hash] && f.fragment == s[hash..])
  {
    hide SplitAt, Lower, IndexOf, IndexFrom;
    TailRange(s, slash);
    var mark := IndexFrom(s, '?', slash);
    if mark < |s| {
      SplitRange(s, '#', mark + 1, |s|);
      assert s[mark + 1..|s|] == s[mark + 1..];
      var hash := IndexFrom(s, '#', mark + 1);
      assert hash < |s| ==> s[hash..] == "#" + s[hash + 1..];
    }
  }

  class Uri {
    var text: string
    var valid: bool
    var scheme: string
    var user: string
    var password: string
    var host: string
    var port: string
    var path: string
    var query: string
    var fragment: string

    function View(): Fields
      reads this
    {
      Fields(scheme, user, password, host, port, path, query, fragment)
    }

    constructor (s: string, defaultScheme: string)
      ensures text == s
      ensures valid <==> Accepts(s, defaultScheme)
      ensures View() == if valid then Keep(Split(s), defaultScheme) else NO_FIELDS
    {
      text, valid := s, false;
      scheme, user, password, host, port, path, query, fragment := "", "", "", "", "", "", "", "";
      new;
      var ok := Parse(s, defaultScheme);
      valid := ok;
    }

    /** uri::parse; its last three paragraphs are the methods below. */
    method Parse(s: string, defaultScheme: string) returns (ok: bool)
      requires View() == NO_FIELDS
      modifies this
      ensures ok <==> Accepts(s, defaultScheme)
      ensures View() == if ok then Keep(Split(s), defaultScheme) else NO_FIELDS
      ensures text == old(text)
    {
      hide Keep, Split, SplitBody, SplitSite, Lower, Search, MatchesAt, Contains;
      if s == "" {
        return false;
      }
      var pos := Search(s, SCHEME_END);
      ghost var parts := Split(s);
      SchemeAt(s, defaultScheme);
      if pos == |s| {
        if defaultScheme == "" {
          return false;
        }
        scheme := defaultScheme;
        pos := 0;
      } else {
        scheme := scheme + Lower(s[..pos]);
        assert scheme == Lower(s[..pos]);
        pos := pos + 3;
      }
      pos := ParseLogin(s, pos, parts, defaultScheme);
      pos := ParseSite(s, pos, parts, defaultScheme);
      ParseTail(s, pos, parts, defaultScheme);
      return true;
    }

    method ParseLogin(s: string, pos: nat, ghost parts: Parts, ghost defaultScheme: string) returns (next: nat)
      requires pos <= |s| && parts == SplitBody(parts.scheme, s[pos..])
      requires user == password == ""
      modifies this`user, this`password
      ensures user == Keep(parts, defaultScheme).user && password == Keep(parts, defaultScheme).password
      ensures next <= |s| && parts == SplitSite(parts.scheme, parts.login, s[next..])
    {
      hide Keep, SplitBody, SplitSite;
      LoginAt(s, pos, parts, defaultScheme);
      var userEnd := IndexFrom(s, '@', pos);
      next := pos;
      if userEnd != |s| {
        var passwordAt := pos + IndexOf(s[pos..userEnd], ':');
        hide IndexOf, IndexFrom;
        if passwordAt != userEnd {
          password := s[passwordAt..userEnd];
          user := s[pos..passwordAt];
        } else {
          user := s[pos..userEnd];
        }
        next := userEnd + 1;
      }
    }

    method ParseSite(s: string, pos: nat, ghost parts: Parts, ghost defaultScheme: string) returns (pathAt: nat)
      requires pos <= |s| && parts == SplitSite(parts.scheme, parts.login, s[pos..])
      requires host == port == ""
      modifies this`host, this`port
      ensures host == Keep(parts, defaultScheme).host && port == Keep(parts, defaultScheme).port
      ensures pathAt <= |s| && (pathAt < |s| ==> s[pathAt] == '/')
      ensures if pathAt == |s| then
          Keep(parts, defaultScheme).path == Keep(parts, defaultScheme).query
          == Keep(parts, defaultScheme).fragment == ""
        else
          parts.tail == Some(SplitTail(s[pathAt + 1..]))
    {
      hide Keep, SplitSite, SplitTail, Lower;
      SiteAt(s, pos, parts, defaultScheme);
      pathAt := IndexFrom(s, '/', pos);
      var portAt := pos + IndexOf(s[pos..pathAt], ':');
      assert portAt < pathAt ==> s[portAt] == s[pos..pathAt][portAt - pos] == ':';
      hide IndexOf, IndexFrom;
      var hostEnd;
      if portAt != |s| {
        port := s[if s[portAt] == ':' then portAt + 1 else portAt..pathAt];
        hostEnd := portAt;
      } else {
        hostEnd := pathAt;
      }
      host := host + Lower(s[pos..hostEnd]);
      assert host == Lower(s[pos..hostEnd]);
    }

    method ParseTail(s: string, pathAt: nat, ghost parts: Parts, ghost defaultScheme: string)
      requires pathAt <= |s| && (pathAt < |s| ==> s[pathAt] == '/')
      requires if pathAt == |s| then
          Keep(parts, defaultScheme).path == Keep(parts, defaultScheme).query
          == Keep(parts, defaultScheme).fragment == ""
        else
          parts.tail == Some(SplitTail(s[pathAt + 1..]))
      requires path == query == fragment == ""
      modifies this`path, this`query, this`fragment
      ensures var f := Keep(parts, defaultScheme);
        path == f.path && query == f.query && fragment == f.fragment
    {
      hide Keep, SplitTail, IndexFrom;
      if pathAt < |s| {
        TailAt(s, pathAt, parts, defaultScheme);
      }
      var queryAt := IndexFrom(s, '?', pathAt);
      path := s[if pathAt < |s| && s[pathAt] == '/' then pathAt + 1 else pathAt..queryAt];
      if queryAt != |s| {
        queryAt := queryAt + 1;
      }
      var fragmentAt := IndexFrom(s, '#', queryAt);
      query := s[queryAt..fragmentAt];
      if fragmentAt != |s| {
        fragment := s[fragmentAt..];
      }
    }
  }
}
