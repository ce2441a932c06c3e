/**
 The HTTP message reader of src/http/client.cpp (`response::parse`) and the writer of
 src/http/socket_impl.cpp (`socket::request`), with the field-line format of RFC 9112 section 5.
 */
module Http {
  import opened Bytes
  import opened StdMap
  import opened Scan
  import Lines
  import Uri
  import BufferedSocket

  // ---------- reading ----------

  /** The header loop: the map, the text it leaves, and whether it ran to the end. */
  datatype Block = Block(headers: map<string, string>, rest: string, ok: bool)

  /** A line whose first colon is its last byte makes `substr` throw. */
  predicate EndsInColon(line: string) {
    IndexOf(line, ':') + 1 == |line|
  }

  /** The effect of one nonempty line. */
  function AddField(headers: map<string, string>, line: string): map<string, string>
    requires !EndsInColon(line)
  {
    var sep := IndexOf(line, ':');
    if sep == |line| then headers else headers[line[..sep] := line[sep + 2..]]
  }

  function ReadFields(text: string, headers: map<string, string>): (b: Block)
    decreases |text|
  {
    var next := Search(text, CRLF);
    if next == |text| then Block(headers, text, true)
    else
      var line, rest := text[..next], text[next + 2..];
      if line == "" then Block(headers, rest, true)
      else if EndsInColon(line) then Block(headers, text, false)
      else ReadFields(rest, AddField(headers, line))
  }

  /** The fields of a `response`. */
  datatype Message = Message(value: string, version: string, code: int, headers: map<string, string>, content: string)

  /** `parse(value)` on a response whose version was `version`; `false` for an exception. */
  function ParseMessage(version: string, value: string): (Message, bool) {
    var pos := Search(value, CRLF);
    if pos == |value| then (Message(value, version, 0, map[], value), true)
    else
      var p := ScanPreamble(value[..pos], 0);
      if p.count != 3 then (Message(value, version, p.code, map[], value), true)
      else
        var b := ReadFields(value[pos + 2..], map[]);
        (Message(value, p.version, p.code, b.headers, if b.ok then b.rest else ""), b.ok)
  }

  /** helper::skip_newline: at most two newline bytes; past the end a NUL is seen. */
  method SkipNewline(s: string, start: nat) returns (pos: nat)
    requires start <= |s|
    ensures start <= pos <= start + 2 && pos <= |s|
    ensures forall i :: start <= i < pos ==> Lines.IsNewline(s[i])
    ensures pos < start + 2 && pos < |s| ==> !Lines.IsNewline(s[pos])
  {
    pos := start;
    var i := 0;
    while i < 2
      invariant 0 <= i <= 2 && pos == start + i <= |s|
      invariant forall j :: start <= j < pos ==> Lines.IsNewline(s[j])
    {
      var c := if pos < |s| then s[pos] else '\0';
      if !Lines.IsNewline(c) {
        break;
      }
      i, pos := i + 1, pos + 1;
    }
  }

  /** What one round of the header loop sees from position `pos`. */
  lemma FieldsAt(value: string, pos: nat, headers: map<string, string>)
    requires pos <= |value|
    ensures var next := SearchFrom(value, CRLF, pos);
      ReadFields(value[pos..], headers) ==
        if next == |value| then Block(headers, value[pos..], true)
        else
          var line := value[pos..next];
          if line == "" then Block(headers, value[next + 2..], true)
          else if EndsInColon(line) then Block(headers, value[pos..], false)
          else ReadFields(value[next + 2..], AddField(headers, line))
  {
    hide EndsInColon, AddField, Search;
    var text := value[pos..];
    var next := SearchFrom(value, CRLF, pos);
    if next < |value| {
      assert text[..next - pos] == value[pos..next];
      assert text[next - pos + 2..] == value[next + 2..];
    }
  }

  class Response {
    var value: string
    var version: string
    var code: int
    var headers: map<string, string>
    var content: string

    constructor ()
      ensures View() == Message("", "1.1", 0, map[], "")
    {
      value, version, code, headers, content := "", "1.1", 0, map[], "";
    }

    function View(): Message
      reads this
    {
      Message(value, version, code, headers, content)
    }

    /** response::clear leaves the version alone. */
    method Clear()
      modifies this
      ensures View() == Message("", old(version), 0, map[], "")
    {
      value := "";
      code := 0;
      headers := map[];
      content := "";
    }

    /** response::parse(value); the result is false if it throws. */
    method Parse(text: string) returns (ok: bool)
      modifies this
      ensures (View(), ok) == ParseMessage(old(version), text)
    {
      hide ReadFields, ScanPreamble, EndsInColon, AddField, Search;
      Clear();
      value := text;
      var pos := Search(value, CRLF);
      if pos == |value| {
        content := value;
        return true;
      }
      var line := value[..pos];
      var scanned := ScanPreamble(line, code);
      code := scanned.code;
      if scanned.count != 3 {
        content := value;
        return true;
      }
      version := scanned.version;
      AtCrlf(value, pos);
      pos := SkipNewline(value, pos);
      ok := ParseFields(pos);
    }

    /** The header loop and the rest of `parse`. */
    method ParseFields(start: nat) returns (ok: bool)
      requires start <= |value| && content == ""
      modifies this`headers, this`content
      ensures var b := ReadFields(old(value)[start..], old(headers));
        headers == b.headers && ok == b.ok && content == if b.ok then b.rest else ""
    {
      hide ReadFields;
      var pos := start;
      var more := true;
      ghost var b := ReadFields(value[start..], headers);
      while more
        invariant 0 <= pos <= |value| && content == ""
        invariant more ==> ReadFields(value[pos..], headers) == b
        invariant !more ==> b == Block(headers, value[pos..], true)
        decreases more, |value| - pos
      {
        FieldsAt(value, pos, headers);
        var next := SearchFrom(value, CRLF, pos);
        if next == |value| {
          break;
        }
        var line := value[pos..next];
        var sep := IndexOf(line, ':');
        if sep != |line| {
          var key := line[..sep];
          if sep + 2 > |line| {
            return false;
          }
          headers := headers[key := line[sep + 2..]];
        }
        AtCrlf(value, next);
        pos := SkipNewline(value, next);
        more := line != "";
      }
      content := value[pos..];
      return true;
    }
  }

  lemma AtCrlf(s: string, i: nat)
    requires MatchesAt(s, CRLF, i)
    ensures i + 2 <= |s| && s[i] == '\r' && s[i + 1] == '\n'
  {
    assert s[i] == s[i..i + 2][0] && s[i + 1] == s[i..i + 2][1];
  }

  // ---------- properties of the reader ----------

  predicate IsSuffix(a: string, s: string) {
    |a| <= |s| && s[|s| - |a|..] == a
  }

  lemma SuffixOfRest(a: string, s: string, k: nat)
    requires k <= |s| && IsSuffix(a, s[k..])
    ensures IsSuffix(a, s)
  {
    assert s[k..][|s| - k - |a|..] == s[|s| - |a|..];
  }

  lemma {:induction false} RestIsSuffix(text: string, headers: map<string, string>)
    ensures IsSuffix(ReadFields(text, headers).rest, text)
    decreases |text|
  {
    var next := Search(text, CRLF);
    assert text[0..] == text;
    if next < |text| {
      if next > 0 && !EndsInColon(text[..next]) {
        RestIsSuffix(text[next + 2..], AddField(headers, text[..next]));
        SuffixOfRest(ReadFields(text, headers).rest, text, next + 2);
      } else {
        assert IsSuffix(text[next + 2..], text);
      }
    }
  }

  /** The content is a suffix of the input. */
  lemma ContentIsSuffix(version: string, value: string)
    ensures IsSuffix(ParseMessage(version, value).0.content, value)
  {
    hide ReadFields, Search, ScanPreamble, Contains;
    var pos := Search(value, CRLF);
    assert pos < |value| ==> pos + 2 <= |value|;
    assert value[0..] == value && value[|value|..] == "";
    if pos < |value| {
      RestIsSuffix(value[pos + 2..], map[]);
      SuffixOfRest(ReadFields(value[pos + 2..], map[]).rest, value, pos + 2);
    }
  }

  /** The input starts with a status line. */
  predicate HasPreamble(value: string) {
    var pos := Search(value, CRLF);
    pos < |value| && ScanPreamble(value[..pos], 0).count == 3
  }

  /** A parse forgets the response parsed before, except for its version, which survives exactly
      if the new input has no status line. */
  lemma ParseForgets(before: string, other: string, value: string)
    ensures var (a, ok) := ParseMessage(before, value);
      var (b, ok') := ParseMessage(other, value);
      && ok == ok' && a.(version := "") == b.(version := "")
      && (a.version == b.version <==> before == other || HasPreamble(value))
  {
  }

  /** The lines the header loop looks at. */
  function FieldLines(text: string): seq<string>
    decreases |text|
  {
    var next := Search(text, CRLF);
    if next == |text| || next == 0 then [] else [text[..next]] + FieldLines(text[next + 2..])
  }

  ghost predicate SomeLineThrows(text: string) {
    exists i :: 0 <= i < |FieldLines(text)| && EndsInColon(FieldLines(text)[i])
  }

  /** `parse` throws exactly if there is a status line and some field line ends in its first colon. */
  lemma ThrowsIff(version: string, value: string)
    ensures !ParseMessage(version, value).1
       <==> HasPreamble(value) && SomeLineThrows(value[Search(value, CRLF) + 2..])
  {
    hide ScanPreamble, ReadFields, SomeLineThrows, Search;
    if HasPreamble(value) {
      FieldsThrowIff(value[Search(value, CRLF) + 2..], map[]);
    }
  }

  lemma {:induction false} FieldsThrowIff(text: string, headers: map<string, string>)
    ensures !ReadFields(text, headers).ok <==> SomeLineThrows(text)
    decreases |text|
  {
    hide EndsInColon, AddField;
    var next := Search(text, CRLF);
    if 0 < next < |text| {
      var lines, rest := FieldLines(text), FieldLines(text[next + 2..]);
      assert lines == [text[..next]] + rest;
      assert forall i :: 0 <= i < |rest| ==> lines[i + 1] == rest[i];
      assert lines[0] == text[..next];
      if !EndsInColon(text[..next]) {
        FieldsThrowIff(text[next + 2..], AddField(headers, text[..next]));
        if i :| 0 <= i < |lines| && EndsInColon(lines[i]) {
          assert rest[i - 1] == lines[i];
        }
      }
    }
  }

  // ---------- printing, and reading it back ----------

  function FieldLine(e: Entry): string {
    e.0 + ": " + e.1
  }

  function PrintFields(es: seq<Entry>): string {
    if es == [] then "" else FieldLine(es[0]) + CRLF + PrintFields(es[1..])
  }

  /** A field that survives: no colon in the key, no line break in the line. */
  ghost predicate IsField(e: Entry) {
    ':' !in e.0 && !Contains(FieldLine(e), CRLF)
  }

  lemma FieldRead(e: Entry, rest: string, m: map<string, string>)
    requires IsField(e)
    ensures ReadFields(FieldLine(e) + CRLF + rest, m) == ReadFields(rest, m[e.0 := e.1])
  {
    var line := FieldLine(e);
    SearchLine(line, rest);
    var text := line + CRLF + rest;
    assert text[..|line|] == line && text[|line| + 2..] == rest;
    IndexOfIs(line, ':', |e.0|);
    assert line[..|e.0|] == e.0 && line[|e.0| + 2..] == e.1;
    assert AddField(m, line) == m[e.0 := e.1];
  }

  lemma EmptyLineRead(rest: string, m: map<string, string>)
    ensures ReadFields(CRLF + rest, m) == Block(m, rest, true)
  {
    assert MatchesAt(CRLF + rest, CRLF, 0) by {
      assert (CRLF + rest)[0..2] == CRLF;
    }
    SearchIs(CRLF + rest, CRLF, 0);
    assert (CRLF + rest)[2..] == rest;
  }

  /** Printed fields in front of any text. */
  lemma {:induction false} FieldsThen(es: seq<Entry>, tail: string, m: map<string, string>)
    requires forall i :: 0 <= i < |es| ==> IsField(es[i])
    ensures ReadFields(PrintFields(es) + tail, m) == ReadFields(tail, Assign(m, es))
    decreases |es|
  {
    hide ReadFields, IsField, FieldLine;
    if es == [] {
      assert PrintFields(es) + tail == tail;
    } else {
      var rest := PrintFields(es[1..]) + tail;
      FieldRead(es[0], rest, m);
      FieldsThen(es[1..], tail, m[es[0].0 := es[0].1]);
      assert PrintFields(es) + tail == FieldLine(es[0]) + CRLF + rest;
    }
  }

  /** One field line, whatever byte follows the colon: it is dropped. */
  lemma AnyFieldRead(key: string, x: char, value: string, rest: string, m: map<string, string>)
    requires ':' !in key && !Contains(key + ":" + [x] + value, CRLF)
    ensures ReadFields(key + ":" + [x] + value + CRLF + rest, m) == ReadFields(rest, m[key := value])
  {
    var line := key + ":" + [x] + value;
    LineThen(line, rest, m);
    IndexOfIs(line, ':', |key|);
    assert line[..|key|] == key && line[|key| + 2..] == value;
  }

  /** A line without a colon is skipped. */
  lemma OtherLineSkipped(line: string, rest: string, m: map<string, string>)
    requires line != "" && ':' !in line && !Contains(line, CRLF)
    ensures ReadFields(line + CRLF + rest, m) == ReadFields(rest, m)
  {
    LineThen(line, rest, m);
    IndexOfIs(line, ':', |line|);
  }

  /** A line that ends in its first colon throws; the headers so far stay. */
  lemma ColonLineThrows(key: string, rest: string, m: map<string, string>)
    requires ':' !in key && !Contains(key + ":", CRLF)
    ensures var b := ReadFields(key + ":" + CRLF + rest, m); !b.ok && b.headers == m
  {
    LineThen(key + ":", rest, m);
    IndexOfIs(key + ":", ':', |key|);
  }

  /** What follows the last CRLF is no field. */
  lemma UnfinishedLine(text: string, m: map<string, string>)
    requires !Contains(text, CRLF)
    ensures ReadFields(text, m) == Block(m, text, true)
  {
    SearchIs(text, CRLF, |text|);
  }

  lemma LineThen(line: string, rest: string, m: map<string, string>)
    requires line != "" && !Contains(line, CRLF)
    ensures ReadFields(line + CRLF + rest, m) ==
      if EndsInColon(line) then Block(m, line + CRLF + rest, false) else ReadFields(rest, AddField(m, line))
  {
    var text := line + CRLF + rest;
    SearchLine(line, rest);
    assert text[..|line|] == line && text[|line| + 2..] == rest;
    hide EndsInColon, AddField, Search;
  }

  /** A printed field block, the empty line and any body behind it are read back. */
  lemma FieldsReadBack(es: seq<Entry>, body: string, m: map<string, string>)
    requires forall i :: 0 <= i < |es| ==> IsField(es[i])
    ensures ReadFields(PrintFields(es) + CRLF + body, m) == Block(Assign(m, es), body, true)
  {
    hide ReadFields, IsField;
    FieldsThen(es, CRLF + body, m);
    EmptyLineRead(body, Assign(m, es));
    assert PrintFields(es) + (CRLF + body) == PrintFields(es) + CRLF + body;
  }

  function StatusLine(version: string, code: int, reason: string): string {
    "HTTP/" + version + " " + SignedDecimal(code) + " " + reason
  }

  function PrintResponse(version: string, code: int, reason: string, es: seq<Entry>, body: string): string {
    StatusLine(version, code, reason) + CRLF + (PrintFields(es) + CRLF + body)
  }

  /** A printed response is read back: version, code, the last value of every key, and the body
      byte for byte, whatever it starts with or contains. */
  lemma ResponseRoundTrip(before: string, version: string, code: int, reason: string, es: seq<Entry>, body: string)
    requires IsWord(version)
    requires reason != "" && !IsSpace(reason[0]) && reason[0] != '\0'
    requires !Contains(StatusLine(version, code, reason), CRLF)
    requires forall i :: 0 <= i < |es| ==> IsField(es[i])
    ensures var text := PrintResponse(version, code, reason, es, body);
      ParseMessage(before, text) == (Message(text, version, code, Assign(map[], es), body), true)
  {
    hide ReadFields, ScanPreamble, IsField, PrintFields, SignedDecimal, Contains, Search;
    var line, block := StatusLine(version, code, reason), PrintFields(es) + CRLF + body;
    var text := line + CRLF + block;
    SearchLine(line, block);
    assert text[..|line|] == line && text[|line| + 2..] == block;
    ScanPrinted(version, code, reason, 0);
    FieldsReadBack(es, body, map[]);
  }

  /** Without CRLF, or without `HTTP/` at its start, the whole input is the content, and everything else
      is as after `clear`. */
  lemma NoStatusLine(before: string, value: string)
    requires !Contains(value, "\r\n") || !("HTTP/" <= value)
    ensures ParseMessage(before, value) == (Message(value, before, 0, map[], value), true)
  {
    hide ScanPreamble, ReadFields;
    var pos := Search(value, CRLF);
    if pos < |value| {
      assert MatchesAt(value, "\r\n", pos);
      var line := value[..pos];
      assert "HTTP/" <= line ==> "HTTP/" <= value;
      ScanNothing(line, 0);
    } else {
      assert CRLF == "\r\n";
    }
  }

  /** The same for a first line that stops in front of the code or of the reason; a code that was
      reached is kept. */
  lemma StatusLineStops(before: string, line: string, rest: string)
    requires !Contains(line, "\r\n") && ScanPreamble(line, 0).count < 3
    ensures var value := line + "\r\n" + rest;
      ParseMessage(before, value) == (Message(value, before, ScanPreamble(line, 0).code, map[], value), true)
  {
    hide ScanPreamble, ReadFields;
    var value := line + CRLF + rest;
    SearchLine(line, rest);
    assert value[..|line|] == line;
  }

  /** `HTTP/1.1 200` without a reason is no status line, but the code is kept. */
  lemma NoReason(before: string, version: string, code: int, ws: string, rest: string)
    requires IsWord(version) && Blank(ws)
    requires !Contains("HTTP/" + version + " " + SignedDecimal(code) + ws, "\r\n")
    ensures var value := "HTTP/" + version + " " + SignedDecimal(code) + ws + "\r\n" + rest;
      ParseMessage(before, value) == (Message(value, before, code, map[], value), true)
  {
    hide ScanPreamble, ParseMessage, SignedDecimal, IsWord, Contains;
    var line := "HTTP/" + version + " " + SignedDecimal(code) + ws;
    ScanSpaced("", version, " ", code, ws, "", 0);
    assert line == "HTTP/" + ("" + (version + (" " + (SignedDecimal(code) + (ws + "")))));
    StatusLineStops(before, line, rest);
  }

  /** Nor is a first line without a number behind its version. */
  lemma NoCode(before: string, version: string, word: string, rest: string)
    requires IsWord(version) && '\0' !in word && !Contains("HTTP/" + version + " " + word, "\r\n")
    requires word != "" ==> !IsBlankCode(word[0] as int) && !IsDigit(word[0]) && word[0] != '-' && word[0] != '+'
    ensures var value := "HTTP/" + version + " " + word + "\r\n" + rest;
      ParseMessage(before, value) == (Message(value, before, 0, map[], value), true)
  {
    hide ScanPreamble, ParseMessage, IsWord, Contains;
    var line := "HTTP/" + version + " " + word;
    ScanNoCode("", version, " ", word, 0);
    assert line == "HTTP/" + ("" + (version + (" " + word)));
    StatusLineStops(before, line, rest);
  }

  /** A response whose fields end in an exception: version, code and the fields so far are kept, and the
      content is empty. */
  lemma ThrowLeaves(before: string, version: string, code: int, reason: string, es: seq<Entry>, key: string,
                    rest: string)
    requires IsWord(version)
    requires reason != "" && !IsBlankCode(reason[0] as int) && reason[0] as int != 0
    requires !Contains(StatusLine(version, code, reason), CRLF)
    requires forall i :: 0 <= i < |es| ==> IsField(es[i])
    requires ':' !in key && !Contains(key + ":", CRLF)
    ensures var text := StatusLine(version, code, reason) + CRLF + (PrintFields(es) + (key + ":" + CRLF + rest));
      ParseMessage(before, text) == (Message(text, version, code, Assign(map[], es), ""), false)
  {
    var line, block := StatusLine(version, code, reason), PrintFields(es) + (key + ":" + CRLF + rest);
    ScanPrinted(version, code, reason, 0);
    hide ReadFields, ScanPreamble, IsField, PrintFields, StatusLine, Contains, IsWord;
    StatusThen(before, line, block, version, code);
    FieldsThen(es, key + ":" + CRLF + rest, map[]);
    ColonLineThrows(key, rest, Assign(map[], es));
  }

  /** A response that is cut off in its fields: what is behind the last CRLF is the content. */
  lemma CutOffResponse(before: string, version: string, code: int, reason: string, es: seq<Entry>, tail: string)
    requires IsWord(version)
    requires reason != "" && !IsBlankCode(reason[0] as int) && reason[0] as int != 0
    requires !Contains(StatusLine(version, code, reason), CRLF) && !Contains(tail, CRLF)
    requires forall i :: 0 <= i < |es| ==> IsField(es[i])
    ensures var text := StatusLine(version, code, reason) + CRLF + (PrintFields(es) + tail);
      ParseMessage(before, text) == (Message(text, version, code, Assign(map[], es), tail), true)
  {
    var line, block := StatusLine(version, code, reason), PrintFields(es) + tail;
    ScanPrinted(version, code, reason, 0);
    hide ReadFields, ScanPreamble, IsField, PrintFields, StatusLine, Contains, IsWord;
    StatusThen(before, line, block, version, code);
    FieldsThen(es, tail, map[]);
    UnfinishedLine(tail, Assign(map[], es));
  }

  lemma StatusThen(before: string, line: string, block: string, version: string, code: int)
    requires !Contains(line, CRLF) && ScanPreamble(line, 0) == Preamble(3, version, code)
    ensures var text, b := line + CRLF + block, ReadFields(block, map[]);
      ParseMessage(before, text) == (Message(text, version, code, b.headers, if b.ok then b.rest else ""), b.ok)
  {
    hide ReadFields, ScanPreamble;
    var text := line + CRLF + block;
    SearchLine(line, block);
    assert text[..|line|] == line && text[|line| + 2..] == block;
  }

  // ---------- writing a request ----------

  const MAX_URL_LEN := 2000

  datatype Method = OPTIONS | HEAD | GET | POST | PUT | DELETE | CONNECT | TRACE

  function MethodName(m: Method): string {
    match m
    case OPTIONS => "OPTIONS" case HEAD => "HEAD" case GET => "GET" case POST => "POST"
    case PUT => "PUT" case DELETE => "DELETE" case CONNECT => "CONNECT" case TRACE => "TRACE"
  }

  datatype Client = Client(uri: Uri.Fields, version: string, headers: map<string, string>, content: string)

  /** `snprintf` into the buffer keeps at most 1999 bytes. */
  function Clip(s: string): (r: string)
    ensures r <= s
    ensures |r| == if |s| < 2000 then |s| else 1999
    ensures |s| < MAX_URL_LEN ==> r == s
  {
    if |s| < MAX_URL_LEN then s else s[..MAX_URL_LEN - 1]
  }

  /** The target: the caller's path or the URI's, with a slash in front. */
  function Target(c: Client, userPath: string): string {
    var path := if userPath == "" then Uri.FullPath(c.uri) else userPath;
    if path == "" then "/" else if path[0] == '/' then path else "/" + path
  }

  function RequestLine(c: Client, m: Method, userPath: string): string {
    Clip(MethodName(m) + " " + CStr(Target(c, userPath)) + " HTTP/" + CStr(c.version))
  }

  predicate IsChunked(c: Client) {
    "Transfer-Encoding" in c.headers && Lower(CStr(c.headers["Transfer-Encoding"])) == "chunked"
  }

  /** A default field, if the client has not set it. */
  function Missing(c: Client, key: string, value: string): seq<Entry> {
    if key in c.headers then [] else [(key, value)]
  }

  /** Fields added in front of the client's. */
  function Defaults(c: Client): seq<Entry> {
    Missing(c, "Host", c.uri.host) + Missing(c, "Accept", "*/*") + Missing(c, "Connection", "close")
  }

  /** The field added behind the client's. */
  function SizeField(c: Client): seq<Entry> {
    if !IsChunked(c) && c.content != "" then [("Content-Size", Decimal(|c.content|))] else []
  }

  ghost function RequestFields(c: Client): seq<Entry> {
    Defaults(c) + Entries(c.headers) + SizeField(c)
  }

  /** Field lines as they pass through the buffer. */
  function WriteFields(es: seq<Entry>): string {
    if es == [] then ""
    else Clip(CStr(es[0].0) + ": " + CStr(es[0].1)) + CRLF + WriteFields(es[1..])
  }

  ghost function RequestText(c: Client, m: Method, userPath: string): string {
    RequestLine(c, m, userPath) + CRLF + (WriteFields(RequestFields(c)) + CRLF + c.content)
  }

  lemma {:induction false} WriteConcat(a: seq<Entry>, b: seq<Entry>)
    ensures WriteFields(a + b) == WriteFields(a) + WriteFields(b)
  {
    if a == [] {
      assert a + b == b;
    } else {
      assert (a + b)[1..] == a[1..] + b;
      WriteConcat(a[1..], b);
    }
  }

  lemma WriteOne(e: Entry)
    ensures WriteFields([e]) == Clip(CStr(e.0) + ": " + CStr(e.1)) + CRLF
    ensures WriteFields([]) == ""
  {
  }

  /** Appends to the history of a socket, as two writes or as one. */
  lemma AppendTwice(st: BufferedSocket.State, a: string, b: string)
    ensures BufferedSocket.Append(BufferedSocket.Append(st, a), b) == BufferedSocket.Append(st, a + b)
    ensures BufferedSocket.Append(st, "") == st
  {
    assert st.out + (a + b) == (st.out + a) + b && st.written + (a + b) == (st.written + a) + b;
    assert st.out + "" == st.out && st.written + "" == st.written;
  }

  /** `snprintf(buf, "%s: %s", key, value)` and `writeln(buf)`. */
  method WriteField(sock: BufferedSocket.Socket, e: Entry)
    modifies sock
    ensures sock.View() == BufferedSocket.Append(old(sock.View()), WriteFields([e]))
  {
    WriteOne(e);
    sock.WriteLn(Clip(CStr(e.0) + ": " + CStr(e.1)));
  }

  /** The loop over the client's headers. */
  method AddHeaders(headers: map<string, string>, sock: BufferedSocket.Socket, ghost st: BufferedSocket.State,
                    ghost text: string, ghost es: seq<Entry>) returns (ghost es': seq<Entry>)
    requires sock.View() == BufferedSocket.Append(st, text + WriteFields(es))
    modifies sock
    ensures es' == es + Entries(headers)
    ensures sock.View() == BufferedSocket.Append(st, text + WriteFields(es'))
  {
    hide BufferedSocket.Append, BufferedSocket.Follows, BufferedSocket.Settled, WriteFields, Entries, IsLeast;
    es' := es;
    var rest := headers;
    NoEntries();
    while rest != map[]
      invariant sock.View() == BufferedSocket.Append(st, text + WriteFields(es'))
      invariant es' + Entries(rest) == es + Entries(headers)
      decreases |rest|
    {
      LeastExists(rest.Keys);
      var k :| k in rest.Keys && IsLeast(k, rest.Keys);
      EntriesStep(rest, k);
      ghost var before, v := es', rest[k];
      es' := AddLine(sock, st, text, es', (k, rest[k]));
      rest := rest - {k};
      assert before + ([(k, v)] + Entries(rest)) == es' + Entries(rest);
    }
    assert es' + [] == es';
  }

  /** `if (!client.has_header(key))`: write the default. */
  method AddDefault(c: Client, key: string, value: string, sock: BufferedSocket.Socket,
                    ghost st: BufferedSocket.State, ghost text: string, ghost es: seq<Entry>)
      returns (ghost es': seq<Entry>)
    requires sock.View() == BufferedSocket.Append(st, text + WriteFields(es))
    modifies sock
    ensures es' == es + Missing(c, key, value)
    ensures sock.View() == BufferedSocket.Append(st, text + WriteFields(es'))
  {
    hide BufferedSocket.Append, BufferedSocket.Follows, BufferedSocket.Settled, WriteFields;
    es' := es;
    if key !in c.headers {
      es' := AddLine(sock, st, text, es, (key, value));
    }
  }

  lemma RequestTextIs(c: Client, m: Method, userPath: string)
    ensures RequestText(c, m, userPath) ==
      RequestLine(c, m, userPath) + CRLF + WriteFields(RequestFields(c)) + CRLF + c.content
  {
    hide RequestLine, WriteFields, RequestFields;
    var line, fields := RequestLine(c, m, userPath), WriteFields(RequestFields(c));
    assert line + CRLF + (fields + CRLF + c.content) == line + CRLF + fields + CRLF + c.content;
  }

  /** The empty line and the content. */
  method AddContent(c: Client, sock: BufferedSocket.Socket, ghost st: BufferedSocket.State, ghost text: string)
    requires sock.View() == BufferedSocket.Append(st, text)
    modifies sock
    ensures sock.View() == BufferedSocket.Append(st, text + CRLF + c.content)
  {
    hide BufferedSocket.Append, BufferedSocket.Follows, BufferedSocket.Settled;
    sock.WriteLn("");
    assert "" + CRLF == CRLF;
    AppendTwice(st, text, CRLF);
    if c.content != "" {
      sock.Write(c.content);
    }
    AppendTwice(st, text + CRLF, c.content);
    assert c.content == "" ==> text + CRLF + c.content == text + CRLF;
  }

  /** The part of http::socket::request that fills the output buffer. */
  method Request(c: Client, m: Method, userPath: string, sock: BufferedSocket.Socket)
    modifies sock
    ensures sock.View() == BufferedSocket.Append(old(sock.View()), RequestText(c, m, userPath))
  {
    hide BufferedSocket.Append, BufferedSocket.Follows, BufferedSocket.Settled, WriteFields, RequestLine, RequestText;
    hide IsChunked, Entries, Decimal, Missing;
    ghost var st := sock.View();
    ghost var text := RequestLine(c, m, userPath) + CRLF;
    sock.WriteLn(RequestLine(c, m, userPath));

    var chunked := IsChunked(c);
    WriteOne(("", ""));
    ghost var es: seq<Entry> := [];
    assert text + WriteFields(es) == text;
    es := AddDefault(c, "Host", c.uri.host, sock, st, text, es);
    assert es == Missing(c, "Host", c.uri.host);
    es := AddDefault(c, "Accept", "*/*", sock, st, text, es);
    es := AddDefault(c, "Connection", "close", sock, st, text, es);
    es := AddHeaders(c.headers, sock, st, text, es);
    assert es == Defaults(c) + Entries(c.headers);
    ghost var before := es;
    if !chunked && c.content != "" {
      es := AddLine(sock, st, text, es, ("Content-Size", Decimal(|c.content|)));
    }
    assert es == before + SizeField(c);
    AddContent(c, sock, st, text + WriteFields(es));
    RequestTextIs(c, m, userPath);
  }

  /** One more line behind `text` and the fields written so far. */
  method AddLine(sock: BufferedSocket.Socket, ghost st: BufferedSocket.State, ghost text: string,
                 ghost es: seq<Entry>, e: Entry) returns (ghost es': seq<Entry>)
    requires sock.View() == BufferedSocket.Append(st, text + WriteFields(es))
    modifies sock
    ensures es' == es + [e]
    ensures sock.View() == BufferedSocket.Append(st, text + WriteFields(es'))
  {
    hide BufferedSocket.Append, BufferedSocket.Follows, BufferedSocket.Settled, WriteFields;
    WriteField(sock, e);
    es' := es + [e];
    AppendTwice(st, text + WriteFields(es), WriteFields([e]));
    WriteConcat(es, [e]);
    assert text + WriteFields(es) + WriteFields([e]) == text + WriteFields(es');
  }

  /** A field the buffer does not change and the reader survives. */
  ghost predicate IsPlainField(e: Entry) {
    IsField(e) && '\0' !in FieldLine(e) && |FieldLine(e)| < MAX_URL_LEN
  }

  lemma {:induction false} PlainFieldsAreWritten(es: seq<Entry>)
    requires forall i :: 0 <= i < |es| ==> IsPlainField(es[i])
    ensures WriteFields(es) == PrintFields(es)
    ensures forall i :: 0 <= i < |es| ==> IsField(es[i])
  {
    if es != [] {
      PlainFieldIsWritten(es[0]);
      hide IsPlainField, IsField, FieldLine, Clip, CStr;
      PlainFieldsAreWritten(es[1..]);
      assert forall i :: 1 <= i < |es| ==> es[i] == es[1..][i - 1];
    }
  }

  lemma PlainFieldIsWritten(e: Entry)
    requires IsPlainField(e)
    ensures Clip(CStr(e.0) + ": " + CStr(e.1)) == FieldLine(e) && IsField(e)
  {
    assert forall i :: 0 <= i < |e.0| ==> e.0[i] == FieldLine(e)[i];
    assert forall i :: 0 <= i < |e.1| ==> e.1[i] == FieldLine(e)[|e.0| + 2 + i];
  }

  /** The headers a server sees: the missing defaults, the client's, and the size, which wins over
      a size the client set. */
  function SeenHeaders(c: Client): map<string, string> {
    var d := Assign(map[], Defaults(c)) + c.headers;
    if !IsChunked(c) && c.content != "" then d["Content-Size" := Decimal(|c.content|)] else d
  }

  /** The request is read back by the library's own reader: the request line, exactly the headers
      above, and exactly the content. */
  lemma RequestReadBack(c: Client, m: Method, userPath: string)
    requires !Contains(RequestLine(c, m, userPath), CRLF)
    requires forall i :: 0 <= i < |RequestFields(c)| ==> IsPlainField(RequestFields(c)[i])
    ensures var text, line := RequestText(c, m, userPath), RequestLine(c, m, userPath);
      && Search(text, CRLF) == |line| && text[..|line|] == line
      && ReadFields(text[|line| + 2..], map[]) == Block(SeenHeaders(c), c.content, true)
  {
    hide ReadFields, WriteFields, PrintFields, RequestLine, Search, Contains, IsPlainField, IsField, IsChunked, Decimal;
    var line, es := RequestLine(c, m, userPath), RequestFields(c);
    PlainFieldsAreWritten(es);
    var block := WriteFields(es) + CRLF + c.content;
    SearchLine(line, block);
    var text := line + CRLF + block;
    assert text[..|line|] == line && text[|line| + 2..] == block;
    FieldsReadBack(es, c.content, map[]);
    AssignConcat(map[], Defaults(c) + Entries(c.headers), SizeField(c));
    AssignConcat(map[], Defaults(c), Entries(c.headers));
    AssignEntries(Assign(map[], Defaults(c)), c.headers);
    var d := Assign(map[], Defaults(c)) + c.headers;
    SizeAssigned(d, c);
  }

  lemma SizeAssigned(d: map<string, string>, c: Client)
    ensures Assign(d, SizeField(c)) ==
      if !IsChunked(c) && c.content != "" then d["Content-Size" := Decimal(|c.content|)] else d
  {
  }

  /** A short request line by the caller's path, for each method. */
  lemma RequestLineByName(c: Client, path: string)
    requires path != "" && '\0' !in path && '\0' !in c.version && |path| + |c.version| < 1900
    ensures var t := (if path[0] as int == 47 then path else "/" + path) + " HTTP/" + c.version;
      && RequestLine(c, OPTIONS, path) == "OPTIONS " + t
      && RequestLine(c, HEAD, path) == "HEAD " + t
      && RequestLine(c, GET, path) == "GET " + t
      && RequestLine(c, POST, path) == "POST " + t
      && RequestLine(c, PUT, path) == "PUT " + t
      && RequestLine(c, DELETE, path) == "DELETE " + t
      && RequestLine(c, CONNECT, path) == "CONNECT " + t
      && RequestLine(c, TRACE, path) == "TRACE " + t
  {
    var target := if path[0] as int == 47 then path else "/" + path;
    assert Target(c, path) == target && '\0' !in target;
    hide Target;
    LineByName(c, OPTIONS, "OPTIONS", path, target);
    LineByName(c, HEAD, "HEAD", path, target);
    LineByName(c, GET, "GET", path, target);
    LineByName(c, POST, "POST", path, target);
    LineByName(c, PUT, "PUT", path, target);
    LineByName(c, DELETE, "DELETE", path, target);
    LineByName(c, CONNECT, "CONNECT", path, target);
    LineByName(c, TRACE, "TRACE", path, target);
  }

  lemma LineByName(c: Client, m: Method, name: string, path: string, target: string)
    requires MethodName(m) == name && |name| < 10
    requires Target(c, path) == target && '\0' !in target && '\0' !in c.version
    requires |target| + |c.version| < 1950
    ensures RequestLine(c, m, path) == name + " " + (target + " HTTP/" + c.version)
    ensures RequestLine(c, m, path) == (name + " ") + (target + " HTTP/" + c.version)
  {
    hide Target, MethodName;
    assert name + " " + target + " HTTP/" + c.version == name + " " + (target + " HTTP/" + c.version);
  }

  /** `%s` stops at a NUL: what is behind one in a key, a value, a path or a version is not sent. */
  lemma NulCuts(c: Client, m: Method, key: string, value: string, path: string, behind: string)
    requires '\0' !in key && '\0' !in value && '\0' !in path && path != "" && '\0' !in c.version
    ensures WriteFields([(key + "\0" + behind, value)]) == WriteFields([(key, value)])
    ensures WriteFields([(key, value + "\0" + behind)]) == WriteFields([(key, value)])
    ensures RequestLine(c, m, path + "\0" + behind) == RequestLine(c, m, path)
    ensures RequestLine(c.(version := c.version + "\0" + behind), m, path) == RequestLine(c, m, path)
  {
    NulEnds(key, behind);
    NulEnds(value, behind);
    NulEnds(c.version, behind);
    WriteOne((key + "\0" + behind, value));
    WriteOne((key, value + "\0" + behind));
    WriteOne((key, value));
    NulInTarget(c, path, behind);
    hide Target, CStr, Clip, WriteFields, MethodName;
  }

  lemma NulInTarget(c: Client, path: string, behind: string)
    requires path != "" && '\0' !in path
    ensures CStr(Target(c, path + "\0" + behind)) == CStr(Target(c, path))
    ensures Target(c.(version := c.version + "\0" + behind), path) == Target(c, path)
  {
    var target := Target(c, path);
    assert Target(c, path + "\0" + behind) == target + "\0" + behind;
    NulEnds(target, behind);
  }

  lemma NulEnds(s: string, behind: string)
    requires '\0' !in s
    ensures CStr(s + "\0" + behind) == s == CStr(s)
  {
    IndexOfIs(s + "\0" + behind, '\0', |s|);
    assert (s + "\0" + behind)[..|s|] == s;
  }

  /** Without a path of the caller, the URI's own text behind the host is asked for, or `/`. */
  lemma DefaultTarget(c: Client, m: Method)
    ensures var full := Uri.FullPath(c.uri);
      RequestLine(c, m, "") == RequestLine(c, m, if full == "" then "/" else full)
  {
  }

  /** Chunked is a value of Transfer-Encoding, in any case of its letters. */
  lemma IsChunkedIff(c: Client)
    ensures IsChunked(c)
      <==> ("Transfer-Encoding" in c.headers && SameButCase(CStr(c.headers["Transfer-Encoding"]), "chunked"))
  {
    if "Transfer-Encoding" in c.headers {
      var value := CStr(c.headers["Transfer-Encoding"]);
      LowerIsFolded("chunked", "chunked");
      LowerSameButCase(value, "chunked");
    }
  }

  /** The headers a server sees, key by key. */
  lemma SeenByName(c: Client, key: string)
    ensures var seen := SeenHeaders(c);
      var sized := c.content != "" && !IsChunked(c);
      && (sized && key == "Content-Size" ==> key in seen && seen[key] == Decimal(|c.content|))
      && (!(sized && key == "Content-Size") ==>
            && (key in c.headers ==> key in seen && seen[key] == c.headers[key])
            && (key !in c.headers ==>
                  && (key == "Host" ==> key in seen && seen[key] == c.uri.host)
                  && (key == "Accept" ==> key in seen && seen[key] == "*/*")
                  && (key == "Connection" ==> key in seen && seen[key] == "close")
                  && (key in seen ==> key == "Host" || key == "Accept" || key == "Connection")))
  {
    hide IsChunked, Decimal;
    AssignDefaults(c, key);
  }

  lemma AssignDefaults(c: Client, key: string)
    ensures var d := Assign(map[], Defaults(c));
      && (key in d <==> key !in c.headers && (key == "Host" || key == "Accept" || key == "Connection"))
      && (key in d ==> d[key] == if key == "Host" then c.uri.host else if key == "Accept" then "*/*" else "close")
  {
    var a := Missing(c, "Host", c.uri.host);
    var b := Missing(c, "Accept", "*/*");
    var d := Missing(c, "Connection", "close");
    AssignConcat(map[], a + b, d);
    AssignConcat(map[], a, b);
    assert "Host"[0] == 'H' && "Accept"[0] == 'A' && "Connection"[0] == 'C';
  }

  /** The text of a request of plain fields without defaults set by the client: each line in its place. */
  lemma RequestTextOf(c: Client, m: Method, userPath: string)
    requires forall i :: 0 <= i < |RequestFields(c)| ==> IsPlainField(RequestFields(c)[i])
    requires "Host" !in c.headers && "Accept" !in c.headers && "Connection" !in c.headers
    ensures RequestText(c, m, userPath) ==
      RequestLine(c, m, userPath) + "\r\n"
      + ("Host: " + c.uri.host + "\r\n" + ("Accept: */*\r\n" + ("Connection: close\r\n"
      + (PrintFields(Entries(c.headers))
      + (if c.content != "" && !IsChunked(c) then "Content-Size: " + Decimal(|c.content|) + "\r\n" else "")))))
      + "\r\n" + c.content
  {
    PlainFieldsAreWritten(RequestFields(c));
    RequestTextIs(c, m, userPath);
    PrintOfRequest(c);
    hide RequestLine, RequestText, RequestFields, IsChunked, Decimal, IsPlainField, Entries, PrintFields, WriteFields;
  }

  lemma PrintOfRequest(c: Client)
    requires "Host" !in c.headers && "Accept" !in c.headers && "Connection" !in c.headers
    ensures PrintFields(RequestFields(c)) ==
      "Host: " + c.uri.host + "\r\n" + ("Accept: */*\r\n" + ("Connection: close\r\n"
      + (PrintFields(Entries(c.headers))
      + (if c.content != "" && !IsChunked(c) then "Content-Size: " + Decimal(|c.content|) + "\r\n" else ""))))
  {
    hide IsChunked, Decimal, Entries, PrintFields;
    var host, accept, close := ("Host", c.uri.host), ("Accept", "*/*"), ("Connection", "close");
    var es, size := Entries(c.headers), SizeField(c);
    assert RequestFields(c) == [host] + ([accept] + ([close] + (es + size)));
    PrintOne(host, [accept] + ([close] + (es + size)));
    PrintOne(accept, [close] + (es + size));
    PrintOne(close, es + size);
    PrintConcat(es, size);
    PrintSize(c);
    hide SizeField, RequestFields;
    assert "Accept" + ": " + "*/*" + "\r\n" == "Accept: */*\r\n";
    assert "Connection" + ": " + "close" + "\r\n" == "Connection: close\r\n";
    assert "Host" + ": " == "Host: ";
  }

  lemma PrintSize(c: Client)
    ensures PrintFields(SizeField(c)) ==
      if c.content != "" && !IsChunked(c) then "Content-Size: " + Decimal(|c.content|) + "\r\n" else ""
  {
    hide IsChunked, Decimal, PrintFields;
    PrintOne(("Content-Size", Decimal(|c.content|)), []);
    assert [("Content-Size", Decimal(|c.content|))] + [] == [("Content-Size", Decimal(|c.content|))];
    var line := "Content-Size: " + Decimal(|c.content|) + "\r\n";
    assert "Content-Size" + ": " + Decimal(|c.content|) + "\r\n" + "" == line;
  }

  lemma PrintOne(e: Entry, es: seq<Entry>)
    ensures PrintFields([e] + es) == e.0 + ": " + e.1 + "\r\n" + PrintFields(es)
    ensures PrintFields([]) == ""
  {
    assert ([e] + es)[1..] == es;
  }

  lemma {:induction false} PrintConcat(a: seq<Entry>, b: seq<Entry>)
    ensures PrintFields(a + b) == PrintFields(a) + PrintFields(b)
  {
    hide FieldLine;
    if a == [] {
      assert a + b == b;
    } else {
      assert (a + b)[1..] == a[1..] + b;
      PrintConcat(a[1..], b);
    }
  }

  /** Host, Accept and Connection are each sent exactly once, whether the client set them or not. */
  lemma DefaultsOnce(c: Client, key: string)
    requires key == "Host" || key == "Accept" || key == "Connection"
    ensures Count(RequestFields(c), key) == 1 && key in SeenHeaders(c)
  {
    hide Entries, Decimal, IsChunked;
    CountConcat(Defaults(c) + Entries(c.headers), SizeField(c), key);
    CountConcat(Defaults(c), Entries(c.headers), key);
    CountEntries(c.headers, key);
    CountDefaults(c, key);
    assert "Content-Size"[0] == 'C' && "Content-Size"[3] == 't' && "Connection"[3] == 'n';
    assert Count(SizeField(c), key) == 0;
  }

  lemma CountDefaults(c: Client, key: string)
    requires key == "Host" || key == "Accept" || key == "Connection"
    ensures Count(Defaults(c), key) == if key in c.headers then 0 else 1
    ensures key in c.headers || key in Assign(map[], Defaults(c))
  {
    var a := Missing(c, "Host", c.uri.host);
    var b := Missing(c, "Accept", "*/*");
    var d := Missing(c, "Connection", "close");
    CountConcat(a + b, d, key);
    CountConcat(a, b, key);
    AssignConcat(map[], a + b, d);
    AssignConcat(map[], a, b);
    assert "Host"[0] == 'H' && "Accept"[0] == 'A' && "Connection"[0] == 'C';
  }
}
