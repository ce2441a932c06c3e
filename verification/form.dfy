/**
 Form encoding of a map, src/encoders.cpp: `encoding::url::encode` and `encoding::url::decode`.
 */
module Form {
  import opened Bytes
  import opened StdMap
  import Percent

  /** `key=value` pairs with `&` between them, before percent encoding. */
  function Pairs(es: seq<Entry>): string {
    if es == [] then ""
    else es[0].0 + "=" + es[0].1 + (if |es| == 1 then "" else "&" + Pairs(es[1..]))
  }

  ghost predicate BytesOnly(m: map<string, string>) {
    forall k :: k in m ==> Percent.IsBytes(k) && Percent.IsBytes(m[k])
  }

  /** Keys without `=` and `&`, values without `&`. */
  ghost predicate DelimiterFree(m: map<string, string>) {
    forall k :: k in m ==> '=' !in k && '&' !in k && '&' !in m[k]
  }

  /** Splitting at every `&` and at the first `=` of each pair. */
  function Parse(s: string): map<string, string>
    decreases |s|
  {
    if s == "" then map[]
    else
      var a := IndexOf(s, '&');
      var e := IndexOf(s[..a], '=');
      var key, value := s[..e], if e == a then "" else s[e + 1..a];
      (if a == |s| then map[] else Parse(s[a + 1..]))[key := value]
  }

  lemma ParsePair(k: string, v: string, rest: string)
    requires '=' !in k && '&' !in k && '&' !in v
    ensures Parse(k + "=" + v) == map[k := v]
    ensures Parse(k + "=" + v + "&" + rest) == Parse(rest)[k := v]
  {
    var s, t := k + "=" + v, k + "=" + v + "&" + rest;
    IndexOfIs(s, '&', |s|);
    IndexOfIs(t, '&', |s|);
    assert t[..|s|] == s == s[..|s|];
    IndexOfIs(s, '=', |k|);
    assert s[..|k|] == t[..|k|] == k;
    assert s[|k| + 1..|s|] == t[|k| + 1..|s|] == v;
    assert t[|s| + 1..] == rest;
  }

  /** The text of two pairs, before and after percent encoding. */
  lemma EncodeTwo(k: string, v: string, k2: string, v2: string)
    requires Percent.IsBytes(k) && Percent.IsBytes(v) && Percent.IsBytes(k2) && Percent.IsBytes(v2)
    ensures var text := Pairs([(k, v), (k2, v2)]);
      && text == k + "=" + v + "&" + (k2 + "=" + v2)
      && Percent.IsBytes(text)
      && Percent.Encode(text) == Percent.Encode(k) + "%3D" + Percent.Encode(v) + "%26"
                                 + (Percent.Encode(k2) + "%3D" + Percent.Encode(v2))
  {
    PairsStep(k, v, [(k2, v2)]);
    PairsStep(k2, v2, []);
    assert [(k, v)] + [(k2, v2)] == [(k, v), (k2, v2)] && [(k2, v2)] + [] == [(k2, v2)];
    assert k2 + "=" + v2 + "" == k2 + "=" + v2;
    hide Percent.Encode, Pairs;
    EncodedDelimiters();
    EncodePair(k, v);
    EncodePair(k2, v2);
    Percent.EncodeConcat(k + "=" + v, "&");
    Percent.EncodeConcat(k + "=" + v + "&", k2 + "=" + v2);
  }

  lemma EncodePair(k: string, v: string)
    requires Percent.IsBytes(k) && Percent.IsBytes(v)
    ensures Percent.IsBytes(k + "=" + v)
    ensures Percent.Encode(k + "=" + v) == Percent.Encode(k) + "%3D" + Percent.Encode(v)
  {
    hide Percent.Encode;
    EncodedDelimiters();
    Percent.EncodeConcat(k, "=");
    Percent.EncodeConcat(k + "=", v);
  }

  lemma EncodedDelimiters()
    ensures Percent.IsBytes("=") && Percent.Encode("=") == "%3D"
    ensures Percent.IsBytes("&") && Percent.Encode("&") == "%26"
  {
    Percent.EncodeByCode('=', "");
    Percent.EncodeByCode('&', "");
    assert ['='] + "" == "=" && ['&'] + "" == "&";
    assert Percent.Encode("") == "";
    hide Percent.Encode;
    assert ['%', '3', 'D'] + "" == "%3D" && ['%', '2', '6'] + "" == "%26";
  }

  /** Splitting the joined entries of a map gives the map back, whatever its size. */
  lemma {:induction false} ParsePairs(m: map<string, string>)
    requires DelimiterFree(m)
    ensures Parse(Pairs(Entries(m))) == m
    decreases |m|
  {
    hide Entries, IsLeast, Parse;
    NoEntries();
    ParseNothing();
    if m != map[] {
      var k := FirstEntry(m);
      var rest := m - {k};
      ParsePairs(rest);
      ParsePair(k, m[k], Pairs(Entries(rest)));
      PairsStep(k, m[k], Entries(rest));
      assert rest == map[] <==> |Entries(rest)| == 0;
    }
  }

  lemma PairsStep(k: string, v: string, es: seq<Entry>)
    ensures Pairs([(k, v)] + es) == k + "=" + v + (if es == [] then "" else "&" + Pairs(es))
    ensures es != [] ==> k + "=" + v + "&" + Pairs(es) == Pairs([(k, v)] + es)
    ensures es == [] ==> k + "=" + v == Pairs([(k, v)] + es)
  {
    assert ([(k, v)] + es)[1..] == es;
  }

  lemma ParseNothing()
    ensures Parse("") == map[]
  {
  }

  lemma {:induction false} PairsAreBytes(es: seq<Entry>)
    requires forall i :: 0 <= i < |es| ==> Percent.IsBytes(es[i].0) && Percent.IsBytes(es[i].1)
    ensures Percent.IsBytes(Pairs(es))
  {
    if es != [] {
      PairsAreBytes(es[1..]);
    }
  }

  lemma EntriesAreBytes(m: map<string, string>)
    requires BytesOnly(m)
    ensures Percent.IsBytes(Pairs(Entries(m)))
  {
    EntriesSorted(m);
    PairsAreBytes(Entries(m));
  }

  /** encoding::url::encode of a map. */
  ghost function Encode(m: map<string, string>): string
    requires BytesOnly(m)
  {
    EntriesAreBytes(m);
    Percent.Encode(Pairs(Entries(m)))
  }

  /** The encoded form determines the map: undo the percent encoding and split. */
  lemma EncodeIsInvertible(m: map<string, string>)
    requires BytesOnly(m) && DelimiterFree(m)
    ensures Percent.IsBytes(Encode(m)) && Parse(Percent.Decode(Encode(m))) == m
  {
    EntriesAreBytes(m);
    Percent.DecodeEncode(Pairs(Entries(m)));
    ParsePairs(m);
  }

  lemma EncodeInjective(a: map<string, string>, b: map<string, string>)
    requires BytesOnly(a) && DelimiterFree(a) && BytesOnly(b) && DelimiterFree(b)
    requires Encode(a) == Encode(b)
    ensures a == b
  {
    EncodeIsInvertible(a);
    EncodeIsInvertible(b);
  }

  method EncodeMap(from: map<string, string>) returns (to: string)
    requires BytesOnly(from)
    ensures to == Encode(from)
  {
    hide Entries, Pairs, Percent.IsBytes, IsLeast, BytesOnly;
    var buf := "";
    var rest := from;
    EntriesAreBytes(from);
    NoEntries();
    NoPairs();
    while rest != map[]
      invariant rest.Keys <= from.Keys
      invariant buf + (if rest == map[] then "" else Pairs(Entries(rest))) == Pairs(Entries(from))
      decreases |rest|
    {
      LeastExists(rest.Keys);
      var k :| k in rest.Keys && IsLeast(k, rest.Keys);
      EntriesStep(rest, k);
      ghost var before, v := buf, rest[k];
      buf := buf + k;
      buf := buf + "=";
      buf := buf + rest[k];
      rest := rest - {k};
      PairsStep(k, v, Entries(rest));
      if rest != map[] {
        buf := buf + "&";
        assert before + (k + "=" + v + "&" + Pairs(Entries(rest))) == buf + Pairs(Entries(rest));
      } else {
        assert before + (k + "=" + v) == buf + "";
      }
    }
    assert buf + "" == buf;
    to := Percent.EncodeString(buf);
  }

  lemma NoPairs()
    ensures Pairs([]) == ""
  {
  }

  // ---------- decoding to a map ----------

  /** std::string::substr(first, count). */
  function Substr(s: string, first: nat, count: nat): string
    requires first <= |s|
  {
    if first + count <= |s| then s[first..first + count] else s[first..]
  }

  /** The loop of url::decode, which passes end positions as counts: `pos` is at a `=` or the end. */
  function DecodeFrom(from: string, last: nat, pos: nat, to: map<string, string>): map<string, string>
    requires last <= pos <= |from| && (pos < |from| ==> from[pos] == '=')
    decreases |from| - pos
  {
    if pos == |from| then to
    else
      var next := IndexFrom(from, '&', pos);
      DecodeFrom(from, next, IndexFrom(from, '=', next),
                 to[Substr(from, last, pos) := Substr(from, pos + 1, next)])
  }

  function Decode(from: string): map<string, string> {
    DecodeFrom(from, 0, IndexOf(from, '='), map[])
  }

  method DecodeMap(from: string) returns (to: map<string, string>)
    ensures to == Decode(from)
  {
    to := map[];
    var pos := IndexOf(from, '=');
    var last := 0;
    while pos != |from|
      invariant 0 <= last <= pos <= |from| && (pos < |from| ==> from[pos] == '=')
      invariant DecodeFrom(from, last, pos, to) == Decode(from)
      decreases |from| - pos
    {
      var key := Substr(from, last, pos);
      last := IndexFrom(from, '&', pos);
      to := to[key := Substr(from, pos + 1, last)];
      pos := IndexFrom(from, '=', last);
    }
  }

  lemma {:induction false} NoEqualsSign(s: string)
    requires Percent.IsBytes(s)
    ensures '=' !in Percent.Encode(s)
  {
    if s != "" {
      NoEqualsSign(s[1..]);
    }
  }

  /** The library's own decoder undoes its encoder on the empty map only: it does not undo the
      percent encoding, so it never finds a `=`. */
  lemma DecodeEncodeIff(m: map<string, string>)
    requires BytesOnly(m)
    ensures Decode(Encode(m)) == m <==> m == map[]
  {
    EntriesAreBytes(m);
    NoEqualsSign(Pairs(Entries(m)));
    IndexOfIs(Encode(m), '=', |Encode(m)|);
  }

  /** On the joined text itself it gives back maps of at most one entry. */
  lemma DecodePairsIff(m: map<string, string>)
    requires DelimiterFree(m)
    ensures Decode(Pairs(Entries(m))) == m <==> |m| <= 1
  {
    hide Entries, IsLeast, Pairs, IndexOf, DecodeFrom;
    NoEntries();
    NoPairs();
    if m == map[] {
      DecodeNothing("");
    } else {
      var k := FirstEntry(m);
      var v, rest := m[k], Entries(m - {k});
      PairsStep(k, v, rest);
      if |m| == 1 {
        DecodeOne(k, v);
        assert rest == [];
        assert m - {k} == map[];
      } else {
        var k2 := FirstEntry(m - {k});
        PairsStep(k2, m[k2], Entries(m - {k} - {k2}));
        DecodeMore(k, v, Pairs(rest));
      }
    }
  }

  /** What becomes of two pairs: the first value runs over, the second key keeps its delimiter. */
  lemma DecodeTwoWitness()
    ensures Decode("a=b&c=d") == map["a" := "b&c", "&c=d" := "d"]
  {
    var s := "a=b&c=d";
    IndexOfIs(s, '=', 1);
    IndexOfIs(s[1..], '&', 2);
    IndexOfIs(s[3..], '=', 2);
    IndexOfIs(s[5..], '&', 2);
    IndexOfIs(s[7..], '=', 0);
    hide IndexOf, DecodeFrom;
    assert IndexFrom(s, '&', 1) == 3 && IndexFrom(s, '=', 3) == 5;
    assert IndexFrom(s, '&', 5) == 7 && IndexFrom(s, '=', 7) == 7;
    hide IndexFrom;
    assert s[0..1] == "a" && s[2..5] == "b&c" && s[3..7] == "&c=d" && s[6..] == "d";
    DecodeRound(s, 0, 1, map[]);
    DecodeRound(s, 3, 5, map["a" := "b&c"]);
    DecodeRound(s, 7, 7, map["a" := "b&c", "&c=d" := "d"]);
  }

  /** One round of the loop. */
  lemma DecodeRound(from: string, last: nat, pos: nat, to: map<string, string>)
    requires last <= pos <= |from| && (pos < |from| ==> from[pos] == '=')
    ensures DecodeFrom(from, last, pos, to) ==
      if pos == |from| then to
      else
        var next := IndexFrom(from, '&', pos);
        DecodeFrom(from, next, IndexFrom(from, '=', next),
                   to[Substr(from, last, pos) := Substr(from, pos + 1, next)])
  {
  }

  lemma DecodeNothing(s: string)
    requires '=' !in s
    ensures Decode(s) == map[]
  {
    IndexOfIs(s, '=', |s|);
  }

  lemma DecodeOne(k: string, v: string)
    requires '=' !in k && '&' !in k && '&' !in v
    ensures Decode(k + "=" + v) == map[k := v]
  {
    var s := k + "=" + v;
    IndexOfIs(s, '=', |k|);
    IndexOfIs(s[|k|..], '&', |s| - |k|);
    assert Substr(s, 0, |k|) == k && Substr(s, |k| + 1, |s|) == v;
    assert DecodeFrom(s, 0, |k|, map[]) == DecodeFrom(s, |s|, IndexFrom(s, '=', |s|), map[k := v]);
  }

  /** The first value runs over into the next pair. */
  lemma DecodeMore(k: string, v: string, more: string)
    requires '=' !in k && '&' !in k && '&' !in v && more != ""
    ensures var r := Decode(k + "=" + v + "&" + more); k in r && r[k] != v
  {
    var s := k + "=" + v + "&" + more;
    FirstPairAt(s, k, v, more);
    hide IndexOf, IndexFrom;
    FirstValueRunsOver(s, |k|, |k| + 1 + |v|);
    assert s[..|k|] == k;
    hide Decode;
    var i :| 0 <= i < |Decode(s)[k]| && Decode(s)[k][i] == '&';
    assert Decode(s)[k][i] == '&';
  }

  lemma FirstPairAt(s: string, k: string, v: string, more: string)
    requires '=' !in k && '&' !in v && s == k + "=" + v + "&" + more
    ensures IndexOf(s, '=') == |k| && IndexFrom(s, '&', |k|) == |k| + 1 + |v|
  {
    IndexOfIs(s, '=', |k|);
    assert s[|k|..] == "=" + v + "&" + more;
    IndexOfIs(s[|k|..], '&', 1 + |v|);
  }

  lemma FirstValueRunsOver(s: string, p: nat, amp: nat)
    requires p == IndexOf(s, '=') < |s| && amp == IndexFrom(s, '&', p) && amp + 1 < |s|
    requires forall i :: 0 <= i < p ==> s[i] != '&'
    ensures var r := Decode(s); s[..p] in r && exists i :: 0 <= i < |r[s[..p]]| && r[s[..p]][i] == '&'
  {
    var got := Substr(s, p + 1, amp);
    assert got[amp - p - 1] == s[amp];
    assert Substr(s, 0, p) == s[..p];
    LaterKeysDiffer(s, amp, IndexFrom(s, '=', amp), map[s[..p] := got], s[..p]);
    hide DecodeFrom, Substr;
    assert Decode(s)[s[..p]] == got by { DecodeFirst(s, p, amp); }
  }

  lemma DecodeFirst(s: string, p: nat, amp: nat)
    requires p == IndexOf(s, '=') < |s| && amp == IndexFrom(s, '&', p)
    ensures Decode(s) == DecodeFrom(s, amp, IndexFrom(s, '=', amp), map[Substr(s, 0, p) := Substr(s, p + 1, amp)])
  {
  }

  /** From the second round on every key starts with a `&`. */
  lemma {:induction false} LaterKeysDiffer(from: string, last: nat, pos: nat, to: map<string, string>, k: string)
    requires last <= pos <= |from| && (pos < |from| ==> from[pos] == '=')
    requires last < |from| ==> 0 < pos && from[last] == '&'
    requires k in to && '&' !in k
    ensures var r := DecodeFrom(from, last, pos, to); k in r && r[k] == to[k]
    decreases |from| - pos
  {
    if pos < |from| {
      var key, next := Substr(from, last, pos), IndexFrom(from, '&', pos);
      assert key[0] == '&';
      LaterKeysDiffer(from, next, IndexFrom(from, '=', next), to[key := Substr(from, pos + 1, next)], k);
    }
  }
}
