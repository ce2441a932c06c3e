/**
 std::map<std::string, std::string>: a map that is visited in the order of its keys.
 `Entries` is the sequence an iteration from begin() to end() yields.
 */
module StdMap {

  /** std::string's operator<, on unsigned bytes. */
  predicate Less(a: string, b: string) {
    b != "" && (a == "" || a[0] < b[0] || (a[0] == b[0] && Less(a[1..], b[1..])))
  }

  /** `a` is a proper prefix of `b`, or has the smaller code where they differ first. */
  ghost predicate Before(a: string, b: string) {
    exists i :: 0 <= i <= |a| && DiffersAt(a, b, i)
  }

  predicate DiffersAt(a: string, b: string, i: nat) {
    i <= |a| && i < |b| && a[..i] == b[..i] && (i == |a| || a[i] as int < b[i] as int)
  }

  lemma FirstEqual(a: string, b: string, i: nat)
    ensures i > 0 && DiffersAt(a, b, i) ==> a != "" && b != "" && a[0] == b[0]
  {
    if i > 0 && DiffersAt(a, b, i) {
      assert a[0] == a[..i][0] == b[..i][0] == b[0];
    }
  }

  lemma {:induction false} LessIff(a: string, b: string)
    ensures Less(a, b) <==> Before(a, b)
  {
    if b == "" || a == "" || a[0] != b[0] {
      assert b != "" && (a == "" || a[0] as int < b[0] as int) ==> DiffersAt(a, b, 0);
      if i :| 0 <= i <= |a| && DiffersAt(a, b, i) {
        FirstEqual(a, b, i);
      }
    } else {
      LessIff(a[1..], b[1..]);
      if i :| 0 <= i <= |a| - 1 && DiffersAt(a[1..], b[1..], i) {
        assert a[..i + 1] == [a[0]] + a[1..][..i] && b[..i + 1] == [b[0]] + b[1..][..i];
        assert DiffersAt(a, b, i + 1);
      }
      if i :| 0 <= i <= |a| && DiffersAt(a, b, i) {
        assert a[1..][..i - 1] == a[..i][1..] && b[1..][..i - 1] == b[..i][1..];
        assert DiffersAt(a[1..], b[1..], i - 1);
      }
    }
  }

  lemma {:induction false} LessTransitive(a: string, b: string, c: string)
    requires Less(a, b) && Less(b, c)
    ensures Less(a, c)
  {
    if a != "" && a[0] == b[0] && b[0] == c[0] {
      LessTransitive(a[1..], b[1..], c[1..]);
    }
  }

  lemma {:induction false} LessTotal(a: string, b: string)
    ensures a == b || Less(a, b) || Less(b, a)
    ensures !(Less(a, b) && Less(b, a)) && !Less(a, a)
  {
    if a != "" {
      LessTotal(a[1..], a[1..]);
      if b != "" {
        LessTotal(a[1..], b[1..]);
        assert a == [a[0]] + a[1..] && b == [b[0]] + b[1..];
      }
    }
  }

  predicate IsLeast(k: string, s: set<string>) {
    k in s && forall x :: x in s ==> x == k || Less(k, x)
  }

  lemma {:induction false} LeastExists(s: set<string>)
    requires s != {}
    ensures exists k :: k in s && IsLeast(k, s)
    decreases |s|
  {
    var x :| x in s;
    var rest := s - {x};
    if rest == {} {
      assert s == {x};
      assert x in s && IsLeast(x, s);
    } else {
      LeastExists(rest);
      var k :| k in rest && IsLeast(k, rest);
      LessTotal(x, k);
      if Less(x, k) {
        forall y | y in s ensures y == x || Less(x, y) {
          if y != x && y != k {
            LessTransitive(x, k, y);
          }
        }
        assert x in s && IsLeast(x, s);
      } else {
        assert k in s && IsLeast(k, s);
      }
    }
  }

  lemma LeastUnique(a: string, b: string, s: set<string>)
    requires IsLeast(a, s) && IsLeast(b, s)
    ensures a == b
  {
    LessTotal(a, b);
  }

  ghost function Least(s: set<string>): (k: string)
    requires s != {}
    ensures IsLeast(k, s)
  {
    LeastExists(s);
    var k :| k in s && IsLeast(k, s);
    k
  }

  type Entry = (string, string)

  ghost function Entries(m: map<string, string>): (es: seq<Entry>)
    ensures |es| == |m|
    decreases |m|
  {
    if m == map[] then []
    else
      var k := Least(m.Keys);
      var rest := m - {k};
      assert rest.Keys == m.Keys - {k};
      assert |rest.Keys| == |m.Keys| - 1;
      [(k, m[k])] + Entries(rest)
  }

  /** One step of the iteration: the least key comes first. */
  lemma EntriesStep(m: map<string, string>, k: string)
    requires IsLeast(k, m.Keys)
    ensures Entries(m) == [(k, m[k])] + Entries(m - {k})
    ensures |m - {k}| == |m| - 1 && (m - {k}).Keys == m.Keys - {k}
    ensures m == (m - {k})[k := m[k]]
  {
    LeastUnique(k, Least(m.Keys), m.Keys);
    assert (m - {k}).Keys == m.Keys - {k};
    assert |(m - {k}).Keys| == |m.Keys| - 1;
  }

  lemma FirstEntry(m: map<string, string>) returns (k: string)
    requires m != map[]
    ensures IsLeast(k, m.Keys)
    ensures Entries(m) == [(k, m[k])] + Entries(m - {k})
    ensures |m - {k}| == |m| - 1 && (m - {k}).Keys == m.Keys - {k}
    ensures m == (m - {k})[k := m[k]]
  {
    k := Least(m.Keys);
    EntriesStep(m, k);
  }

  lemma NoEntries()
    ensures Entries(map[]) == []
  {
  }

  /** Assigning a list of entries to a map, one after the other. */
  function Assign(m: map<string, string>, es: seq<Entry>): map<string, string>
    decreases |es|
  {
    if es == [] then m else Assign(m[es[0].0 := es[0].1], es[1..])
  }

  lemma {:induction false} AssignConcat(m: map<string, string>, a: seq<Entry>, b: seq<Entry>)
    ensures Assign(m, a + b) == Assign(Assign(m, a), b)
    decreases |a|
  {
    if a == [] {
      assert a + b == b;
    } else {
      assert (a + b)[1..] == a[1..] + b;
      AssignConcat(m[a[0].0 := a[0].1], a[1..], b);
    }
  }

  /** Assigning the entries of a map merges it in. */
  lemma {:induction false} AssignEntries(base: map<string, string>, m: map<string, string>)
    ensures Assign(base, Entries(m)) == base + m
    decreases |m|
  {
    hide Entries, IsLeast, Assign;
    NoEntries();
    if m == map[] {
      AssignNothing(base);
      assert base + m == base;
    } else {
      var k := FirstEntry(m);
      AssignEntries(base[k := m[k]], m - {k});
      AssignFirst(base, k, m[k], Entries(m - {k}));
      MergeStep(base, m, k);
    }
  }

  lemma MergeStep(base: map<string, string>, m: map<string, string>, k: string)
    requires k in m
    ensures base[k := m[k]] + (m - {k}) == base + m
  {
  }

  lemma AssignNothing(m: map<string, string>)
    ensures Assign(m, []) == m
  {
  }

  lemma AssignFirst(m: map<string, string>, k: string, v: string, es: seq<Entry>)
    ensures Assign(m, [(k, v)] + es) == Assign(m[k := v], es)
  {
    assert ([(k, v)] + es)[1..] == es;
  }

  /** The entries are those of the map, in strictly ascending order of the keys. */
  lemma {:induction false} EntriesSorted(m: map<string, string>)
    ensures forall i :: 0 <= i < |Entries(m)| ==>
      Entries(m)[i].0 in m && m[Entries(m)[i].0] == Entries(m)[i].1
    ensures forall i, j :: 0 <= i < j < |Entries(m)| ==> Less(Entries(m)[i].0, Entries(m)[j].0)
    decreases |m|
  {
    hide Entries, Less, IsLeast;
    NoEntries();
    if m != map[] {
      var k := FirstEntry(m);
      var rest := Entries(m - {k});
      EntriesSorted(m - {k});
      forall i | 0 <= i < |rest| ensures Less(k, rest[i].0) {
        assert rest[i].0 in m - {k};
        LeastIsLess(k, rest[i].0, m.Keys);
      }
      ConsSorted(m, k, rest);
    }
  }

  lemma ConsSorted(m: map<string, string>, k: string, rest: seq<Entry>)
    requires k in m
    requires forall i :: 0 <= i < |rest| ==> rest[i].0 in m - {k} && (m - {k})[rest[i].0] == rest[i].1
    requires forall i :: 0 <= i < |rest| ==> Less(k, rest[i].0)
    requires forall i, j :: 0 <= i < j < |rest| ==> Less(rest[i].0, rest[j].0)
    ensures var es := [(k, m[k])] + rest;
      && (forall i :: 0 <= i < |es| ==> es[i].0 in m && m[es[i].0] == es[i].1)
      && (forall i, j :: 0 <= i < j < |es| ==> Less(es[i].0, es[j].0))
  {
    hide Less;
  }

  lemma LeastIsLess(k: string, x: string, s: set<string>)
    requires IsLeast(k, s) && x in s && x != k
    ensures Less(k, x)
  {
  }

  /** How often a key occurs. */
  function Count(es: seq<Entry>, k: string): nat {
    if es == [] then 0 else (if es[0].0 == k then 1 else 0) + Count(es[1..], k)
  }

  lemma {:induction false} CountConcat(a: seq<Entry>, b: seq<Entry>, k: string)
    ensures Count(a + b, k) == Count(a, k) + Count(b, k)
  {
    if a == [] {
      assert a + b == b;
    } else {
      assert (a + b)[1..] == a[1..] + b;
      CountConcat(a[1..], b, k);
    }
  }

  lemma {:induction false} CountEntries(m: map<string, string>, k: string)
    ensures Count(Entries(m), k) == if k in m then 1 else 0
    decreases |m|
  {
    hide Entries, IsLeast;
    NoEntries();
    if m != map[] {
      var least := FirstEntry(m);
      CountEntries(m - {least}, k);
    }
  }
}
