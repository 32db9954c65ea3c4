/** String library facts the rest of the model rests on: splitting and joining at a
    one-character separator, and the byte order Go and bbolt sort keys by.
    A `string` here is a Go string or byte key: a sequence of code units. */
module Text {

  /** `strings.Split(s, sep)` in Go and `s.split(sep)` in TypeScript, for a one-character separator. */
  function Split(s: string, sep: char): (parts: seq<string>)
    ensures |parts| > 0
  {
    if s == "" then [""]
    else
      var rest := Split(s[1..], sep);
      if s[0] == sep then [""] + rest else [[s[0]] + rest[0]] + rest[1..]
  }

  function Join(parts: seq<string>, sep: char): string
    requires |parts| > 0
  {
    if |parts| == 1 then parts[0] else parts[0] + [sep] + Join(parts[1..], sep)
  }

  ghost predicate Free(parts: seq<string>, sep: char) {
    forall p | p in parts :: sep !in p
  }

  lemma {:induction false} SplitIsFree(s: string, sep: char)
    ensures Free(Split(s, sep), sep)
  {
    if s != "" {
      SplitIsFree(s[1..], sep);
    }
  }

  lemma {:induction false} JoinSplit(s: string, sep: char)
    ensures Join(Split(s, sep), sep) == s
  {
    if s != "" {
      var rest := Split(s[1..], sep);
      JoinSplit(s[1..], sep);
      if s[0] == sep {
        assert Split(s, sep)[1..] == rest;
      } else {
        assert Split(s, sep)[1..] == rest[1..];
      }
    }
  }

  lemma {:induction false} SplitPrefix(p: string, t: string, sep: char)
    requires sep !in p
    ensures Split(p + [sep] + t, sep) == [p] + Split(t, sep)
  {
    var s := p + [sep] + t;
    if p == "" {
      assert s[1..] == t;
    } else {
      assert s[1..] == p[1..] + [sep] + t;
      SplitPrefix(p[1..], t, sep);
      assert p == [p[0]] + p[1..];
    }
  }

  lemma {:induction false} SplitFreeString(p: string, sep: char)
    requires sep !in p
    ensures Split(p, sep) == [p]
  {
    if p != "" {
      SplitFreeString(p[1..], sep);
      assert p == [p[0]] + p[1..];
    }
  }

  lemma {:induction false} SplitJoin(parts: seq<string>, sep: char)
    requires |parts| > 0 && Free(parts, sep)
    ensures Split(Join(parts, sep), sep) == parts
  {
    if |parts| == 1 {
      SplitFreeString(parts[0], sep);
    } else {
      SplitJoin(parts[1..], sep);
      SplitPrefix(parts[0], Join(parts[1..], sep), sep);
    }
  }

  /** Strict lexicographic order of code units: the order of `sort.Strings` and of bbolt's cursors. */
  predicate Before(a: string, b: string) {
    if b == "" then false
    else if a == "" then true
    else a[0] < b[0] || (a[0] == b[0] && Before(a[1..], b[1..]))
  }

  ghost predicate DifferAt(a: string, b: string, i: int) {
    0 <= i < |a| && i < |b| && a[..i] == b[..i] && a[i] < b[i]
  }

  /** The shorter of two strings comes first when it begins the longer one; otherwise the first difference decides. */
  lemma {:induction false} BeforeAtFirstDifference(a: string, b: string)
    ensures Before(a, b) <==> a < b || exists i :: DifferAt(a, b, i)
  {
    if a != "" && b != "" && a[0] == b[0] {
      BeforeAtFirstDifference(a[1..], b[1..]);
      assert a == [a[0]] + a[1..] && b == [b[0]] + b[1..];
      if i :| DifferAt(a, b, i) {
        assert a[..i][1..] == a[1..][..i - 1] && b[..i][1..] == b[1..][..i - 1];
        assert DifferAt(a[1..], b[1..], i - 1);
      }
      if i :| DifferAt(a[1..], b[1..], i) {
        assert a[..i + 1] == [a[0]] + a[1..][..i] && b[..i + 1] == [b[0]] + b[1..][..i];
        assert DifferAt(a, b, i + 1);
      }
    } else if a != "" && b != "" {
      assert a[..0] == b[..0];
      assert DifferAt(a, b, 0) <==> a[0] < b[0];
    }
  }

  lemma {:induction false} BeforeTransitive(a: string, b: string, c: string)
    requires Before(a, b) && Before(b, c)
    ensures Before(a, c)
  {
    if a != "" && a[0] == b[0] == c[0] {
      BeforeTransitive(a[1..], b[1..], c[1..]);
    }
  }

  lemma {:induction false} BeforeTotal(a: string, b: string)
    ensures a == b <==> !Before(a, b) && !Before(b, a)
    ensures !(Before(a, b) && Before(b, a))
  {
    if a != "" && b != "" {
      BeforeTotal(a[1..], b[1..]);
      assert a == [a[0]] + a[1..] && b == [b[0]] + b[1..];
    }
  }

  ghost predicate Ascending(ks: seq<string>) {
    forall i, j | 0 <= i < j < |ks| :: Before(ks[i], ks[j])
  }

  /** `ks` lists exactly the keys of `s`, each once, in ascending order. */
  ghost predicate ListsInOrder(ks: seq<string>, s: set<string>) {
    Ascending(ks) && forall k :: k in ks <==> k in s
  }

  lemma {:induction false} ListingIsUnique(ks: seq<string>, ls: seq<string>, s: set<string>)
    requires ListsInOrder(ks, s) && ListsInOrder(ls, s)
    ensures ks == ls
    decreases |ks|
  {
    assert |ks| > 0 ==> ks[0] in ls;
    assert |ls| > 0 ==> ls[0] in ks;
    if |ks| > 0 {
      FirstIsLeast(ks, s, ls[0]);
      FirstIsLeast(ls, s, ks[0]);
      BeforeTotal(ks[0], ls[0]);
      TailLists(ks, s);
      TailLists(ls, s);
      ListingIsUnique(ks[1..], ls[1..], s - {ks[0]});
      assert ks == [ks[0]] + ks[1..] && ls == [ls[0]] + ls[1..];
    }
  }

  lemma FirstIsLeast(ks: seq<string>, s: set<string>, k: string)
    requires ListsInOrder(ks, s) && |ks| > 0 && (k in s || k in ks)
    ensures k == ks[0] || Before(ks[0], k)
  {
    assert k in ks;
    var i :| 0 <= i < |ks| && ks[i] == k;
  }

  lemma TailLists(ks: seq<string>, s: set<string>)
    requires ListsInOrder(ks, s) && |ks| > 0
    ensures ListsInOrder(ks[1..], s - {ks[0]})
  {
    BeforeTotal(ks[0], ks[0]);
    forall k ensures k in ks[1..] <==> k in s - {ks[0]} {
      if k in ks[1..] {
        var i :| 0 <= i < |ks[1..]| && ks[1..][i] == k;
        assert ks[i + 1] == k && Before(ks[0], ks[i + 1]);
      }
      if k in s - {ks[0]} {
        assert k in ks;
        var i :| 0 <= i < |ks| && ks[i] == k;
        assert ks[1..][i - 1] == k;
      }
    }
  }

  /** Insertion into an ascending listing. */
  function Insert(k: string, ks: seq<string>): (r: seq<string>)
    ensures forall x :: x in r <==> x == k || x in ks
  {
    if ks == [] then [k]
    else if Before(k, ks[0]) then [k] + ks
    else [ks[0]] + Insert(k, ks[1..])
  }

  lemma {:induction false} InsertKeepsOrder(k: string, ks: seq<string>)
    requires Ascending(ks) && k !in ks
    ensures Ascending(Insert(k, ks))
  {
    var r := Insert(k, ks);
    if ks == [] {
    } else if Before(k, ks[0]) {
      forall j | 0 <= j < |ks| ensures Before(k, ks[j]) {
        if j > 0 { BeforeTransitive(k, ks[0], ks[j]); }
      }
    } else {
      InsertKeepsOrder(k, ks[1..]);
      BeforeTotal(k, ks[0]);
      assert Before(ks[0], k);
      forall x | x in r[1..] ensures Before(ks[0], x) {
        if x in ks[1..] {
          var i :| 0 <= i < |ks[1..]| && ks[1..][i] == x;
          assert Before(ks[0], ks[i + 1]);
        }
      }
      forall j | 0 < j < |r| ensures Before(r[0], r[j]) {
        assert r[j] == r[1..][j - 1];
      }
      forall i, j | 0 < i < j < |r| ensures Before(r[i], r[j]) {
        assert r[i] == r[1..][i - 1] && r[j] == r[1..][j - 1];
      }
    }
  }

  /** The ascending listing of a key set. */
  ghost function KeyOrder(s: set<string>): (ks: seq<string>)
    ensures ListsInOrder(ks, s)
  {
    if s == {} then []
    else
      var k :| k in s;
      var rest := KeyOrder(s - {k});
      InsertKeepsOrder(k, rest);
      Insert(k, rest)
  }

  /** Visits the keys of a map in whatever order the runtime picks and sorts them:
      Go's `for k := range m` followed by `sort.Strings`, or a bbolt bucket's cursor order. */
  method InKeyOrder(s: set<string>) returns (ks: seq<string>)
    ensures ks == KeyOrder(s)
  {
    var todo := s;
    ks := [];
    while todo != {}
      invariant todo <= s
      invariant ListsInOrder(ks, s - todo)
      decreases |todo|
    {
      var k :| k in todo;
      InsertKeepsOrder(k, ks);
      todo := todo - {k};
      ks := Insert(k, ks);
    }
    ListingIsUnique(ks, KeyOrder(s), s);
  }
}
