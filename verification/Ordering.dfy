/** Orders on text and on sort keys, Python's stable descending `sorted`, and `dict.fromkeys`. */
module Ordering {

  // ---------- text order ----------

  /** Code point order: what Python compares strings by, and SQLite's BINARY collation. */
  predicate TextLess(a: string, b: string) {
    b != "" && (a == "" || a[0] < b[0] || (a[0] == b[0] && TextLess(a[1..], b[1..])))
  }

  lemma {:induction false} TextLessTotal(a: string, b: string)
    ensures a == b || TextLess(a, b) || TextLess(b, a)
    ensures !(TextLess(a, b) && TextLess(b, a))
    ensures TextLess(a, b) ==> a != b
  {
    if a != "" && b != "" && a[0] == b[0] {
      TextLessTotal(a[1..], b[1..]);
      assert a == [a[0]] + a[1..] && b == [b[0]] + b[1..];
    }
  }

  lemma {:induction false} TextLessTransitive(a: string, b: string, c: string)
    requires TextLess(a, b) && TextLess(b, c)
    ensures TextLess(a, c)
  {
    if a != "" && a[0] == b[0] && b[0] == c[0] {
      TextLessTransitive(a[1..], b[1..], c[1..]);
    }
  }

  /** Text order of two concatenations whose heads have the same length. */
  lemma {:induction false} TextLessConcat(a: string, x: string, b: string, y: string)
    requires |a| == |b|
    ensures TextLess(a + x, b + y) <==> TextLess(a, b) || (a == b && TextLess(x, y))
  {
    if a == "" {
      assert a + x == x && b + y == y;
    } else {
      assert (a + x)[1..] == a[1..] + x && (b + y)[1..] == b[1..] + y;
      TextLessConcat(a[1..], x, b[1..], y);
      assert a == [a[0]] + a[1..] && b == [b[0]] + b[1..];
    }
  }

  /** `sorted(s)` for a set of strings: the strictly ascending enumeration. */
  ghost predicate Ascending(s: seq<string>) {
    forall i, j :: 0 <= i < j < |s| ==> TextLess(s[i], s[j])
  }

  lemma {:induction false} LeastExists(s: set<string>) returns (m: string)
    requires s != {}
    ensures m in s && forall x :: x in s && x != m ==> TextLess(m, x)
  {
    var x :| x in s;
    m := x;
    if s != {x} {
      var least := LeastExists(s - {x});
      TextLessTotal(x, least);
      if TextLess(x, least) {
        forall y | y in s && y != x ensures TextLess(x, y) {
          assert y in s - {x};
          if y != least { TextLessTransitive(x, least, y); }
        }
      } else {
        m := least;
        assert forall y :: y in s ==> y == x || y in s - {x};
      }
    }
  }

  predicate Least(m: string, s: set<string>) {
    m in s && forall x :: x in s && x != m ==> TextLess(m, x)
  }

  lemma LeastUnique(s: set<string>)
    requires s != {}
    ensures exists m :: Least(m, s)
    ensures forall m, n :: Least(m, s) && Least(n, s) ==> m == n
  {
    var least := LeastExists(s);
    assert Least(least, s);
    forall m, n | Least(m, s) && Least(n, s) ensures m == n { TextLessTotal(m, n); }
  }

  function SortedText(s: set<string>): (r: seq<string>)
    ensures forall x :: x in r <==> x in s
    ensures Ascending(r)
  {
    if s == {} then [] else
      LeastUnique(s);
      var m :| Least(m, s);
      [m] + SortedText(s - {m})
  }

  lemma {:induction false} SortedTextLength(s: set<string>)
    ensures |SortedText(s)| == |s|
  {
    if s != {} {
      LeastUnique(s);
      var m :| Least(m, s);
      SortedTextLength(s - {m});
    }
  }

  lemma NonEmptyHasMember<T(!new)>(s: seq<T>)
    ensures s == [] || exists x :: x in s
  {
    if s != [] { assert s[0] in s; }
  }

  /** Only one ascending list holds a given set of strings, so `SortedText` is `sorted`. */
  lemma {:induction false} AscendingUnique(a: seq<string>, b: seq<string>)
    requires Ascending(a) && Ascending(b)
    requires forall x :: x in a <==> x in b
    ensures a == b
  {
    if a == [] {
      NonEmptyHasMember(b);
    } else {
      assert a[0] in a && a[0] in b;
      assert b[0] in b && b[0] in a;
      TextLessTotal(a[0], b[0]);
      assert a[0] == b[0];
      forall x ensures x in a[1..] <==> x in b[1..] {
        TextLessTotal(a[0], a[0]);
        if x in a[1..] {
          assert x in a && x != a[0];
        }
        if x in b[1..] {
          assert x in b && x != b[0];
        }
      }
      AscendingUnique(a[1..], b[1..]);
    }
  }

  // ---------- sort keys ----------

  /** Python's tuple order on keys made of integers. */
  predicate KeyLess(a: seq<int>, b: seq<int>) {
    b != [] && (a == [] || a[0] < b[0] || (a[0] == b[0] && KeyLess(a[1..], b[1..])))
  }

  lemma {:induction false} KeyLessTotal(a: seq<int>, b: seq<int>)
    ensures a == b || KeyLess(a, b) || KeyLess(b, a)
    ensures !(KeyLess(a, b) && KeyLess(b, a))
    ensures KeyLess(a, b) ==> a != b
  {
    if a != [] && b != [] && a[0] == b[0] {
      KeyLessTotal(a[1..], b[1..]);
      assert a == [a[0]] + a[1..] && b == [b[0]] + b[1..];
    }
  }

  lemma {:induction false} KeyLessTransitive(a: seq<int>, b: seq<int>, c: seq<int>)
    requires KeyLess(a, b) && KeyLess(b, c)
    ensures KeyLess(a, c)
  {
    if a != [] && a[0] == b[0] && b[0] == c[0] {
      KeyLessTransitive(a[1..], b[1..], c[1..]);
    }
  }

  // ---------- sorted(..., reverse=True) ----------

  function InsertDesc<T>(x: T, s: seq<T>, key: T -> seq<int>): seq<T> {
    if s == [] then [x]
    else if KeyLess(key(x), key(s[0])) then [s[0]] + InsertDesc(x, s[1..], key)
    else [x] + s
  }

  /** Python's `sorted(s, key=key, reverse=True)`: descending, equal keys in input order. */
  function SortDesc<T>(s: seq<T>, key: T -> seq<int>): seq<T> {
    if s == [] then [] else InsertDesc(s[0], SortDesc(s[1..], key), key)
  }

  ghost predicate Descending<T>(s: seq<T>, key: T -> seq<int>) {
    forall i, j :: 0 <= i < j < |s| ==> !KeyLess(key(s[i]), key(s[j]))
  }

  /** The elements of s whose key is k, in the order they occur. */
  function WithKey<T>(s: seq<T>, key: T -> seq<int>, k: seq<int>): seq<T> {
    if s == [] then [] else (if key(s[0]) == k then [s[0]] else []) + WithKey(s[1..], key, k)
  }

  lemma {:induction false} InsertDescMultiset<T>(x: T, s: seq<T>, key: T -> seq<int>)
    ensures multiset(InsertDesc(x, s, key)) == multiset([x]) + multiset(s)
  {
    if s != [] {
      assert s == [s[0]] + s[1..];
      if KeyLess(key(x), key(s[0])) { InsertDescMultiset(x, s[1..], key); }
    }
  }

  lemma {:induction false} SortDescPermutes<T>(s: seq<T>, key: T -> seq<int>)
    ensures multiset(SortDesc(s, key)) == multiset(s)
    ensures |SortDesc(s, key)| == |s|
    ensures forall x :: x in SortDesc(s, key) <==> x in s
  {
    if s != [] {
      SortDescPermutes(s[1..], key);
      InsertDescMultiset(s[0], SortDesc(s[1..], key), key);
      assert s == [s[0]] + s[1..];
    }
    assert |multiset(SortDesc(s, key))| == |multiset(s)|;
    forall x ensures x in SortDesc(s, key) <==> x in s {
      assert x in SortDesc(s, key) <==> x in multiset(SortDesc(s, key));
      assert x in s <==> x in multiset(s);
    }
  }

  lemma {:induction false} InsertDescSorted<T>(x: T, s: seq<T>, key: T -> seq<int>)
    requires Descending(s, key)
    ensures Descending(InsertDesc(x, s, key), key)
  {
    if s != [] {
      if KeyLess(key(x), key(s[0])) {
        InsertDescSorted(x, s[1..], key);
        InsertDescMultiset(x, s[1..], key);
        var r := InsertDesc(x, s[1..], key);
        forall j | 0 <= j < |r| ensures !KeyLess(key(s[0]), key(r[j])) {
          assert r[j] in multiset(r);
          KeyLessTotal(key(x), key(s[0]));
          if r[j] != x { assert r[j] in s[1..]; }
        }
      } else {
        forall j | 0 <= j < |s| ensures !KeyLess(key(x), key(s[j])) {
          if KeyLess(key(x), key(s[j])) {
            KeyLessTotal(key(s[0]), key(s[j]));
            if KeyLess(key(s[j]), key(s[0])) { KeyLessTransitive(key(x), key(s[j]), key(s[0])); }
          }
        }
      }
    }
  }

  lemma {:induction false} SortDescSorts<T>(s: seq<T>, key: T -> seq<int>)
    ensures Descending(SortDesc(s, key), key)
  {
    if s != [] {
      SortDescSorts(s[1..], key);
      InsertDescSorted(s[0], SortDesc(s[1..], key), key);
    }
  }

  lemma {:induction false} InsertDescStable<T>(x: T, s: seq<T>, key: T -> seq<int>, k: seq<int>)
    ensures WithKey(InsertDesc(x, s, key), key, k) == WithKey([x] + s, key, k)
  {
    assert ([x] + s)[1..] == s;
    if s != [] && KeyLess(key(x), key(s[0])) {
      KeyLessTotal(key(x), key(s[0]));
      InsertDescStable(x, s[1..], key, k);
      assert ([x] + s[1..])[1..] == s[1..];
      var r := InsertDesc(x, s[1..], key);
      assert ([s[0]] + r)[1..] == r;
    }
  }

  /** Ties keep their input order, for every key. */
  lemma {:induction false} SortDescStable<T>(s: seq<T>, key: T -> seq<int>, k: seq<int>)
    ensures WithKey(SortDesc(s, key), key, k) == WithKey(s, key, k)
  {
    if s != [] {
      SortDescStable(s[1..], key, k);
      var r := SortDesc(s[1..], key);
      InsertDescStable(s[0], r, key, k);
      assert ([s[0]] + r)[1..] == r;
    }
  }

  lemma {:induction false} SortDescOfSorted<T>(s: seq<T>, key: T -> seq<int>)
    requires Descending(s, key)
    ensures SortDesc(s, key) == s
  {
    if s != [] {
      SortDescOfSorted(s[1..], key);
      assert s == [s[0]] + s[1..];
    }
  }

  // ---------- list(dict.fromkeys(s)) ----------

  /** The elements of s without repetition, in the order of first occurrence. */
  function Distinct<T(==,!new)>(s: seq<T>): (r: seq<T>)
    ensures forall x :: x in r <==> x in s
    ensures NoDuplicates(r)
  {
    if s == [] then [] else
      var front := s[..|s| - 1];
      var last := s[|s| - 1];
      assert s == front + [last];
      var r := Distinct(front);
      if last in r then r else r + [last]
  }

  ghost predicate NoDuplicates<T>(s: seq<T>) {
    forall i, j :: 0 <= i < j < |s| ==> s[i] != s[j]
  }

  lemma DistinctStep<T(!new)>(s: seq<T>, x: T)
    ensures Distinct(s + [x]) == if x in s then Distinct(s) else Distinct(s) + [x]
  {
    assert (s + [x])[..|s|] == s;
  }

  lemma {:induction false} DistinctOfDistinct<T(!new)>(s: seq<T>)
    requires NoDuplicates(s)
    ensures Distinct(s) == s
  {
    if s != [] {
      DistinctOfDistinct(s[..|s| - 1]);
      assert s == s[..|s| - 1] + [s[|s| - 1]];
    }
  }

  /** `Distinct` of a prefix is a prefix: first occurrences keep their order. */
  lemma {:induction false} DistinctPrefix<T(!new)>(a: seq<T>, b: seq<T>)
    ensures Distinct(a) <= Distinct(a + b)
  {
    if b == [] {
      assert a + b == a;
    } else {
      DistinctPrefix(a, b[..|b| - 1]);
      assert (a + b)[..|a + b| - 1] == a + b[..|b| - 1];
    }
  }
}
