/** LINQ `OrderBy` / `OrderByDescending` / `ThenBy`: a stable sort on sort keys.
    A key is a sequence of integers compared lexicographically, so a `ThenBy` chain is
    one composite key, a nullable value can sort its null first, and a string is sorted
    through a collation key (the culture's sort key, or its character codes for ordinal
    order). */
module Sorting {
  import opened Seqs

  type Key = seq<int>

  /** Lexicographic order on keys; a proper prefix sorts first. */
  predicate KeyLe(a: Key, b: Key)
    decreases |a|
  {
    |a| == 0 || (|b| > 0 && (a[0] < b[0] || (a[0] == b[0] && KeyLe(a[1..], b[1..]))))
  }

  lemma {:induction false} KeyLeTotal(a: Key, b: Key)
    ensures KeyLe(a, b) || KeyLe(b, a)
    decreases |a|
  {
    if |a| > 0 && |b| > 0 && a[0] == b[0] {
      KeyLeTotal(a[1..], b[1..]);
    }
  }

  lemma {:induction false} KeyLeTransitive(a: Key, b: Key, c: Key)
    requires KeyLe(a, b) && KeyLe(b, c)
    ensures KeyLe(a, c)
    decreases |a|
  {
    if |a| > 0 && a[0] == b[0] && b[0] == c[0] {
      KeyLeTransitive(a[1..], b[1..], c[1..]);
    }
  }

  lemma {:induction false} KeyLeAntisymmetric(a: Key, b: Key)
    requires KeyLe(a, b) && KeyLe(b, a)
    ensures a == b
    decreases |a|
  {
    if |a| > 0 {
      KeyLeAntisymmetric(a[1..], b[1..]);
      assert a == [a[0]] + a[1..] && b == [b[0]] + b[1..];
    }
  }

  /** Ordinal collation: a string's key is its sequence of character codes. */
  function Ordinal(s: string): (k: Key)
    ensures |k| == |s|
    ensures forall i :: 0 <= i < |s| ==> k[i] == s[i] as int
  {
    seq(|s|, i requires 0 <= i < |s| => s[i] as int)
  }

  datatype Direction = Ascending | Descending

  /** `a` may come before `b` in a sort in direction `dir`. */
  predicate InOrder(dir: Direction, a: Key, b: Key) {
    if dir == Ascending then KeyLe(a, b) else KeyLe(b, a)
  }

  lemma InOrderTotal(dir: Direction, a: Key, b: Key)
    ensures InOrder(dir, a, b) || InOrder(dir, b, a)
  {
    KeyLeTotal(a, b);
  }

  lemma InOrderTransitive(dir: Direction, a: Key, b: Key, c: Key)
    requires InOrder(dir, a, b) && InOrder(dir, b, c)
    ensures InOrder(dir, a, c)
  {
    if dir == Ascending {
      KeyLeTransitive(a, b, c);
    } else {
      KeyLeTransitive(c, b, a);
    }
  }

  ghost predicate Sorted<T>(s: seq<T>, key: T -> Key, dir: Direction) {
    forall i, j :: 0 <= i < j < |s| ==> InOrder(dir, key(s[i]), key(s[j]))
  }

  /** The records whose key is exactly `k`. */
  function HasKey<T>(key: T -> Key, k: Key): T -> bool {
    (x: T) => key(x) == k
  }

  /** Inserts `x` before the first element it may precede, so `x` stays ahead of every
      element of `s` with an equal key. */
  function Insert<T>(x: T, s: seq<T>, key: T -> Key, dir: Direction): (r: seq<T>)
    requires Sorted(s, key, dir)
    ensures Sorted(r, key, dir)
    ensures multiset(r) == multiset(s) + multiset{x}
    decreases |s|
  {
    if |s| == 0 then [x]
    else if InOrder(dir, key(x), key(s[0])) then
      InsertFrontSorted(x, s, key, dir);
      [x] + s
    else
      InOrderTotal(dir, key(x), key(s[0]));
      var rest := Insert(x, s[1..], key, dir);
      assert s == [s[0]] + s[1..];
      InsertConsSorted(s[0], rest, s[1..], x, key, dir);
      [s[0]] + rest
  }

  lemma InsertFrontSorted<T>(x: T, s: seq<T>, key: T -> Key, dir: Direction)
    requires |s| > 0 && Sorted(s, key, dir) && InOrder(dir, key(x), key(s[0]))
    ensures Sorted([x] + s, key, dir)
  {
    var r := [x] + s;
    forall i, j | 0 <= i < j < |r|
      ensures InOrder(dir, key(r[i]), key(r[j]))
    {
      if i == 0 && j > 1 {
        InOrderTransitive(dir, key(x), key(s[0]), key(s[j - 1]));
      }
    }
  }

  lemma InsertConsSorted<T>(y: T, rest: seq<T>, tail: seq<T>, x: T, key: T -> Key, dir: Direction)
    requires Sorted(rest, key, dir) && Sorted([y] + tail, key, dir)
    requires InOrder(dir, key(y), key(x))
    requires multiset(rest) == multiset(tail) + multiset{x}
    ensures Sorted([y] + rest, key, dir)
  {
    var r := [y] + rest;
    forall i, j | 0 <= i < j < |r|
      ensures InOrder(dir, key(r[i]), key(r[j]))
    {
      if i == 0 {
        var z := rest[j - 1];
        assert r[j] == z;
        assert z in multiset(rest);
        if z != x {
          assert z in multiset(tail);
          var k :| 0 <= k < |tail| && tail[k] == z;
          var yt := [y] + tail;
          assert yt[0] == y && yt[k + 1] == z;
          assert InOrder(dir, key(yt[0]), key(yt[k + 1]));
        }
      } else {
        assert r[i] == rest[i - 1] && r[j] == rest[j - 1];
      }
    }
  }

  /** Stable sort (LINQ `OrderBy` when `dir` is `Ascending`, `OrderByDescending` otherwise). */
  function SortBy<T>(s: seq<T>, key: T -> Key, dir: Direction): (r: seq<T>)
    ensures Sorted(r, key, dir)
    ensures multiset(r) == multiset(s)
    ensures |r| == |s|
    decreases |s|
  {
    if |s| == 0 then []
    else
      assert s == [s[0]] + s[1..];
      var r := Insert(s[0], SortBy(s[1..], key, dir), key, dir);
      assert |r| == |multiset(r)|;
      r
  }

  /** Sorting neither adds nor loses records. */
  lemma SortBySameElements<T>(s: seq<T>, key: T -> Key, dir: Direction)
    ensures forall i :: 0 <= i < |SortBy(s, key, dir)| ==> SortBy(s, key, dir)[i] in s
    ensures forall i :: 0 <= i < |s| ==> s[i] in SortBy(s, key, dir)
  {
    var r := SortBy(s, key, dir);
    forall i | 0 <= i < |r|
      ensures r[i] in s
    {
      assert r[i] in multiset(r);
    }
    forall i | 0 <= i < |s|
      ensures s[i] in r
    {
      assert s[i] in multiset(s);
    }
  }

  /** Inserting keeps the relative order of equal-key records, with `x` first among them. */
  lemma {:induction false} InsertStable<T>(x: T, s: seq<T>, key: T -> Key, dir: Direction, k: Key)
    requires Sorted(s, key, dir)
    ensures Filter(Insert(x, s, key, dir), HasKey(key, k)) == Filter([x], HasKey(key, k)) + Filter(s, HasKey(key, k))
    decreases |s|
  {
    var p := HasKey(key, k);
    if |s| == 0 {
    } else if InOrder(dir, key(x), key(s[0])) {
      FilterConcat([x], s, p);
    } else {
      InOrderTotal(dir, key(x), key(s[0]));
      assert key(x) != key(s[0]);
      InsertStable(x, s[1..], key, dir, k);
      var rest := Insert(x, s[1..], key, dir);
      FilterConcat([s[0]], rest, p);
      FilterConcat([s[0]], s[1..], p);
      FilterConcat([x], s[1..], p);
      assert s == [s[0]] + s[1..];
    }
  }

  /** Stability: the records sharing a key appear in the sorted output in their input order. */
  lemma {:induction false} SortByStable<T>(s: seq<T>, key: T -> Key, dir: Direction, k: Key)
    ensures Filter(SortBy(s, key, dir), HasKey(key, k)) == Filter(s, HasKey(key, k))
    decreases |s|
  {
    if |s| > 0 {
      var p := HasKey(key, k);
      SortByStable(s[1..], key, dir, k);
      InsertStable(s[0], SortBy(s[1..], key, dir), key, dir, k);
      FilterConcat([s[0]], s[1..], p);
      assert s == [s[0]] + s[1..];
    }
  }

  /** Filtering a sorted sequence leaves it sorted. */
  lemma {:induction false} FilterKeepsSorted<T>(s: seq<T>, p: T -> bool, key: T -> Key, dir: Direction)
    requires Sorted(s, key, dir)
    ensures Sorted(Filter(s, p), key, dir)
    decreases |s|
  {
    if |s| > 0 {
      FilterKeepsSorted(s[1..], p, key, dir);
      var rest := Filter(s[1..], p);
      if p(s[0]) {
        var r := [s[0]] + rest;
        forall i, j | 0 <= i < j < |r|
          ensures InOrder(dir, key(r[i]), key(r[j]))
        {
          if i == 0 {
            assert r[j] in s[1..];
            var k :| 0 <= k < |s[1..]| && s[1..][k] == r[j];
            assert s[k + 1] == r[j];
          } else {
            assert r[i] == rest[i - 1] && r[j] == rest[j - 1];
          }
        }
      }
    }
  }
}
