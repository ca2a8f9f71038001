/** Keyed-record store primitives. Every JSON repository of the dashboard reads the whole
    collection, looks a record up with `FindIndex` / `FirstOrDefault` / `Where`, mutates
    the list and writes it back; these are the list operations it uses. */
module Seqs {
  import opened Wrappers

  /** Applies `f` to every element, or fails as a whole on the first element it fails on
      (a loop that throws on the first bad element). */
  function MapAll<T, U>(s: seq<T>, f: T -> Option<U>): (r: Option<seq<U>>)
    ensures r.Some? <==> forall k :: 0 <= k < |s| ==> f(s[k]).Some?
    ensures r.Some? ==> |r.value| == |s| && forall k :: 0 <= k < |s| ==> f(s[k]) == Some(r.value[k])
    decreases |s|
  {
    if |s| == 0 then Some([])
    else
      assert forall k :: 1 <= k < |s| ==> s[k] == s[1..][k - 1];
      match f(s[0])
      case None => None
      case Some(d) =>
        match MapAll(s[1..], f)
        case None => None
        case Some(rest) =>
          assert forall k :: 1 <= k < |s| ==> ([d] + rest)[k] == rest[k - 1];
          Some([d] + rest)
  }

  /** Index of the first element satisfying `p` (`List.FindIndex`, -1 becoming `None`). */
  function FirstIndex<T>(s: seq<T>, p: T -> bool): (r: Option<nat>)
    ensures r.Some? ==> r.value < |s| && p(s[r.value])
    ensures r.Some? ==> forall j :: 0 <= j < r.value ==> !p(s[j])
    ensures r.None? <==> forall j :: 0 <= j < |s| ==> !p(s[j])
    decreases |s|
  {
    if |s| == 0 then None
    else if p(s[0]) then Some(0)
    else
      match FirstIndex(s[1..], p)
      case None => None
      case Some(i) => Some(i + 1)
  }

  /** The first element satisfying `p` (`FirstOrDefault`). */
  function FirstWhere<T>(s: seq<T>, p: T -> bool): (r: Option<T>)
    ensures r.Some? <==> exists j :: 0 <= j < |s| && p(s[j])
    ensures r.Some? ==> p(r.value) && r.value in s
    ensures r.Some? ==> exists j :: 0 <= j < |s| && s[j] == r.value && forall k :: 0 <= k < j ==> !p(s[k])
  {
    match FirstIndex(s, p)
    case None => None
    case Some(i) => Some(s[i])
  }

  /** The elements satisfying `p`, in their stored order (LINQ `Where`). */
  function Filter<T>(s: seq<T>, p: T -> bool): (r: seq<T>)
    ensures forall j :: 0 <= j < |r| ==> r[j] in s && p(r[j])
    ensures forall j :: 0 <= j < |s| && p(s[j]) ==> s[j] in r
    ensures |r| <= |s|
    decreases |s|
  {
    if |s| == 0 then []
    else if p(s[0]) then [s[0]] + Filter(s[1..], p)
    else Filter(s[1..], p)
  }

  /** Filtering distributes over concatenation: relative order is preserved. */
  lemma {:induction false} FilterConcat<T>(a: seq<T>, b: seq<T>, p: T -> bool)
    ensures Filter(a + b, p) == Filter(a, p) + Filter(b, p)
    decreases |a|
  {
    if |a| == 0 {
      assert a + b == b;
    } else {
      assert (a + b)[1..] == a[1..] + b;
      FilterConcat(a[1..], b, p);
    }
  }

  /** Filtering a list with one more element at the end. */
  lemma FilterSnoc<T>(s: seq<T>, x: T, p: T -> bool)
    ensures Filter(s + [x], p) == Filter(s, p) + (if p(x) then [x] else [])
  {
    FilterConcat(s, [x], p);
    assert [x][1..] == [];
  }

  /** Removing or replacing an element the filter drops, by an element it also drops,
      leaves the filtered sequence as it was. */
  lemma FilterSkipsRemoved<T>(s: seq<T>, i: nat, p: T -> bool)
    requires i < |s| && !p(s[i])
    ensures Filter(s[..i] + s[i + 1..], p) == Filter(s, p)
  {
    var a, x, b := s[..i], s[i], s[i + 1..];
    calc {
      Filter(s, p);
    == { assert s == (a + [x]) + b; }
      Filter((a + [x]) + b, p);
    == { FilterConcat(a + [x], b, p); }
      Filter(a + [x], p) + Filter(b, p);
    == { FilterConcat(a, [x], p); FilterDropsOne(x, p); }
      (Filter(a, p) + []) + Filter(b, p);
    == { assert Filter(a, p) + [] == Filter(a, p); }
      Filter(a, p) + Filter(b, p);
    == { FilterConcat(a, b, p); }
      Filter(a + b, p);
    }
  }

  lemma FilterDropsOne<T>(x: T, p: T -> bool)
    requires !p(x)
    ensures Filter([x], p) == []
  {
    assert [x][1..] == [];
  }

  lemma FilterSkipsReplaced<T>(s: seq<T>, i: nat, x: T, p: T -> bool)
    requires i < |s| && !p(s[i]) && !p(x)
    ensures Filter(s[i := x], p) == Filter(s, p)
  {
    var r := s[i := x];
    assert r[..i] == s[..i] && r[i + 1..] == s[i + 1..] && r[i] == x;
    FilterSkipsRemoved(s, i, p);
    FilterSkipsRemoved(r, i, p);
  }

  /** A filter that every element passes keeps the sequence as it is. */
  lemma {:induction false} FilterAll<T>(s: seq<T>, p: T -> bool)
    requires forall j :: 0 <= j < |s| ==> p(s[j])
    ensures Filter(s, p) == s
    decreases |s|
  {
    if |s| > 0 {
      FilterAll(s[1..], p);
    }
  }

  /** `a` can be obtained from `b` by deleting elements. */
  predicate IsSubsequence<T(==)>(a: seq<T>, b: seq<T>)
    decreases |b|
  {
    if |a| == 0 then true
    else if |b| == 0 then false
    else if a[0] == b[0] then IsSubsequence(a[1..], b[1..])
    else IsSubsequence(a, b[1..])
  }

  /** Filtering only deletes: the result is a subsequence of the input. */
  lemma {:induction false} FilterIsSubsequence<T>(s: seq<T>, p: T -> bool)
    ensures IsSubsequence(Filter(s, p), s)
    decreases |s|
  {
    if |s| > 0 {
      FilterIsSubsequence(s[1..], p);
    }
  }

  /** Filtering keeps every passing element as often as it occurs and drops the rest:
      with `FilterIsSubsequence`, this pins the filtered list down completely. */
  lemma FilterCounts<T>(s: seq<T>, p: T -> bool)
    ensures forall x :: multiset(Filter(s, p))[x] == if p(x) then multiset(s)[x] else 0
  {
    forall x
      ensures multiset(Filter(s, p))[x] == if p(x) then multiset(s)[x] else 0
    {
      FilterCount(s, p, x);
    }
  }

  lemma {:induction false} FilterCount<T>(s: seq<T>, p: T -> bool, x: T)
    ensures multiset(Filter(s, p))[x] == if p(x) then multiset(s)[x] else 0
    decreases |s|
  {
    if |s| > 0 {
      FilterCount(s[1..], p, x);
      HeadTail(s);
      assert multiset(s) == multiset([s[0]]) + multiset(s[1..]) by {
        assert s == [s[0]] + s[1..];
      }
      FilterUnfold(s, p);
    }
  }

  /** Filtering two arrangements of the same elements keeps the same elements. */
  lemma FilterSameElements<T>(s: seq<T>, t: seq<T>, p: T -> bool)
    requires multiset(s) == multiset(t)
    ensures multiset(Filter(s, p)) == multiset(Filter(t, p))
  {
    FilterCounts(s, p);
    FilterCounts(t, p);
  }

  /** The largest of a non-empty list of integers (LINQ `Max`). */
  function MaxOf(s: seq<int>): (m: int)
    requires |s| > 0
    ensures m in s
    ensures forall j :: 0 <= j < |s| ==> s[j] <= m
    decreases |s|
  {
    if |s| == 1 then s[0]
    else
      var rest := MaxOf(s[1..]);
      if s[0] >= rest then s[0] else rest
  }

  /** The ids of a record list. */
  function Ids<T>(s: seq<T>, id: T -> int): (r: seq<int>)
    ensures |r| == |s|
    ensures forall j :: 0 <= j < |s| ==> r[j] == id(s[j])
  {
    seq(|s|, j requires 0 <= j < |s| => id(s[j]))
  }

  /** The id every repository gives a new record: `Max(id) + 1`, or 1 for an empty store. */
  function NextId<T>(s: seq<T>, id: T -> int): (r: int)
    ensures forall j :: 0 <= j < |s| ==> id(s[j]) < r
    ensures |s| == 0 ==> r == 1
    ensures |s| > 0 ==> exists j :: 0 <= j < |s| && id(s[j]) == r - 1
  {
    if |s| == 0 then 1
    else
      var ids := Ids(s, id);
      var m := MaxOf(ids);
      assert exists j :: 0 <= j < |ids| && ids[j] == m;
      m + 1
  }

  /** `r` equals `s` except possibly at position `i`. */
  ghost predicate SameExceptAt<T>(s: seq<T>, r: seq<T>, i: int) {
    |r| == |s| && forall j :: 0 <= j < |s| && j != i ==> r[j] == s[j]
  }

  /** `r` is `s` with position `i` removed. */
  ghost predicate RemovedAt<T>(s: seq<T>, r: seq<T>, i: int) {
    0 <= i < |s| && |r| == |s| - 1
    && (forall j :: 0 <= j < i ==> r[j] == s[j])
    && (forall j :: i <= j < |r| ==> r[j] == s[j + 1])
  }

  /** `list[FindIndex(p)] = x` when an element matches; the list as it was otherwise. */
  function ReplaceFirst<T>(s: seq<T>, p: T -> bool, x: T): (r: seq<T>)
    ensures FirstIndex(s, p).None? ==> r == s
    ensures FirstIndex(s, p).Some? ==> SameExceptAt(s, r, FirstIndex(s, p).value) && r[FirstIndex(s, p).value] == x
    ensures |r| == |s|
  {
    match FirstIndex(s, p)
    case None => s
    case Some(i) => s[i := x]
  }

  /** `list.Remove(list.FirstOrDefault(p))`: drops the first matching element. */
  function RemoveFirst<T>(s: seq<T>, p: T -> bool): (r: seq<T>)
    ensures FirstIndex(s, p).None? ==> r == s
    ensures FirstIndex(s, p).Some? ==> RemovedAt(s, r, FirstIndex(s, p).value)
    ensures multiset(r) <= multiset(s)
  {
    match FirstIndex(s, p)
    case None => s
    case Some(i) =>
      assert s == s[..i] + [s[i]] + s[i + 1..];
      s[..i] + s[i + 1..]
  }

  /** Looking up `q` among the records that pass `p` finds the first record passing both:
      the scoped `GetById` and the scoped `FindIndex` of a repository agree. */
  lemma FirstWhereFilter<T>(s: seq<T>, p: T -> bool, q: T -> bool, pq: T -> bool)
    requires forall x :: pq(x) == (p(x) && q(x))
    ensures FirstWhere(Filter(s, p), q).None? <==> FirstIndex(s, pq).None?
    ensures FirstIndex(s, pq).Some? ==> FirstWhere(Filter(s, p), q) == Some(s[FirstIndex(s, pq).value])
  {
    FindFilter(s, p, q, pq);
    FindIsFirstIndex(s, pq);
    FindIsFirstIndex(Filter(s, p), q);
  }

  /** A non-empty sequence is its head followed by its tail. */
  lemma HeadTail<T>(s: seq<T>)
    requires |s| > 0
    ensures [s[0]] + s[1..] == s
  {
  }

  lemma FilterUnfold<T>(s: seq<T>, p: T -> bool)
    requires |s| > 0
    ensures Filter(s, p) == if p(s[0]) then [s[0]] + Filter(s[1..], p) else Filter(s[1..], p)
  {
  }

  lemma ConsParts<T>(x: T, t: seq<T>)
    ensures ([x] + t)[0] == x && ([x] + t)[1..] == t
  {
  }

  /** The first match in a non-empty sequence is its head, or the first match in its tail
      moved one place along. */
  lemma FirstIndexShift<T>(s: seq<T>, p: T -> bool)
    requires |s| > 0
    ensures FirstIndex(s, p) == if p(s[0]) then Some(0)
      else if FirstIndex(s[1..], p).None? then None else Some(FirstIndex(s[1..], p).value + 1)
  {
  }

  /** Two equally long sequences whose elements pass their predicates at the same
      positions have their first match at the same position. */
  lemma {:induction false} FirstIndexAgree<T, U>(s: seq<T>, p: T -> bool, t: seq<U>, q: U -> bool)
    requires |s| == |t| && forall k :: 0 <= k < |s| ==> (p(s[k]) <==> q(t[k]))
    ensures FirstIndex(s, p) == FirstIndex(t, q)
    decreases |s|
  {
    if |s| > 0 {
      FirstIndexAgree(s[1..], p, t[1..], q);
      FirstIndexShift(s, p);
      FirstIndexShift(t, q);
    }
  }

  /** The first element satisfying `p`, found by walking from the front. */
  function Find<T>(s: seq<T>, p: T -> bool): Option<T>
    decreases |s|
  {
    if |s| == 0 then None else if p(s[0]) then Some(s[0]) else Find(s[1..], p)
  }

  lemma {:induction false} FindIsFirstIndex<T>(s: seq<T>, p: T -> bool)
    ensures Find(s, p) == if FirstIndex(s, p).None? then None else Some(s[FirstIndex(s, p).value])
    decreases |s|
  {
    if |s| > 0 {
      FindIsFirstIndex(s[1..], p);
      FirstIndexShift(s, p);
    }
  }

  lemma {:induction false} FindFilter<T>(s: seq<T>, p: T -> bool, q: T -> bool, pq: T -> bool)
    requires forall x :: pq(x) == (p(x) && q(x))
    ensures Find(Filter(s, p), q) == Find(s, pq)
    decreases |s|
  {
    if |s| > 0 {
      FindFilter(s[1..], p, q, pq);
      FilterUnfold(s, p);
      if p(s[0]) {
        ConsParts(s[0], Filter(s[1..], p));
      }
    }
  }
}
