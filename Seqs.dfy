/** Generic sequence helpers shared by the inventory model: the optional value the
    service returns where Java returns null, first-match lookup (stream().filter().findFirst()),
    order-preserving filtering (stream().filter().collect()) and counting (filter().count()). */
module Seqs {

  datatype Option<T> = None | Some(value: T)

  /** `a` is an order-preserving subsequence of `b`. */
  ghost predicate IsSubseq<T>(a: seq<T>, b: seq<T>)
    decreases |b|
  {
    if a == [] then true
    else if b == [] then false
    else if a[0] == b[0] then IsSubseq(a[1..], b[1..])
    else IsSubseq(a, b[1..])
  }

  /** Every sequence is a subsequence of itself. */
  lemma {:induction false} IsSubseqRefl<T>(s: seq<T>)
    ensures IsSubseq(s, s)
    decreases |s|
  {
    if s != [] {
      IsSubseqRefl(s[1..]);
    }
  }

  /** Index of the first element satisfying `f`, as findFirst() on a filtered stream. */
  function FirstIndex<T>(s: seq<T>, f: T -> bool): (r: Option<nat>)
    ensures r.Some? ==> r.value < |s| && f(s[r.value])
    ensures r.Some? ==> forall j :: 0 <= j < r.value ==> !f(s[j])
    ensures r.None? <==> forall j :: 0 <= j < |s| ==> !f(s[j])
  {
    if s == [] then None
    else if f(s[0]) then Some(0)
    else match FirstIndex(s[1..], f)
      case None => None
      case Some(i) => Some(i + 1)
  }

  /** The elements satisfying `f`, in their original order. */
  function Filter<T(==)>(s: seq<T>, f: T -> bool): (r: seq<T>)
    ensures |r| <= |s|
    ensures forall i :: 0 <= i < |r| ==> r[i] in s && f(r[i])
    ensures forall i :: 0 <= i < |s| && f(s[i]) ==> s[i] in r
    ensures IsSubseq(r, s)
  {
    if s == [] then []
    else
      var rest := Filter(s[1..], f);
      if f(s[0]) then
        assert ([s[0]] + rest)[1..] == rest;
        [s[0]] + rest
      else
        assert rest != [] ==> rest[0] != s[0] by {
          if rest != [] { assert rest[0] in rest; }
        }
        rest
  }

  /** Filtering a list with a given head. */
  lemma FilterCons<T>(x: T, s: seq<T>, f: T -> bool)
    ensures Filter([x] + s, f) == if f(x) then [x] + Filter(s, f) else Filter(s, f)
  {
    assert ([x] + s)[1..] == s;
  }

  /** The filter keeps every element satisfying `f` as often as `s` holds it, and no other
      element: the result is exact, also when `s` repeats an element. */
  lemma {:induction false} FilterCounts<T(!new)>(s: seq<T>, f: T -> bool)
    ensures forall x :: multiset(Filter(s, f))[x] == if f(x) then multiset(s)[x] else 0
    decreases |s|
  {
    if s != [] {
      FilterCounts(s[1..], f);
      assert s == [s[0]] + s[1..];
      FilterCons(s[0], s[1..], f);
    }
  }

  /** Filtering a prefix gives a prefix of the filtered list. */
  lemma {:induction false} FilterPrefix<T>(s: seq<T>, n: nat, f: T -> bool)
    requires n <= |s|
    ensures Filter(s[..n], f) <= Filter(s, f)
    decreases n
  {
    if n > 0 {
      assert s[..n] == [s[0]] + s[1..][..n - 1];
      assert s == [s[0]] + s[1..];
      FilterCons(s[0], s[1..][..n - 1], f);
      FilterCons(s[0], s[1..], f);
      FilterPrefix(s[1..], n - 1, f);
    }
  }

  /** Number of elements satisfying `f`, counted one by one. */
  function Count<T>(s: seq<T>, f: T -> bool): (n: nat)
    ensures n <= |s|
  {
    if s == [] then 0 else (if f(s[0]) then 1 else 0) + Count(s[1..], f)
  }

  /** Counting the matches gives the length of the filtered list. */
  lemma {:induction false} CountIsFilterLength<T>(s: seq<T>, f: T -> bool)
    ensures Count(s, f) == |Filter(s, f)|
  {
    if s != [] {
      CountIsFilterLength(s[1..], f);
    }
  }

  /** `s` without its element at index `i` (List.remove of that element). */
  function RemoveAt<T>(s: seq<T>, i: nat): (r: seq<T>)
    requires i < |s|
    ensures |r| == |s| - 1
    ensures forall j :: 0 <= j < i ==> r[j] == s[j]
    ensures forall j :: i <= j < |r| ==> r[j] == s[j + 1]
  {
    s[..i] + s[i + 1..]
  }

  /** Every element of `RemoveAt(s, i)` was in `s`, and every element of `s` other
      than `s[i]` is kept. */
  lemma RemoveAtMembers<T>(s: seq<T>, i: nat)
    requires i < |s|
    ensures forall j :: 0 <= j < |s| - 1 ==> RemoveAt(s, i)[j] in s
    ensures forall j :: 0 <= j < |s| && j != i ==> s[j] in RemoveAt(s, i)
  {
    var r := RemoveAt(s, i);
    forall j | 0 <= j < |s| && j != i ensures s[j] in r {
      if j < i { assert r[j] == s[j]; } else { assert r[j - 1] == s[j]; }
    }
  }

  /** The first `n` elements, or all of them if there are fewer (Stream.limit). */
  function Take<T>(s: seq<T>, n: nat): (r: seq<T>)
    ensures |r| == if n < |s| then n else |s|
    ensures forall j :: 0 <= j < |r| ==> r[j] == s[j]
  {
    if n < |s| then s[..n] else s
  }
}
