/** Generic sequence helpers mirroring the JavaScript array methods the
    dashboard relies on: `filter`, `find`, `includes` and the
    remove-if-present-else-append toggle. */
module Base {

  /** The conventional Some/None datatype, standing for `T | undefined`. */
  datatype Option<+T> = None | Some(value: T) {

    /** Returns the value in Some, or `default` for None (JavaScript `x ?? d` / `x || d` on objects). */
    function GetOr(default: T): T {
      match this
      case Some(v) => v
      case None => default
    }
  }

  /** `a` is a (not necessarily contiguous) subsequence of `b`: the elements
      of `a` occur in `b` in the same order. */
  predicate IsSubseq<T(==)>(a: seq<T>, b: seq<T>)
    decreases |b|
  {
    if |a| == 0 then true
    else if |b| == 0 then false
    else (a[0] == b[0] && IsSubseq(a[1..], b[1..])) || IsSubseq(a, b[1..])
  }

  lemma {:induction false} SubseqRefl<T>(s: seq<T>)
    ensures IsSubseq(s, s)
    decreases |s|
  {
    if |s| > 0 {
      SubseqRefl(s[1..]);
    }
  }

  /** Everything in a subsequence occurs in the whole. */
  lemma {:induction false} SubseqMembers<T>(a: seq<T>, b: seq<T>)
    requires IsSubseq(a, b)
    ensures forall x :: x in a ==> x in b
    decreases |b|
  {
    if |a| > 0 {
      if a[0] == b[0] && IsSubseq(a[1..], b[1..]) {
        SubseqMembers(a[1..], b[1..]);
        assert forall x :: x in a ==> x == a[0] || x in a[1..];
      } else {
        SubseqMembers(a, b[1..]);
      }
    }
  }

  /** Order-preserving filter, as `Array.prototype.filter`: the result is a
      subsequence of the input that keeps exactly the elements satisfying
      `p`, each as many times as it occurs. */
  function Filter<T(!new)>(s: seq<T>, p: T -> bool): (r: seq<T>)
    ensures IsSubseq(r, s)
    ensures forall x :: multiset(r)[x] == if p(x) then multiset(s)[x] else 0
    ensures forall x :: x in r <==> x in s && p(x)
    ensures |r| <= |s|
    decreases |s|
  {
    if |s| == 0 then []
    else
      var rest := Filter(s[1..], p);
      assert s == [s[0]] + s[1..];
      assert multiset(s) == multiset{s[0]} + multiset(s[1..]);
      if p(s[0]) then
        var r := [s[0]] + rest;
        assert r[1..] == rest;
        r
      else
        rest
  }

  /** A filter that keeps every element is the identity. */
  lemma {:induction false} FilterKeepsAll<T(!new)>(s: seq<T>, p: T -> bool)
    requires forall i :: 0 <= i < |s| ==> p(s[i])
    ensures Filter(s, p) == s
    decreases |s|
  {
    if |s| > 0 {
      FilterKeepsAll(s[1..], p);
    }
  }

  /** A filter that keeps as many elements as it is given kept every element. */
  lemma {:induction false} FilterFull<T(!new)>(s: seq<T>, p: T -> bool)
    requires |Filter(s, p)| == |s|
    ensures forall i :: 0 <= i < |s| ==> p(s[i])
    decreases |s|
  {
    if |s| > 0 {
      assert |Filter(s, p)| == (if p(s[0]) then 1 else 0) + |Filter(s[1..], p)|;
      FilterFull(s[1..], p);
      forall i | 1 <= i < |s|
        ensures p(s[i])
      {
        assert s[i] == s[1..][i - 1];
      }
    }
  }

  /** Filtering distributes over concatenation. */
  lemma {:induction false} FilterAppend<T(!new)>(a: seq<T>, b: seq<T>, p: T -> bool)
    ensures Filter(a + b, p) == Filter(a, p) + Filter(b, p)
    decreases |a|
  {
    if |a| == 0 {
      assert a + b == b;
    } else {
      assert (a + b)[1..] == a[1..] + b;
      FilterAppend(a[1..], b, p);
    }
  }

  /** Filtering twice by the same predicate is filtering once. */
  lemma {:induction false} FilterIdempotent<T(!new)>(s: seq<T>, p: T -> bool)
    ensures Filter(Filter(s, p), p) == Filter(s, p)
  {
    var r := Filter(s, p);
    forall i | 0 <= i < |r|
      ensures p(r[i])
    {
      assert r[i] in r;
    }
    FilterKeepsAll(r, p);
  }

  /** The index of the first element satisfying `p`, as `Array.prototype.findIndex`. */
  function FindIndex<T>(s: seq<T>, p: T -> bool): (r: Option<nat>)
    ensures r.Some? ==> r.value < |s| && p(s[r.value])
    ensures r.Some? ==> forall j :: 0 <= j < r.value ==> !p(s[j])
    ensures r.None? <==> forall j :: 0 <= j < |s| ==> !p(s[j])
    decreases |s|
  {
    if |s| == 0 then None
    else if p(s[0]) then Some(0)
    else
      match FindIndex(s[1..], p)
      case None => None
      case Some(k) => Some(k + 1)
  }

  /** The first element satisfying `p`, as `Array.prototype.find`. */
  function Find<T>(s: seq<T>, p: T -> bool): (r: Option<T>)
    ensures r.None? <==> forall j :: 0 <= j < |s| ==> !p(s[j])
    ensures r.Some? ==> exists k :: 0 <= k < |s| && s[k] == r.value && p(s[k]) && forall j :: 0 <= j < k ==> !p(s[j])
  {
    match FindIndex(s, p)
    case None => None
    case Some(k) => Some(s[k])
  }

  /** Every occurrence of `x` removed, as `s.filter(y => y !== x)`. */
  function RemoveAll<T(==,!new)>(s: seq<T>, x: T): (r: seq<T>)
    ensures x !in r
    ensures forall y :: y != x ==> multiset(r)[y] == multiset(s)[y]
    ensures IsSubseq(r, s)
  {
    Filter(s, y => y != x)
  }

  /** Removing an absent element changes nothing. */
  lemma RemoveAbsent<T(!new)>(s: seq<T>, x: T)
    requires x !in s
    ensures RemoveAll(s, x) == s
  {
    FilterKeepsAll(s, y => y != x);
  }

  /** The list toggle used by the admin forms: an id already present is
      filtered out (every occurrence), otherwise it is appended once. */
  function Toggle<T(==,!new)>(s: seq<T>, x: T): (r: seq<T>)
    ensures x in r <==> x !in s
    ensures forall y :: y != x ==> multiset(r)[y] == multiset(s)[y]
    ensures x !in s ==> |r| == |s| + 1 && r[..|s|] == s && r[|s|] == x
    ensures x in s ==> IsSubseq(r, s)
  {
    if x in s then RemoveAll(s, x) else s + [x]
  }

  /** Toggling an absent id twice restores the original list. */
  lemma {:induction false} ToggleTwiceRestores<T(!new)>(s: seq<T>, x: T)
    requires x !in s
    ensures Toggle(Toggle(s, x), x) == s
  {
    assert x in s + [x];
    FilterAppend(s, [x], y => y != x);
    RemoveAbsent(s, x);
    assert Filter([x], y => y != x) == [];
  }
}
