/** Sequence helpers: the iterator adapters the program chains over its
    vectors (`filter`, `position`, `map`), as functions on Dafny sequences. */
module Collections {

  datatype Option<T> = None | Some(value: T)

  /** The elements of `r` occur in `s` in the same order (not necessarily adjacent). */
  ghost predicate IsSubsequence<T>(r: seq<T>, s: seq<T>)
    decreases |s|
  {
    r == [] ||
    (s != [] && ((r[0] == s[0] && IsSubsequence(r[1..], s[1..])) || IsSubsequence(r, s[1..])))
  }

  /** Every sequence is a subsequence of itself. */
  lemma {:induction false} SubsequenceOfSelf<T>(s: seq<T>)
    ensures IsSubsequence(s, s)
    decreases |s|
  {
    if s != [] {
      SubsequenceOfSelf(s[1..]);
    }
  }

  /** Deleting one element leaves a subsequence. */
  lemma {:induction false} DropOneIsSubsequence<T>(s: seq<T>, i: nat)
    requires i < |s|
    ensures IsSubsequence(s[..i] + s[i + 1..], s)
  {
    var r := s[..i] + s[i + 1..];
    if i == 0 {
      assert r == s[1..];
      SubsequenceOfSelf(s[1..]);
    } else {
      DropOneIsSubsequence(s[1..], i - 1);
      assert r[0] == s[0] && r[1..] == s[1..][..i - 1] + s[1..][i..];
    }
  }

  /** A subsequence of a subsequence of `c` is a subsequence of `c`. */
  lemma {:induction false} SubsequenceTransitive<T>(a: seq<T>, b: seq<T>, c: seq<T>)
    requires IsSubsequence(a, b) && IsSubsequence(b, c)
    ensures IsSubsequence(a, c)
    decreases |c|
  {
    if a != [] {
      if IsSubsequence(b, c[1..]) {
        SubsequenceTransitive(a, b, c[1..]);
      } else if a[0] == b[0] && IsSubsequence(a[1..], b[1..]) {
        SubsequenceTransitive(a[1..], b[1..], c[1..]);
      } else {
        SubsequenceTransitive(a, b[1..], c[1..]);
      }
    }
  }

  /** `iter().filter(p).collect()`: the elements of `s` satisfying `p`, in order. */
  function Filter<T>(p: T -> bool, s: seq<T>): (r: seq<T>)
    ensures |r| <= |s|
    ensures forall k :: 0 <= k < |r| ==> r[k] in s && p(r[k])
    ensures forall k :: 0 <= k < |s| && p(s[k]) ==> s[k] in r
    ensures IsSubsequence(r, s)
  {
    if s == [] then []
    else if p(s[0]) then [s[0]] + Filter(p, s[1..])
    else Filter(p, s[1..])
  }

  /** The filter keeps every copy: an element satisfying `p` occurs as often
      in the result as in `s`, and any other element not at all. */
  lemma {:induction false} FilterCounts<T>(p: T -> bool, s: seq<T>)
    ensures forall k {:trigger multiset(Filter(p, s))[s[k]]} :: 0 <= k < |s| ==>
      multiset(Filter(p, s))[s[k]] == if p(s[k]) then multiset(s)[s[k]] else 0
  {
    if s != [] {
      FilterCounts(p, s[1..]);
      assert s == [s[0]] + s[1..];
      forall k | 0 <= k < |s|
        ensures multiset(Filter(p, s))[s[k]] == if p(s[k]) then multiset(s)[s[k]] else 0
      {
        if k > 0 {
          assert s[k] == s[1..][k - 1];
        }
        if s[k] !in s[1..] {
          assert s[k] !in Filter(p, s[1..]);
        }
      }
    }
  }

  /** Filtering a concatenation filters each part: the order of the kept elements is the input order. */
  lemma {:induction false} FilterConcat<T>(p: T -> bool, a: seq<T>, b: seq<T>)
    ensures Filter(p, a + b) == Filter(p, a) + Filter(p, b)
  {
    if a == [] {
      assert a + b == b;
    } else {
      assert (a + b)[0] == a[0] && (a + b)[1..] == a[1..] + b;
      FilterConcat(p, a[1..], b);
    }
  }

  /** Deleting an element the filter rejects does not change the result. */
  lemma FilterWithoutRejected<T>(p: T -> bool, s: seq<T>, i: nat)
    requires i < |s| && !p(s[i])
    ensures Filter(p, s[..i] + s[i + 1..]) == Filter(p, s)
  {
    var tail := s[i..];
    assert tail[0] == s[i] && tail[1..] == s[i + 1..];
    assert s == s[..i] + tail;
    FilterConcat(p, s[..i], tail);
    FilterConcat(p, s[..i], s[i + 1..]);
  }

  /** A filter that keeps every element is the identity. */
  lemma {:induction false} FilterKeepsAll<T>(p: T -> bool, s: seq<T>)
    requires forall k :: 0 <= k < |s| ==> p(s[k])
    ensures Filter(p, s) == s
  {
    if s != [] {
      FilterKeepsAll(p, s[1..]);
    }
  }

  /** Filtering by a stronger condition keeps a subsequence of what a weaker one keeps. */
  lemma {:induction false} FilterNarrower<T>(p: T -> bool, q: T -> bool, s: seq<T>)
    requires forall k :: 0 <= k < |s| && p(s[k]) ==> q(s[k])
    ensures IsSubsequence(Filter(p, s), Filter(q, s))
  {
    if s != [] {
      FilterNarrower(p, q, s[1..]);
      if p(s[0]) {
        assert ([s[0]] + Filter(p, s[1..]))[1..] == Filter(p, s[1..]);
        assert ([s[0]] + Filter(q, s[1..]))[1..] == Filter(q, s[1..]);
      } else if q(s[0]) {
        assert ([s[0]] + Filter(q, s[1..]))[1..] == Filter(q, s[1..]);
      }
    }
  }

  /** `iter().any(p)`: whether some element satisfies `p`. */
  function Any<T>(p: T -> bool, s: seq<T>): (b: bool)
    ensures b <==> exists k :: 0 <= k < |s| && p(s[k])
  {
    s != [] && (p(s[0]) || Any(p, s[1..]))
  }

  /** `iter().position(p)`: the index of the first element satisfying `p`, if any. */
  function Position<T>(p: T -> bool, s: seq<T>): (r: Option<nat>)
    ensures r.Some? ==> r.value < |s| && p(s[r.value])
    ensures r.Some? ==> forall j :: 0 <= j < r.value ==> !p(s[j])
    ensures r.None? <==> forall j :: 0 <= j < |s| ==> !p(s[j])
  {
    if s == [] then None
    else if p(s[0]) then Some(0)
    else match Position(p, s[1..])
      case None => None
      case Some(i) => Some(i + 1)
  }

  /** `iter().map(f).collect()`. */
  function Map<T, U>(f: T -> U, s: seq<T>): (r: seq<U>)
    ensures |r| == |s|
    ensures forall k :: 0 <= k < |s| ==> r[k] == f(s[k])
  {
    if s == [] then [] else [f(s[0])] + Map(f, s[1..])
  }
}
