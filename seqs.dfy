/** Generic sequence helpers shared by the model: an Option type, order-preserving
    filtering (the store queries) and joining with a separator (str.join). */
module Seqs {

  datatype Option<+T> = None | Some(value: T)

  /** The elements of `s` that satisfy `p`, in their original order. */
  function Filter<T(!new)>(s: seq<T>, p: T -> bool): (r: seq<T>)
    ensures |r| <= |s|
    ensures forall x :: x in r <==> x in s && p(x)
    ensures (forall x :: x in s ==> !p(x)) ==> r == []
  {
    if s == [] then []
    else if p(s[0]) then [s[0]] + Filter(s[1..], p)
    else Filter(s[1..], p)
  }

  /** Filtering distributes over concatenation, so it keeps relative order. */
  lemma {:induction false} FilterAppend<T(!new)>(a: seq<T>, b: seq<T>, p: T -> bool)
    ensures Filter(a + b, p) == Filter(a, p) + Filter(b, p)
  {
    if a == [] {
      assert a + b == b;
    } else {
      assert (a + b)[1..] == a[1..] + b;
      FilterAppend(a[1..], b, p);
    }
  }

  /** Filtering depends only on which elements the predicate keeps. */
  lemma {:induction false} FilterSame<T(!new)>(s: seq<T>, p: T -> bool, q: T -> bool)
    requires forall x :: x in s ==> p(x) == q(x)
    ensures Filter(s, p) == Filter(s, q)
  {
    if s != [] {
      FilterSame(s[1..], p, q);
    }
  }

  /** Filtering twice is filtering once by both predicates. */
  lemma {:induction false} FilterTwice<T(!new)>(s: seq<T>, p: T -> bool, q: T -> bool, both: T -> bool)
    requires forall x :: x in s ==> both(x) == (p(x) && q(x))
    ensures Filter(Filter(s, p), q) == Filter(s, both)
  {
    if s != [] {
      FilterTwice(s[1..], p, q, both);
    }
  }

  /** `parts` joined with `sep` between consecutive parts, as Python's sep.join(parts). */
  function Join<T>(sep: seq<T>, parts: seq<seq<T>>): seq<T>
  {
    if parts == [] then []
    else if |parts| == 1 then parts[0]
    else parts[0] + sep + Join(sep, parts[1..])
  }

  /** `s` begins with `prefix`. */
  predicate StartsWith<T(==)>(s: seq<T>, prefix: seq<T>)
  {
    |prefix| <= |s| && s[..|prefix|] == prefix
  }

  /** `s` ends with `suffix`. */
  predicate EndsWith<T(==)>(s: seq<T>, suffix: seq<T>)
  {
    |suffix| <= |s| && s[|s| - |suffix|..] == suffix
  }

  /** What lies between a known prefix and a known suffix of `s`. */
  function Between<T(==)>(s: seq<T>, prefix: seq<T>, suffix: seq<T>): (r: seq<T>)
    requires |prefix| + |suffix| <= |s|
    ensures StartsWith(s, prefix) && EndsWith(s, suffix) ==> s == prefix + r + suffix
  {
    s[|prefix|..|s| - |suffix|]
  }

  /** Stripping a prefix and a suffix undoes adding them. */
  lemma BetweenOfWrapped<T>(prefix: seq<T>, x: seq<T>, suffix: seq<T>)
    ensures var s := prefix + x + suffix;
      StartsWith(s, prefix) && EndsWith(s, suffix) && Between(s, prefix, suffix) == x
  {
  }

  /** `pattern` occurs in `s` starting at index `j`. */
  predicate OccursAt<T(==)>(s: seq<T>, pattern: seq<T>, j: int)
  {
    0 <= j && j + |pattern| <= |s| && s[j..j + |pattern|] == pattern
  }

  /** An occurrence at `j` in `s` is an occurrence at `j - 1` in its tail. */
  lemma OccursInTail<T>(s: seq<T>, pattern: seq<T>, j: int)
    requires 1 <= j <= |s|
    ensures OccursAt(s, pattern, j) == OccursAt(s[1..], pattern, j - 1)
  {
    if j + |pattern| <= |s| {
      var here := s[j..j + |pattern|];
      var there := s[1..][j - 1..j - 1 + |pattern|];
      forall k | 0 <= k < |pattern|
        ensures here[k] == there[k]
      {
        assert here[k] == s[j + k];
        assert there[k] == s[1..][j - 1 + k];
      }
      assert here == there;
    }
  }

  /** `s.find(pattern)`: the first index where `pattern` occurs in `s`. */
  function Find<T(==)>(s: seq<T>, pattern: seq<T>): (r: Option<nat>)
    ensures r.Some? ==> OccursAt(s, pattern, r.value) && forall j :: 0 <= j < r.value ==> !OccursAt(s, pattern, j)
    ensures r.None? ==> forall j :: 0 <= j <= |s| ==> !OccursAt(s, pattern, j)
  {
    if |s| < |pattern| then None
    else if s[..|pattern|] == pattern then Some(0)
    else
      assert forall j :: 1 <= j <= |s| ==> OccursAt(s, pattern, j) == OccursAt(s[1..], pattern, j - 1) by {
        forall j | 1 <= j <= |s|
          ensures OccursAt(s, pattern, j) == OccursAt(s[1..], pattern, j - 1)
        {
          OccursInTail(s, pattern, j);
        }
      }
      match Find(s[1..], pattern)
      case None => None
      case Some(k) => Some(k + 1)
  }
}
