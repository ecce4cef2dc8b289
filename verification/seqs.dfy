/** Order-preserving selection over sequences: the `Array.prototype.filter`
    and `Array.prototype.find` of JavaScript, with their exact contracts. */
module Seqs {

  import opened Options

  /** `a` is `b` with zero or more elements deleted, the rest in their original order. */
  predicate IsSubsequence<T(==)>(a: seq<T>, b: seq<T>)
    decreases |b|
  {
    || |a| == 0
    || (&& |b| > 0
        && ((a[0] == b[0] && IsSubsequence(a[1..], b[1..])) || IsSubsequence(a, b[1..])))
  }

  /** Every sequence is a subsequence of itself. */
  lemma {:induction false} SubsequenceReflexive<T>(s: seq<T>)
    ensures IsSubsequence(s, s)
    decreases |s|
  {
    if |s| > 0 {
      SubsequenceReflexive(s[1..]);
    }
  }

  /** The elements of `s` that satisfy `p`, in order. The three ensures pin the
      result down completely: it contains each kept value exactly as often as
      `s` does, none of the dropped ones, and in the order of `s`. */
  function Filter<T(==,!new)>(p: T -> bool, s: seq<T>): (r: seq<T>)
    ensures forall x :: x in r <==> x in s && p(x)
    ensures forall x :: multiset(r)[x] == if p(x) then multiset(s)[x] else 0
    ensures IsSubsequence(r, s)
    decreases |s|
  {
    if |s| == 0 then []
    else
      assert s == [s[0]] + s[1..];
      if p(s[0]) then [s[0]] + Filter(p, s[1..]) else Filter(p, s[1..])
  }

  /** The index of the first element of `s` that satisfies `p`, if any. */
  function FindFirst<T>(p: T -> bool, s: seq<T>): (r: Option<nat>)
    ensures r.Some? ==> r.value < |s| && p(s[r.value]) && forall j :: 0 <= j < r.value ==> !p(s[j])
    ensures r.None? <==> forall j :: 0 <= j < |s| ==> !p(s[j])
    decreases |s|
  {
    if |s| == 0 then None
    else if p(s[0]) then Some(0)
    else
      match FindFirst(p, s[1..])
      case None => None
      case Some(i) => Some(i + 1)
  }

  /** A filter that rejects nothing returns its input. */
  lemma {:induction false} FilterKeepsAll<T(!new)>(p: T -> bool, s: seq<T>)
    requires forall x :: x in s ==> p(x)
    ensures Filter(p, s) == s
    decreases |s|
  {
    if |s| > 0 {
      FilterKeepsAll(p, s[1..]);
    }
  }

  /** Filters whose predicates agree on the elements of `s` give the same result. */
  lemma {:induction false} FilterAgree<T(!new)>(p: T -> bool, q: T -> bool, s: seq<T>)
    requires forall x :: x in s ==> p(x) == q(x)
    ensures Filter(p, s) == Filter(q, s)
    decreases |s|
  {
    if |s| > 0 {
      FilterAgree(p, q, s[1..]);
    }
  }

  /** Filtering twice with the same predicate is filtering once. */
  lemma FilterIdempotent<T(!new)>(p: T -> bool, s: seq<T>)
    ensures Filter(p, Filter(p, s)) == Filter(p, s)
  {
    FilterKeepsAll(p, Filter(p, s));
  }

  /** Two filters may be applied in either order. */
  lemma {:induction false} FilterCommutes<T(!new)>(p: T -> bool, q: T -> bool, s: seq<T>)
    ensures Filter(p, Filter(q, s)) == Filter(q, Filter(p, s))
    decreases |s|
  {
    if |s| > 0 {
      var t := s[1..];
      FilterCommutes(p, q, t);
      if q(s[0]) {
        assert Filter(q, s) == [s[0]] + Filter(q, t);
        assert Filter(p, Filter(q, s)) == (if p(s[0]) then [s[0]] + Filter(p, Filter(q, t)) else Filter(p, Filter(q, t))) by {
          var u := [s[0]] + Filter(q, t);
          assert u[0] == s[0] && u[1..] == Filter(q, t);
        }
      }
      if p(s[0]) {
        assert Filter(p, s) == [s[0]] + Filter(p, t);
        assert Filter(q, Filter(p, s)) == (if q(s[0]) then [s[0]] + Filter(q, Filter(p, t)) else Filter(q, Filter(p, t))) by {
          var u := [s[0]] + Filter(p, t);
          assert u[0] == s[0] && u[1..] == Filter(p, t);
        }
      }
    }
  }
}
