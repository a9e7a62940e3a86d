/** Order-preserving filters over sequences: the model of `Array.prototype.filter`. */
module Sequences {

  /** `s.filter(p)`: the elements of `s` that satisfy `p`, in their original order. */
  function FilterBy<T(!new)>(p: T -> bool, s: seq<T>): (r: seq<T>)
    ensures |r| <= |s|
    ensures forall x :: x in r <==> x in s && p(x)
    ensures IsSubsequence(r, s)
  {
    if s == [] then []
    else if p(s[0]) then [s[0]] + FilterBy(p, s[1..])
    else FilterBy(p, s[1..])
  }

  /** `a` is obtained from `b` by deleting elements, keeping the order of the rest. */
  predicate IsSubsequence<T(==)>(a: seq<T>, b: seq<T>)
    decreases |b|
  {
    if a == [] then true
    else if b == [] then false
    else (a[0] == b[0] && IsSubsequence(a[1..], b[1..])) || IsSubsequence(a, b[1..])
  }

  /** Every sequence is a subsequence of itself. */
  lemma {:induction false} SubsequenceRefl<T>(s: seq<T>)
    ensures IsSubsequence(s, s)
  {
    if s != [] {
      SubsequenceRefl(s[1..]);
    }
  }

  /** Deleting from a subsequence gives a subsequence. */
  lemma {:induction false} SubsequenceTrans<T>(a: seq<T>, b: seq<T>, c: seq<T>)
    requires IsSubsequence(a, b) && IsSubsequence(b, c)
    ensures IsSubsequence(a, c)
    decreases |c|, |b|
  {
    if a == [] {
    } else if c == [] {
    } else if b[0] == c[0] && IsSubsequence(b[1..], c[1..]) {
      if a[0] == b[0] && IsSubsequence(a[1..], b[1..]) {
        SubsequenceTrans(a[1..], b[1..], c[1..]);
      } else {
        SubsequenceTrans(a, b[1..], c[1..]);
      }
    } else {
      SubsequenceTrans(a, b, c[1..]);
    }
  }

  /** The conjunction of two predicates, as one predicate. */
  function Both<T>(p: T -> bool, q: T -> bool): T -> bool {
    x => p(x) && q(x)
  }

  /** Two `filter` calls in a row keep the same elements as one call with the conjunction. */
  lemma {:induction false} FilterFilter<T(!new)>(p: T -> bool, q: T -> bool, s: seq<T>)
    ensures FilterBy(q, FilterBy(p, s)) == FilterBy(Both(p, q), s)
  {
    if s != [] {
      FilterFilter(p, q, s[1..]);
    }
  }

  /** So the order in which two filters are applied does not matter. */
  lemma FilterCommutes<T(!new)>(p: T -> bool, q: T -> bool, s: seq<T>)
    ensures FilterBy(q, FilterBy(p, s)) == FilterBy(p, FilterBy(q, s))
  {
    FilterFilter(p, q, s);
    FilterFilter(q, p, s);
    FilterSameOn(Both(p, q), Both(q, p), s);
  }

  /** Filters by predicates that agree on every element of `s` give the same result. */
  lemma {:induction false} FilterSameOn<T(!new)>(p: T -> bool, q: T -> bool, s: seq<T>)
    requires forall x :: x in s ==> p(x) == q(x)
    ensures FilterBy(p, s) == FilterBy(q, s)
  {
    if s != [] {
      FilterSameOn(p, q, s[1..]);
    }
  }

  /** A filter keeps everything when every element passes. */
  lemma {:induction false} FilterAll<T(!new)>(p: T -> bool, s: seq<T>)
    requires forall x :: x in s ==> p(x)
    ensures FilterBy(p, s) == s
  {
    if s != [] {
      FilterAll(p, s[1..]);
    }
  }

  /** A filter keeps nothing when no element passes. */
  lemma {:induction false} FilterNone<T(!new)>(p: T -> bool, s: seq<T>)
    requires forall x :: x in s ==> !p(x)
    ensures FilterBy(p, s) == []
  {
    if s != [] {
      FilterNone(p, s[1..]);
    }
  }

  /** Filtering twice by the same predicate is filtering once. */
  lemma FilterIdempotent<T(!new)>(p: T -> bool, s: seq<T>)
    ensures FilterBy(p, FilterBy(p, s)) == FilterBy(p, s)
  {
    FilterAll(p, FilterBy(p, s));
  }

  lemma {:induction false} FilterConcat<T(!new)>(p: T -> bool, a: seq<T>, b: seq<T>)
    ensures FilterBy(p, a + b) == FilterBy(p, a) + FilterBy(p, b)
  {
    if a == [] {
      assert a + b == b;
    } else {
      assert (a + b)[1..] == a[1..] + b;
      FilterConcat(p, a[1..], b);
    }
  }

  /** Filtering a prefix one element longer: the loop form of `filter`. */
  lemma FilterSnoc<T(!new)>(p: T -> bool, s: seq<T>, n: nat)
    requires n < |s|
    ensures FilterBy(p, s[..n + 1]) == FilterBy(p, s[..n]) + (if p(s[n]) then [s[n]] else [])
  {
    assert s[..n + 1] == s[..n] + [s[n]];
    FilterConcat(p, s[..n], [s[n]]);
  }

  /** A filter and its complement share the elements between them: their lengths add up to the input's. */
  lemma {:induction false} FilterComplement<T(!new)>(p: T -> bool, q: T -> bool, s: seq<T>)
    requires forall x :: q(x) == !p(x)
    ensures |FilterBy(p, s)| + |FilterBy(q, s)| == |s|
  {
    if s != [] {
      FilterComplement(p, q, s[1..]);
    }
  }

  /** A relation that holds between every earlier and later element still holds after filtering. */
  lemma {:induction false} FilterKeepsRelation<T(!new)>(p: T -> bool, rel: (T, T) -> bool, s: seq<T>)
    requires forall i, j :: 0 <= i < j < |s| ==> rel(s[i], s[j])
    ensures forall i, j :: 0 <= i < j < |FilterBy(p, s)| ==> rel(FilterBy(p, s)[i], FilterBy(p, s)[j])
  {
    if s != [] {
      var t := s[1..];
      forall i, j | 0 <= i < j < |t| ensures rel(t[i], t[j]) {
        assert t[i] == s[i + 1] && t[j] == s[j + 1];
      }
      FilterKeepsRelation(p, rel, t);
      var r := FilterBy(p, s);
      var r' := FilterBy(p, t);
      if p(s[0]) {
        assert r == [s[0]] + r';
        forall i, j | 0 <= i < j < |r| ensures rel(r[i], r[j]) {
          if i == 0 {
            assert r[j] == r'[j - 1] && r'[j - 1] in r';
            var k :| 0 <= k < |t| && t[k] == r[j];
            assert s[k + 1] == r[j];
          } else {
            assert r[i] == r'[i - 1] && r[j] == r'[j - 1];
          }
        }
      } else {
        assert r == r';
      }
    }
  }

  /** No two elements of `s` share a `key`. */
  ghost predicate DistinctBy<T, K>(key: T -> K, s: seq<T>) {
    forall i, j :: 0 <= i < j < |s| ==> key(s[i]) != key(s[j])
  }

  /** Filtering keeps exactly a contiguous run when the run is where `p` holds. */
  lemma {:induction false} FilterRun<T(!new)>(p: T -> bool, s: seq<T>, f: int, e: int)
    requires 0 <= f <= e <= |s|
    requires forall i :: 0 <= i < |s| ==> (p(s[i]) <==> f <= i < e)
    ensures FilterBy(p, s) == s[f..e]
  {
    var before, run, after := s[..f], s[f..e], s[e..];
    assert s == before + run + after;
    forall x | x in before ensures !p(x) {
      var i :| 0 <= i < |before| && before[i] == x;
      assert s[i] == x;
    }
    forall x | x in run ensures p(x) {
      var i :| 0 <= i < |run| && run[i] == x;
      assert s[f + i] == x;
    }
    forall x | x in after ensures !p(x) {
      var i :| 0 <= i < |after| && after[i] == x;
      assert s[e + i] == x;
    }
    FilterThree(p, before, run, after);
  }

  /** A run where `p` holds, between parts where it does not, is all that filtering keeps. */
  lemma FilterThree<T(!new)>(p: T -> bool, before: seq<T>, run: seq<T>, after: seq<T>)
    requires forall x :: x in before ==> !p(x)
    requires forall x :: x in run ==> p(x)
    requires forall x :: x in after ==> !p(x)
    ensures FilterBy(p, before + run + after) == run
  {
    FilterConcat(p, before + run, after);
    FilterConcat(p, before, run);
    FilterNone(p, before);
    FilterAll(p, run);
    FilterNone(p, after);
  }

  lemma {:induction false} FilterDistinct<T(!new), K>(key: T -> K, p: T -> bool, s: seq<T>)
    requires DistinctBy(key, s)
    ensures DistinctBy(key, FilterBy(p, s))
  {
    if s != [] {
      FilterDistinct(key, p, s[1..]);
      var r := FilterBy(p, s[1..]);
      if p(s[0]) {
        forall j | 0 <= j < |r| ensures key(s[0]) != key(r[j]) {
          assert r[j] in s[1..];
          var k :| 0 <= k < |s[1..]| && s[1..][k] == r[j];
          assert s[k + 1] == r[j];
        }
        var r' := [s[0]] + r;
        forall i, j | 0 <= i < j < |r'| ensures key(r'[i]) != key(r'[j]) {
          if i > 0 {
            assert r'[i] == r[i - 1] && r'[j] == r[j - 1];
          }
        }
      }
    }
  }
}
