/**
 * The model of `Array.prototype.sort` with a consistent comparator `cmp`:
 * a stable sort in which `a` may stay ahead of `b` exactly when `cmp(a, b) <= 0`.
 * Such a sort has only one possible result, which insertion sort computes.
 */
module Sorting {
  import opened Sequences

  /** `le` is total and transitive: the relation "`cmp(a, b) <= 0`" of a consistent comparator. */
  ghost predicate TotalPreorder<T(!new)>(le: (T, T) -> bool) {
    && (forall a, b :: le(a, b) || le(b, a))
    && (forall a, b, c :: le(a, b) && le(b, c) ==> le(a, c))
  }

  ghost predicate SortedBy<T>(le: (T, T) -> bool, s: seq<T>) {
    forall i, j :: 0 <= i < j < |s| ==> le(s[i], s[j])
  }

  /** Sortedness follows from sortedness of neighbours when `le` is transitive. */
  lemma {:induction false} SortedByNeighbours<T(!new)>(le: (T, T) -> bool, s: seq<T>)
    requires forall a, b, c :: le(a, b) && le(b, c) ==> le(a, c)
    requires forall i :: 0 <= i < |s| - 1 ==> le(s[i], s[i + 1])
    ensures SortedBy(le, s)
  {
    if |s| > 1 {
      var t := s[1..];
      assert forall i :: 0 <= i < |t| - 1 ==> le(t[i], t[i + 1]) by {
        forall i | 0 <= i < |t| - 1 ensures le(t[i], t[i + 1]) {
          assert t[i] == s[i + 1] && t[i + 1] == s[i + 2];
        }
      }
      SortedByNeighbours(le, t);
      forall i, j | 0 <= i < j < |s| ensures le(s[i], s[j]) {
        if i == 0 {
          if j > 1 {
            assert le(s[1], s[j]) by {
              assert s[1] == t[0] && s[j] == t[j - 1];
            }
          }
        } else {
          assert s[i] == t[i - 1] && s[j] == t[j - 1];
        }
      }
    }
  }

  /** Places `x` in front of the first element it may precede. */
  function Insert<T>(le: (T, T) -> bool, x: T, s: seq<T>): (r: seq<T>)
    ensures multiset(r) == multiset(s) + multiset{x}
  {
    if s == [] then [x]
    else if le(x, s[0]) then [x] + s
    else
      assert s == [s[0]] + s[1..];
      [s[0]] + Insert(le, x, s[1..])
  }

  /** `s.sort(cmp)` where `le(a, b) == (cmp(a, b) <= 0)`. */
  function SortBy<T>(le: (T, T) -> bool, s: seq<T>): (r: seq<T>)
    ensures |r| == |s| && multiset(r) == multiset(s)
  {
    if s == [] then []
    else
      assert s == [s[0]] + s[1..];
      assert multiset(s) == multiset(s[1..]) + multiset{s[0]};
      Insert(le, s[0], SortBy(le, s[1..]))
  }

  /** An element that may precede nothing in `s` goes to the end. */
  lemma {:induction false} InsertLast<T>(le: (T, T) -> bool, x: T, s: seq<T>)
    requires forall y :: y in s ==> !le(x, y)
    ensures Insert(le, x, s) == s + [x]
  {
    if s != [] {
      var t := s[1..];
      assert s == [s[0]] + t;
      assert !le(x, s[0]);
      forall y | y in t ensures !le(x, y) {
        assert y in s;
      }
      InsertLast(le, x, t);
      assert [s[0]] + (t + [x]) == s + [x];
    }
  }

  /** `s` back to front. */
  function Reversed<T>(s: seq<T>): (r: seq<T>)
    ensures |r| == |s|
    ensures forall i :: 0 <= i < |s| ==> r[i] == s[|s| - 1 - i]
  {
    if s == [] then [] else Reversed(s[1..]) + [s[0]]
  }

  /**
   * Elements that each may precede nothing behind them, and nothing in the
   * sorted rest, end up at the back in reverse order.
   */
  lemma {:induction false} SortBelow<T>(le: (T, T) -> bool, p: seq<T>, q: seq<T>)
    requires forall i, j :: 0 <= i < j < |p| ==> !le(p[i], p[j])
    requires forall x, y :: x in p && y in SortBy(le, q) ==> !le(x, y)
    ensures SortBy(le, p + q) == SortBy(le, q) + Reversed(p)
  {
    if p == [] {
      assert p + q == q;
    } else {
      var p' := p[1..];
      assert (p + q)[1..] == p' + q;
      assert (p + q)[0] == p[0];
      forall i, j | 0 <= i < j < |p'| ensures !le(p'[i], p'[j]) {
        assert p'[i] == p[i + 1] && p'[j] == p[j + 1];
      }
      assert forall x :: x in p' ==> x in p;
      SortBelow(le, p', q);
      var t := SortBy(le, q) + Reversed(p');
      ReversedMembers(p');
      forall y | y in t ensures !le(p[0], y) {
        assert p[0] in p;
      }
      InsertLast(le, p[0], t);
      AppendAssoc(SortBy(le, q), Reversed(p'), [p[0]]);
    }
  }

  lemma ReversedMembers<T>(s: seq<T>)
    ensures forall y :: y in Reversed(s) ==> y in s
  {
    forall y | y in Reversed(s) ensures y in s {
      var k :| 0 <= k < |s| && Reversed(s)[k] == y;
      assert s[|s| - 1 - k] == y;
    }
  }

  lemma AppendAssoc<T>(a: seq<T>, b: seq<T>, c: seq<T>)
    ensures (a + b) + c == a + (b + c)
  {
  }

  /** Where `Insert` puts `x`. */
  function InsertPos<T>(le: (T, T) -> bool, x: T, s: seq<T>): (k: nat)
    ensures k <= |s|
  {
    if s == [] || le(x, s[0]) then 0 else 1 + InsertPos(le, x, s[1..])
  }

  /** `Insert` splices `x` in at `InsertPos`, after elements that `x` may not precede. */
  lemma InsertShape<T>(le: (T, T) -> bool, x: T, s: seq<T>)
    ensures var k := InsertPos(le, x, s);
      && Insert(le, x, s) == s[..k] + [x] + s[k..]
      && forall i :: 0 <= i < k ==> !le(x, s[i])
  {
    InsertSplice(le, x, s);
    InsertPosBelow(le, x, s);
  }

  lemma {:induction false} InsertSplice<T>(le: (T, T) -> bool, x: T, s: seq<T>)
    ensures Insert(le, x, s) == s[..InsertPos(le, x, s)] + [x] + s[InsertPos(le, x, s)..]
  {
    if s != [] && !le(x, s[0]) {
      var t := s[1..];
      InsertSplice(le, x, t);
      var k := InsertPos(le, x, t);
      var a, b := t[..k], t[k..];
      assert s[..k + 1] == [s[0]] + a;
      assert s[k + 1..] == b;
      AppendAssoc([s[0]], a + [x], b);
      AppendAssoc([s[0]], a, [x]);
    } else {
      assert s[..0] == [] && s[0..] == s;
    }
  }

  lemma {:induction false} InsertPosBelow<T>(le: (T, T) -> bool, x: T, s: seq<T>)
    ensures forall i :: 0 <= i < InsertPos(le, x, s) ==> !le(x, s[i])
  {
    if s != [] && !le(x, s[0]) {
      InsertPosBelow(le, x, s[1..]);
      forall i | 0 < i < InsertPos(le, x, s) ensures !le(x, s[i]) {
        assert s[i] == s[1..][i - 1];
      }
    }
  }

  lemma {:induction false} InsertSorted<T(!new)>(le: (T, T) -> bool, x: T, s: seq<T>)
    requires TotalPreorder(le) && SortedBy(le, s)
    ensures SortedBy(le, Insert(le, x, s))
  {
    if s == [] {
    } else if le(x, s[0]) {
      forall y | y in s ensures le(x, y) {
        var k :| 0 <= k < |s| && s[k] == y;
        if k > 0 {
          assert le(s[0], s[k]);
        }
      }
      SortedCons(le, x, s);
    } else {
      var t := s[1..];
      SortedTail(le, s);
      InsertSorted(le, x, t);
      var t' := Insert(le, x, t);
      assert le(s[0], x);
      forall y | y in t' ensures le(s[0], y) {
        assert y in multiset(t');
        if y != x {
          assert y in multiset(t);
          var k :| 0 <= k < |t| && t[k] == y;
          assert s[k + 1] == y;
        }
      }
      SortedCons(le, s[0], t');
    }
  }

  /** Dropping the head keeps a sequence ordered. */
  lemma SortedTail<T>(le: (T, T) -> bool, s: seq<T>)
    requires s != [] && SortedBy(le, s)
    ensures SortedBy(le, s[1..])
  {
    var t := s[1..];
    forall i, j | 0 <= i < j < |t| ensures le(t[i], t[j]) {
      assert t[i] == s[i + 1] && t[j] == s[j + 1];
    }
  }

  /** An element that may precede everything in an ordered sequence may head it. */
  lemma SortedCons<T>(le: (T, T) -> bool, a: T, t: seq<T>)
    requires SortedBy(le, t) && forall y :: y in t ==> le(a, y)
    ensures SortedBy(le, [a] + t)
  {
    var r := [a] + t;
    forall i, j | 0 <= i < j < |r| ensures le(r[i], r[j]) {
      if i == 0 {
        assert r[j] == t[j - 1];
        assert r[j] in t;
      } else {
        assert r[i] == t[i - 1] && r[j] == t[j - 1];
      }
    }
  }

  /** The result of a sort is ordered. */
  lemma {:induction false} SortBySorted<T(!new)>(le: (T, T) -> bool, s: seq<T>)
    requires TotalPreorder(le)
    ensures SortedBy(le, SortBy(le, s))
  {
    if s != [] {
      SortBySorted(le, s[1..]);
      InsertSorted(le, s[0], SortBy(le, s[1..]));
    }
  }

  /** The sort keeps exactly the elements it was given. */
  lemma SortByMembers<T>(le: (T, T) -> bool, s: seq<T>)
    ensures forall x :: x in SortBy(le, s) <==> x in s
  {
    var r := SortBy(le, s);
    forall x ensures x in r <==> x in s {
      assert x in r <==> x in multiset(r);
      assert x in s <==> x in multiset(s);
    }
  }

  /** A list of at most one element is its own sort. */
  lemma SortShort<T>(le: (T, T) -> bool, s: seq<T>)
    requires |s| <= 1
    ensures SortBy(le, s) == s
  {
    if |s| == 1 {
      assert s[1..] == [];
    }
  }

  /** Sorting an ordered sequence leaves it as it is. */
  lemma {:induction false} SortBySortedIdentity<T>(le: (T, T) -> bool, s: seq<T>)
    requires SortedBy(le, s)
    ensures SortBy(le, s) == s
  {
    if s != [] {
      var t := s[1..];
      assert SortedBy(le, t) by {
        forall i, j | 0 <= i < j < |t| ensures le(t[i], t[j]) {
          assert t[i] == s[i + 1] && t[j] == s[j + 1];
        }
      }
      SortBySortedIdentity(le, t);
      if t != [] {
        assert le(s[0], t[0]);
      }
      assert [s[0]] + t == s;
    }
  }

  /** The elements that `le` cannot tell apart from `c`. */
  function TiedWith<T>(le: (T, T) -> bool, c: T): T -> bool {
    y => le(c, y) && le(y, c)
  }

  lemma {:induction false} InsertFilter<T(!new)>(le: (T, T) -> bool, p: T -> bool, x: T, s: seq<T>)
    requires forall y :: p(x) && p(y) ==> le(x, y)
    ensures FilterBy(p, Insert(le, x, s)) == if p(x) then [x] + FilterBy(p, s) else FilterBy(p, s)
  {
    if s == [] {
    } else if le(x, s[0]) {
      assert ([x] + s)[1..] == s;
    } else {
      InsertFilter(le, p, x, s[1..]);
      assert ([s[0]] + Insert(le, x, s[1..]))[1..] == Insert(le, x, s[1..]);
    }
  }

  /** Stability: the elements tied with any `c` come out in their input order. */
  lemma {:induction false} SortByStable<T(!new)>(le: (T, T) -> bool, s: seq<T>, c: T)
    requires TotalPreorder(le)
    ensures FilterBy(TiedWith(le, c), SortBy(le, s)) == FilterBy(TiedWith(le, c), s)
  {
    if s != [] {
      var p := TiedWith(le, c);
      SortByStable(le, s[1..], c);
      InsertFilter(le, p, s[0], SortBy(le, s[1..]));
    }
  }

  /** No element that `le` lets go first stands behind one that `before` says it must precede. */
  ghost predicate TiesKeep<T>(le: (T, T) -> bool, before: (T, T) -> bool, r: seq<T>) {
    forall i, j :: 0 <= i < j < |r| && le(r[j], r[i]) ==> !before(r[j], r[i])
  }

  /**
   * When no later input element must go before an earlier one by `before`,
   * no two tied elements come out in an order `before` forbids.
   */
  lemma {:induction false} SortByKeepsOrder<T>(le: (T, T) -> bool, before: (T, T) -> bool, s: seq<T>)
    requires forall i, j :: 0 <= i < j < |s| ==> !before(s[j], s[i])
    ensures TiesKeep(le, before, SortBy(le, s))
  {
    if s != [] {
      var x, t := s[0], s[1..];
      assert forall i, j :: 0 <= i < j < |t| ==> !before(t[j], t[i]) by {
        forall i, j | 0 <= i < j < |t| ensures !before(t[j], t[i]) {
          assert t[i] == s[i + 1] && t[j] == s[j + 1];
        }
      }
      SortByKeepsOrder(le, before, t);
      var r' := SortBy(le, t);
      assert forall y :: y in r' ==> !before(y, x) by {
        forall y | y in r' ensures !before(y, x) {
          assert y in multiset(t);
          var n :| 0 <= n < |t| && t[n] == y;
          assert s[n + 1] == y;
        }
      }
      InsertKeepsOrder(le, before, x, r');
    }
  }

  lemma InsertKeepsOrder<T>(le: (T, T) -> bool, before: (T, T) -> bool, x: T, s: seq<T>)
    requires TiesKeep(le, before, s)
    requires forall y :: y in s ==> !before(y, x)
    ensures TiesKeep(le, before, Insert(le, x, s))
  {
    InsertShape(le, x, s);
    var k := InsertPos(le, x, s);
    var r := Insert(le, x, s);
    assert |r| == |s| + 1;
    assert forall i :: 0 <= i < k ==> r[i] == s[i];
    assert r[k] == x;
    assert forall i :: k < i < |r| ==> r[i] == s[i - 1];
    forall i, j | 0 <= i < j < |r| && le(r[j], r[i]) ensures !before(r[j], r[i]) {
      if i == k {
        assert r[j] in s;
      } else if j == k {
      } else {
        var i' := if i < k then i else i - 1;
        var j' := if j < k then j else j - 1;
        assert r[i] == s[i'] && r[j] == s[j'];
      }
    }
  }

  lemma {:induction false} InsertDistinct<T(!new), K>(le: (T, T) -> bool, key: T -> K, x: T, s: seq<T>)
    requires DistinctBy(key, s)
    requires forall y :: y in s ==> key(y) != key(x)
    ensures DistinctBy(key, Insert(le, x, s))
  {
    InsertShape(le, x, s);
    var k := InsertPos(le, x, s);
    var r := Insert(le, x, s);
    forall i, j | 0 <= i < j < |r| ensures key(r[i]) != key(r[j]) {
      if i == k {
        assert r[j] == s[j - 1];
      } else if j == k {
        assert r[i] == s[i];
      } else {
        var i' := if i < k then i else i - 1;
        var j' := if j < k then j else j - 1;
        assert r[i] == s[i'] && r[j] == s[j'];
      }
    }
  }

  /** Sorting cannot create two elements with the same key. */
  lemma {:induction false} SortByDistinct<T(!new), K>(le: (T, T) -> bool, key: T -> K, s: seq<T>)
    requires DistinctBy(key, s)
    ensures DistinctBy(key, SortBy(le, s))
  {
    if s != [] {
      var t := s[1..];
      assert DistinctBy(key, t) by {
        forall i, j | 0 <= i < j < |t| ensures key(t[i]) != key(t[j]) {
          assert t[i] == s[i + 1] && t[j] == s[j + 1];
        }
      }
      SortByDistinct(le, key, t);
      forall y | y in SortBy(le, t) ensures key(y) != key(s[0]) {
        assert y in multiset(t);
        var n :| 0 <= n < |t| && t[n] == y;
        assert s[n + 1] == y;
      }
      InsertDistinct(le, key, s[0], SortBy(le, t));
    }
  }
}
