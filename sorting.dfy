/**
 * `Array.prototype.sort` with a comparator, which ECMAScript requires to be
 * stable: elements the comparator calls equal keep their input order. It is
 * modelled by insertion sort over a total preorder `le` ("a sorts no later
 * than b"); app.js sorts stations by name (app.js:77) and ranked stations by
 * distance (app.js:236) this way.
 */
module Sorting {

  ghost predicate TotalPreorder<T(!new)>(le: (T, T) -> bool) {
    && (forall a, b :: le(a, b) || le(b, a))
    && (forall a, b, c :: le(a, b) && le(b, c) ==> le(a, c))
  }

  predicate SortedBy<T>(s: seq<T>, le: (T, T) -> bool) {
    forall i, j :: 0 <= i < j < |s| ==> le(s[i], s[j])
  }

  /** `x` goes in front of the first element it does not sort after. */
  function Insert<T(!new)>(x: T, s: seq<T>, le: (T, T) -> bool): (r: seq<T>)
    requires TotalPreorder(le) && SortedBy(s, le)
    ensures SortedBy(r, le)
    ensures multiset(r) == multiset(s) + multiset{x}
  {
    if s == [] || le(x, s[0]) then
      [x] + s
    else
      var rest := Insert(x, s[1..], le);
      assert s == [s[0]] + s[1..];
      HeadBeforeInserted(x, s, rest, le);
      [s[0]] + rest
  }

  /** The head of `s` still comes first once `x`, which sorts after it, joins the rest. */
  lemma HeadBeforeInserted<T(!new)>(x: T, s: seq<T>, rest: seq<T>, le: (T, T) -> bool)
    requires TotalPreorder(le) && SortedBy(s, le) && s != [] && !le(x, s[0])
    requires SortedBy(rest, le) && multiset(rest) == multiset(s[1..]) + multiset{x}
    ensures SortedBy([s[0]] + rest, le)
  {
    assert le(s[0], x);
    forall j | 0 <= j < |rest| ensures le(s[0], rest[j]) {
      assert rest[j] in multiset(rest);
      if rest[j] != x {
        assert rest[j] in multiset(s[1..]);
        var i :| 0 <= i < |s[1..]| && s[1..][i] == rest[j];
        assert s[1..][i] == s[i + 1];
      }
    }
  }

  /** The stable sort: the first element is inserted into the sorted rest. */
  function SortBy<T(!new)>(s: seq<T>, le: (T, T) -> bool): (r: seq<T>)
    requires TotalPreorder(le)
    ensures SortedBy(r, le)
    ensures multiset(r) == multiset(s) && |r| == |s|
  {
    if s == [] then []
    else
      assert s == [s[0]] + s[1..];
      Insert(s[0], SortBy(s[1..], le), le)
  }

  predicate Equivalent<T>(a: T, b: T, le: (T, T) -> bool) {
    le(a, b) && le(b, a)
  }

  /** The elements of `s` that sort level with `k`, in their order in `s`. */
  function LevelWith<T>(s: seq<T>, k: T, le: (T, T) -> bool): seq<T>
  {
    if s == [] then []
    else (if Equivalent(s[0], k, le) then [s[0]] else []) + LevelWith(s[1..], k, le)
  }

  /** The elements level with `k` are exactly the members of `s` that compare level with it. */
  lemma {:induction false} LevelWithMembers<T(!new)>(s: seq<T>, k: T, le: (T, T) -> bool)
    ensures forall x :: x in LevelWith(s, k, le) <==> x in s && Equivalent(x, k, le)
  {
    if s != [] {
      LevelWithMembers(s[1..], k, le);
      assert s == [s[0]] + s[1..];
    }
  }

  lemma {:induction false} InsertLevel<T(!new)>(x: T, s: seq<T>, k: T, le: (T, T) -> bool)
    requires TotalPreorder(le) && SortedBy(s, le)
    ensures LevelWith(Insert(x, s, le), k, le)
         == (if Equivalent(x, k, le) then [x] else []) + LevelWith(s, k, le)
  {
    if s == [] || le(x, s[0]) {
      assert ([x] + s)[1..] == s;
    } else {
      var rest := Insert(x, s[1..], le);
      assert Insert(x, s, le) == [s[0]] + rest;
      assert ([s[0]] + rest)[1..] == rest;
      InsertLevel(x, s[1..], k, le);
      LevelExcludes(x, s[0], k, le);
    }
  }

  /** An element that does not sort before `b` cannot be level with `k` when `b` is. */
  lemma LevelExcludes<T(!new)>(a: T, b: T, k: T, le: (T, T) -> bool)
    requires TotalPreorder(le) && !le(a, b)
    ensures !(Equivalent(a, k, le) && Equivalent(b, k, le))
  {
    assert le(a, k) && le(k, b) ==> le(a, b);
  }

  /**
   * Stability: for every key, the elements level with it come out in the
   * order they went in.
   */
  lemma {:induction false} SortByIsStable<T(!new)>(s: seq<T>, k: T, le: (T, T) -> bool)
    requires TotalPreorder(le)
    ensures LevelWith(SortBy(s, le), k, le) == LevelWith(s, k, le)
  {
    if s != [] {
      SortByIsStable(s[1..], k, le);
      InsertLevel(s[0], SortBy(s[1..], le), k, le);
    }
  }

  /** The first of the elements level with `k` is the first element of `s` that is level with it. */
  lemma {:induction false} LevelWithHead<T>(s: seq<T>, k: T, le: (T, T) -> bool, i: nat)
    requires i < |s| && Equivalent(s[i], k, le)
    requires forall j :: 0 <= j < i ==> !Equivalent(s[j], k, le)
    ensures LevelWith(s, k, le) != [] && LevelWith(s, k, le)[0] == s[i]
  {
    if i > 0 {
      LevelWithHead(s[1..], k, le, i - 1);
    }
  }

  /** Two elements level with `k`, one before the other in `s`, are in that order among those level with `k`. */
  lemma {:induction false} LevelWithKeepsPair<T(!new)>(s: seq<T>, k: T, le: (T, T) -> bool, i: nat, j: nat)
    requires i < j < |s| && Equivalent(s[i], k, le) && Equivalent(s[j], k, le)
    ensures exists p, q ::
      0 <= p < q < |LevelWith(s, k, le)| && LevelWith(s, k, le)[p] == s[i] && LevelWith(s, k, le)[q] == s[j]
  {
    var head: seq<T> := if Equivalent(s[0], k, le) then [s[0]] else [];
    var rest := LevelWith(s[1..], k, le);
    var all := LevelWith(s, k, le);
    assert all == head + rest;
    if i == 0 {
      assert s[j] in rest by {
        LevelWithMembers(s[1..], k, le);
        assert s[j] == s[1..][j - 1];
      }
      var q :| 0 <= q < |rest| && rest[q] == s[j];
      assert all[0] == s[0] && all[q + 1] == s[j];
    } else {
      LevelWithKeepsPair(s[1..], k, le, i - 1, j - 1);
      var p, q :| 0 <= p < q < |rest| && rest[p] == s[1..][i - 1] && rest[q] == s[1..][j - 1];
      assert all[p + |head|] == s[i] && all[q + |head|] == s[j];
    }
  }

  /** Two elements in order among those level with `k` are in that order in `s`. */
  lemma {:induction false} LevelWithPairFrom<T(!new)>(s: seq<T>, k: T, le: (T, T) -> bool, p: nat, q: nat)
    requires p < q < |LevelWith(s, k, le)|
    ensures exists i, j :: 0 <= i < j < |s| && s[i] == LevelWith(s, k, le)[p] && s[j] == LevelWith(s, k, le)[q]
  {
    var head: seq<T> := if Equivalent(s[0], k, le) then [s[0]] else [];
    var rest := LevelWith(s[1..], k, le);
    var all := LevelWith(s, k, le);
    assert all == head + rest;
    if head != [] && p == 0 {
      assert all[q] == rest[q - 1];
      assert all[q] in s[1..] by { LevelWithMembers(s[1..], k, le); }
      var j :| 0 <= j < |s[1..]| && s[1..][j] == all[q];
      assert s[0] == all[0] && s[j + 1] == all[q];
    } else {
      LevelWithPairFrom(s[1..], k, le, p - |head|, q - |head|);
      var i, j :| 0 <= i < j < |s[1..]| && s[1..][i] == rest[p - |head|] && s[1..][j] == rest[q - |head|];
      assert s[i + 1] == all[p] && s[j + 1] == all[q];
    }
  }

  /**
   * Stability, pairwise: two elements the comparator calls equal come out
   * of the sort in the order in which they went in.
   */
  lemma SortByKeepsLevelOrder<T(!new)>(s: seq<T>, le: (T, T) -> bool, i: nat, j: nat)
    requires TotalPreorder(le) && i < j < |SortBy(s, le)|
    requires Equivalent(SortBy(s, le)[i], SortBy(s, le)[j], le)
    ensures exists i', j' :: 0 <= i' < j' < |s| && s[i'] == SortBy(s, le)[i] && s[j'] == SortBy(s, le)[j]
  {
    var r := SortBy(s, le);
    var k := r[i];
    assert le(k, k);
    LevelWithKeepsPair(r, k, le, i, j);
    var p, q :| 0 <= p < q < |LevelWith(r, k, le)| && LevelWith(r, k, le)[p] == r[i] && LevelWith(r, k, le)[q] == r[j];
    SortByIsStable(s, k, le);
    LevelWithPairFrom(s, k, le, p, q);
  }

  /** No two elements of `s` share a key. */
  predicate DistinctBy<T, K(==)>(s: seq<T>, key: T -> K) {
    forall i, j :: 0 <= i < j < |s| ==> key(s[i]) != key(s[j])
  }

  lemma {:induction false} InsertKeepsDistinct<T(!new), K>(x: T, s: seq<T>, le: (T, T) -> bool, key: T -> K)
    requires TotalPreorder(le) && SortedBy(s, le)
    requires DistinctBy(s, key) && forall y :: y in s ==> key(y) != key(x)
    ensures DistinctBy(Insert(x, s, le), key)
  {
    if s == [] || le(x, s[0]) {
      var r := [x] + s;
      forall i, j | 0 <= i < j < |r| ensures key(r[i]) != key(r[j]) {
        if i > 0 { assert r[i] == s[i - 1] && r[j] == s[j - 1]; } else { assert r[j] in s; }
      }
    } else {
      var rest := Insert(x, s[1..], le);
      InsertKeepsDistinct(x, s[1..], le, key);
      var r := [s[0]] + rest;
      forall i, j | 0 <= i < j < |r| ensures key(r[i]) != key(r[j]) {
        if i == 0 {
          assert r[j] in multiset(rest);
          assert r[j] == x || r[j] in s[1..];
          if r[j] != x {
            var k :| 0 <= k < |s[1..]| && s[1..][k] == r[j];
            assert s[k + 1] == r[j];
          }
        } else {
          assert r[i] == rest[i - 1] && r[j] == rest[j - 1];
        }
      }
    }
  }

  /** Sorting neither duplicates nor merges keys. */
  lemma {:induction false} SortByKeepsDistinct<T(!new), K>(s: seq<T>, le: (T, T) -> bool, key: T -> K)
    requires TotalPreorder(le) && DistinctBy(s, key)
    ensures DistinctBy(SortBy(s, le), key)
  {
    if s != [] {
      var rest := SortBy(s[1..], le);
      assert DistinctBy(s[1..], key) by {
        forall i, j | 0 <= i < j < |s[1..]| ensures key(s[1..][i]) != key(s[1..][j]) {
          assert s[1..][i] == s[i + 1] && s[1..][j] == s[j + 1];
        }
      }
      SortByKeepsDistinct(s[1..], le, key);
      forall y | y in rest ensures key(y) != key(s[0]) {
        assert y in multiset(s[1..]);
        var k :| 0 <= k < |s[1..]| && s[1..][k] == y;
        assert s[k + 1] == y;
      }
      InsertKeepsDistinct(s[0], rest, le, key);
    }
  }
}
