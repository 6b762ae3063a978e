/**
 List operations the page performs through JavaScript's `Array.prototype.filter`,
 written once and reused by every module: filtering by element, filtering by
 position, removing one position, and the order-preservation relation they keep.
 */
module Seqs {

  /** The elements of `s` that satisfy `p`, in their original order
      (`filter` with a callback that looks at the element). */
  function Filter<T>(s: seq<T>, p: T -> bool): (r: seq<T>)
    ensures |r| <= |s|
  {
    if |s| == 0 then [] else (if p(s[0]) then [s[0]] else []) + Filter(s[1..], p)
  }

  /** Every element `Filter` keeps is an element of `s` that satisfies `p`,
      and every element of `s` that satisfies `p` is kept. */
  lemma {:induction false} FilterMembers<T>(s: seq<T>, p: T -> bool)
    ensures forall i :: 0 <= i < |Filter(s, p)| ==> Filter(s, p)[i] in s && p(Filter(s, p)[i])
    ensures forall i :: 0 <= i < |s| && p(s[i]) ==> s[i] in Filter(s, p)
    decreases |s|
  {
    if |s| > 0 {
      FilterMembers(s[1..], p);
      var r := Filter(s, p);
      var pre := if p(s[0]) then [s[0]] else [];
      assert r == pre + Filter(s[1..], p);
      forall i | 0 <= i < |r|
        ensures r[i] in s && p(r[i])
      {
        if i >= |pre| {
          assert r[i] == Filter(s[1..], p)[i - |pre|];
          assert r[i] in s[1..];
        }
      }
      forall i | 0 <= i < |s| && p(s[i])
        ensures s[i] in r
      {
        if i > 0 {
          assert s[i] == s[1..][i - 1];
        }
      }
    }
  }

  /** `Filter` keeps every copy of an element that satisfies `p` and no copy
      of one that does not, so it fixes how often each value occurs. */
  lemma {:induction false} FilterCounts<T>(s: seq<T>, p: T -> bool)
    ensures forall x :: multiset(Filter(s, p))[x] == if p(x) then multiset(s)[x] else 0
    decreases |s|
  {
    if |s| > 0 {
      FilterCounts(s[1..], p);
      var pre := if p(s[0]) then [s[0]] else [];
      assert Filter(s, p) == pre + Filter(s[1..], p);
      assert s == [s[0]] + s[1..];
      assert multiset(s) == multiset([s[0]]) + multiset(s[1..]);
    }
  }

  /** The elements of `s` whose position satisfies `keep`, in their original
      order (`filter` with a callback that looks only at the index). */
  function Select<T>(s: seq<T>, keep: nat -> bool): (r: seq<T>)
    ensures |r| <= |s|
  {
    if |s| == 0 then [] else (if keep(0) then [s[0]] else []) + Select(s[1..], Shift(keep))
  }

  /** The position filter seen from the second element on. */
  function Shift(keep: nat -> bool): nat -> bool
  {
    (i: nat) => keep(i + 1)
  }

  /** The last element of a non-empty sequence. */
  function Last<T>(s: seq<T>): T
    requires |s| > 0
  {
    s[|s| - 1]
  }

  /** `s` without position `i`; an index outside `s` removes nothing. */
  function RemoveAt<T>(s: seq<T>, i: int): seq<T>
  {
    if 0 <= i < |s| then s[..i] + s[i + 1..] else s
  }

  /** Removing a position adds no element. */
  lemma RemoveAtMembers<T>(s: seq<T>, i: int)
    ensures forall x :: x in RemoveAt(s, i) ==> x in s
  {
    if 0 <= i < |s| {
      assert forall x :: x in s[..i] ==> x in s;
      assert forall x :: x in s[i + 1..] ==> x in s;
    }
  }

  /** `a` occurs in `b` in order, possibly with gaps (greedy left-to-right matching). */
  predicate IsSubsequence<T(==)>(a: seq<T>, b: seq<T>)
    decreases |b|
  {
    |a| == 0 || (|b| > 0 && (if a[0] == b[0] then IsSubsequence(a[1..], b[1..]) else IsSubsequence(a, b[1..])))
  }

  /** Removes the `n`-th element (counting from 0) among those satisfying `p`,
      leaving every other element where it was. */
  function RemoveNthWhere<T>(s: seq<T>, p: T -> bool, n: int): (r: seq<T>)
  {
    if |s| == 0 then []
    else if p(s[0]) && n == 0 then s[1..]
    else if p(s[0]) then [s[0]] + RemoveNthWhere(s[1..], p, n - 1)
    else [s[0]] + RemoveNthWhere(s[1..], p, n)
  }

  lemma {:induction false} FilterKeepsEverything<T>(s: seq<T>, p: T -> bool)
    requires forall i :: 0 <= i < |s| ==> p(s[i])
    ensures Filter(s, p) == s
    decreases |s|
  {
    if |s| > 0 {
      FilterKeepsEverything(s[1..], p);
    }
  }

  lemma {:induction false} FilterIsSubsequence<T>(s: seq<T>, p: T -> bool)
    ensures IsSubsequence(Filter(s, p), s)
    decreases |s|
  {
    if |s| > 0 {
      FilterIsSubsequence(s[1..], p);
      var r := Filter(s, p);
      if p(s[0]) {
        assert r == [s[0]] + Filter(s[1..], p);
        assert r[1..] == Filter(s[1..], p);
      } else {
        assert r == Filter(s[1..], p);
        if |r| > 0 {
          FilterMembers(s[1..], p);
          assert p(r[0]);
        }
      }
    }
  }

  lemma {:induction false} SubsequenceDropFirst<T>(a: seq<T>, b: seq<T>)
    requires |a| > 0 && IsSubsequence(a, b)
    ensures IsSubsequence(a[1..], b)
    decreases |b|
  {
    if |a| > 1 {
      if a[0] == b[0] {
        if a[1] != b[0] {
          assert IsSubsequence(a[1..], b[1..]);
        } else {
          SubsequenceDropFirst(a[1..], b[1..]);
          assert a[1..][1..] == a[2..];
        }
      } else {
        SubsequenceDropFirst(a, b[1..]);
        if a[1] == b[0] {
          SubsequenceDropFirst(a[1..], b[1..]);
          assert a[1..][1..] == a[2..];
        }
      }
    }
  }

  lemma {:induction false} SubsequenceReflexive<T>(s: seq<T>)
    ensures IsSubsequence(s, s)
    decreases |s|
  {
    if |s| > 0 {
      SubsequenceReflexive(s[1..]);
    }
  }

  lemma {:induction false} SelectIsSubsequence<T>(s: seq<T>, keep: nat -> bool)
    ensures IsSubsequence(Select(s, keep), s)
    decreases |s|
  {
    if |s| > 0 {
      var keep' := Shift(keep);
      SelectIsSubsequence(s[1..], keep');
      var rest := Select(s[1..], keep');
      var r := Select(s, keep);
      if keep(0) {
        assert r == [s[0]] + rest;
        assert r[1..] == rest;
      } else {
        assert r == rest;
        if |r| > 0 && r[0] == s[0] {
          SubsequenceDropFirst(rest, s[1..]);
        }
      }
    }
  }

  /** Every kept position contributes its element, and nothing else appears. */
  lemma {:induction false} SelectMembers<T>(s: seq<T>, keep: nat -> bool)
    ensures forall i :: 0 <= i < |s| && keep(i) ==> s[i] in Select(s, keep)
    ensures forall j :: 0 <= j < |Select(s, keep)| ==> exists i :: 0 <= i < |s| && keep(i) && s[i] == Select(s, keep)[j]
    decreases |s|
  {
    if |s| > 0 {
      var keep' := Shift(keep);
      SelectMembers(s[1..], keep');
      var rest := Select(s[1..], keep');
      var pre := if keep(0) then [s[0]] else [];
      var r := Select(s, keep);
      assert r == pre + rest;
      forall i | 0 <= i < |s| && keep(i)
        ensures s[i] in r
      {
        if i == 0 {
          assert r[0] == s[0];
        } else {
          assert keep'(i - 1);
          assert s[1..][i - 1] == s[i];
          assert s[i] in rest;
        }
      }
      forall j | 0 <= j < |r|
        ensures exists i :: 0 <= i < |s| && keep(i) && s[i] == r[j]
      {
        if j < |pre| {
          assert keep(0) && s[0] == r[j];
        } else {
          assert r[j] == rest[j - |pre|];
          var k :| 0 <= k < |s[1..]| && keep'(k) && s[1..][k] == rest[j - |pre|];
          assert keep(k + 1) && s[k + 1] == r[j];
        }
      }
      assert forall j :: 0 <= j < |r| ==> exists i :: 0 <= i < |s| && keep(i) && s[i] == r[j];
    } else {
      assert Select(s, keep) == [];
    }
  }

  lemma {:induction false} SelectKeepsEverything<T>(s: seq<T>, keep: nat -> bool)
    requires forall i :: 0 <= i < |s| ==> keep(i)
    ensures Select(s, keep) == s
    decreases |s|
  {
    if |s| > 0 {
      var keep' := Shift(keep);
      forall i | 0 <= i < |s[1..]|
        ensures keep'(i)
      {
        assert keep(i + 1);
      }
      SelectKeepsEverything(s[1..], keep');
    }
  }

  /** Appending an element appends it to the selection exactly when its
      position is kept. */
  lemma {:induction false} SelectSnoc<T>(s: seq<T>, x: T, keep: nat -> bool)
    ensures Select(s + [x], keep) == Select(s, keep) + (if keep(|s|) then [x] else [])
    decreases |s|
  {
    if |s| == 0 {
      assert s + [x] == [x] && [x][1..] == [];
    } else {
      SelectSnoc(s[1..], x, Shift(keep));
      assert (s + [x])[0] == s[0];
      assert (s + [x])[1..] == s[1..] + [x];
      assert Shift(keep)(|s| - 1) == keep(|s|);
    }
  }

  /** Two position filters that keep the same positions select the same elements. */
  lemma {:induction false} SelectSameKeep<T>(s: seq<T>, keep: nat -> bool, keep': nat -> bool)
    requires forall i: nat :: keep(i) == keep'(i)
    ensures Select(s, keep) == Select(s, keep')
    decreases |s|
  {
    if |s| > 0 {
      forall i: nat
        ensures Shift(keep)(i) == Shift(keep')(i)
      {
        assert keep(i + 1) == keep'(i + 1);
      }
      SelectSameKeep(s[1..], Shift(keep), Shift(keep'));
    }
  }

  /** Filtering every position but `c` is exactly `RemoveAt(s, c)`. */
  lemma {:induction false} SelectAllButOne<T>(s: seq<T>, keep: nat -> bool, c: int)
    requires forall i: nat :: keep(i) <==> i != c
    ensures Select(s, keep) == RemoveAt(s, c)
    decreases |s|
  {
    if |s| == 0 {
    } else if c == 0 {
      var keep' := Shift(keep);
      forall i | 0 <= i < |s[1..]|
        ensures keep'(i)
      {
        assert keep(i + 1);
      }
      SelectKeepsEverything(s[1..], keep');
    } else {
      var keep' := Shift(keep);
      forall i: nat
        ensures keep'(i) <==> i != c - 1
      {
        assert keep'(i) == keep(i + 1);
      }
      SelectAllButOne(s[1..], keep', c - 1);
      SelectAllButOneStep(s, c);
    }
  }

  lemma SelectAllButOneStep<T>(s: seq<T>, c: int)
    requires |s| > 0 && c != 0
    ensures [s[0]] + RemoveAt(s[1..], c - 1) == RemoveAt(s, c)
  {
    if 0 < c < |s| {
      assert s[1..][..c - 1] == s[1..c];
      assert s[1..][c..] == s[c + 1..];
      assert [s[0]] + s[1..c] == s[..c];
    } else {
      assert [s[0]] + s[1..] == s;
    }
  }

  lemma FilterCons<T>(x: T, t: seq<T>, p: T -> bool)
    ensures Filter([x] + t, p) == (if p(x) then [x] else []) + Filter(t, p)
  {
    assert ([x] + t)[1..] == t;
  }

  /** Removing the `n`-th matching element: the matching elements lose exactly
      their `n`-th. */
  lemma {:induction false} RemoveNthWhereMatching<T>(s: seq<T>, p: T -> bool, n: int)
    ensures Filter(RemoveNthWhere(s, p, n), p) == RemoveAt(Filter(s, p), n)
    decreases |s|
  {
    if |s| > 0 {
      var ft := Filter(s[1..], p);
      var fs := Filter(s, p);
      FilterCons(s[0], s[1..], p);
      assert [s[0]] + s[1..] == s;
      if p(s[0]) && n == 0 {
        assert fs == [s[0]] + ft;
        assert RemoveAt(fs, 0) == fs[1..] == ft;
      } else if p(s[0]) {
        RemoveNthWhereMatching(s[1..], p, n - 1);
        var rest := RemoveNthWhere(s[1..], p, n - 1);
        FilterCons(s[0], rest, p);
        assert fs == [s[0]] + ft;
        assert fs[1..] == ft;
        SelectAllButOneStep(fs, n);
      } else {
        RemoveNthWhereMatching(s[1..], p, n);
        var rest := RemoveNthWhere(s[1..], p, n);
        FilterCons(s[0], rest, p);
      }
    }
  }

  /** Removing the `n`-th matching element leaves the elements that do not
      match untouched (`q` is the negation of `p`). */
  lemma {:induction false} RemoveNthWhereOthers<T>(s: seq<T>, p: T -> bool, q: T -> bool, n: int)
    requires forall x :: q(x) == !p(x)
    ensures Filter(RemoveNthWhere(s, p, n), q) == Filter(s, q)
    decreases |s|
  {
    if |s| > 0 {
      assert Filter(s, q) == (if q(s[0]) then [s[0]] else []) + Filter(s[1..], q);
      if p(s[0]) && n == 0 {
        assert !q(s[0]);
      } else {
        var n' := if p(s[0]) then n - 1 else n;
        RemoveNthWhereOthers(s[1..], p, q, n');
        var rest := RemoveNthWhere(s[1..], p, n');
        assert RemoveNthWhere(s, p, n) == [s[0]] + rest;
        FilterCons(s[0], rest, q);
      }
    }
  }

  /** Removing one matching element keeps the rest in their order. */
  lemma {:induction false} RemoveNthWhereIsSubsequence<T>(s: seq<T>, p: T -> bool, n: int)
    ensures IsSubsequence(RemoveNthWhere(s, p, n), s)
    decreases |s|
  {
    if |s| > 0 {
      if p(s[0]) && n == 0 {
        SubsequenceReflexive(s);
        SubsequenceDropFirst(s, s);
      } else {
        var n' := if p(s[0]) then n - 1 else n;
        RemoveNthWhereIsSubsequence(s[1..], p, n');
        var r := RemoveNthWhere(s, p, n);
        assert r == [s[0]] + RemoveNthWhere(s[1..], p, n');
        assert r[1..] == RemoveNthWhere(s[1..], p, n');
      }
    }
  }

  /** The position of the `n`-th element (counting from 0) satisfying `p`,
      or `|s|` when there is no such element. */
  function NthWhere<T>(s: seq<T>, p: T -> bool, n: int): (j: nat)
    ensures j <= |s|
    decreases |s|
  {
    if |s| == 0 then 0
    else if p(s[0]) && n == 0 then 0
    else 1 + NthWhere(s[1..], p, if p(s[0]) then n - 1 else n)
  }

  /** `NthWhere` finds a matching element with exactly `n` matching elements
      before it, and reports `|s|` only when fewer than `n + 1` elements match. */
  lemma {:induction false} NthWhereFinds<T>(s: seq<T>, p: T -> bool, n: int)
    ensures NthWhere(s, p, n) < |s| ==>
              p(s[NthWhere(s, p, n)]) && |Filter(s[..NthWhere(s, p, n)], p)| == n
    ensures NthWhere(s, p, n) == |s| <==> !(0 <= n < |Filter(s, p)|)
    decreases |s|
  {
    if |s| > 0 && !(p(s[0]) && n == 0) {
      var n' := if p(s[0]) then n - 1 else n;
      NthWhereFinds(s[1..], p, n');
      var j' := NthWhere(s[1..], p, n');
      var j := NthWhere(s, p, n);
      assert j == 1 + j';
      FilterCons(s[0], s[1..], p);
      assert [s[0]] + s[1..] == s;
      if j < |s| {
        assert s[..j] == [s[0]] + s[1..][..j'];
        FilterCons(s[0], s[1..][..j'], p);
      }
    } else if |s| > 0 {
      assert s[..0] == [];
      assert Filter(s, p) == [s[0]] + Filter(s[1..], p);
    }
  }

  /** Removing the `n`-th matching element is removing the position
      `NthWhere` reports. */
  lemma {:induction false} RemoveNthWhereAt<T>(s: seq<T>, p: T -> bool, n: int)
    ensures RemoveNthWhere(s, p, n) == RemoveAt(s, NthWhere(s, p, n))
    decreases |s|
  {
    if |s| > 0 {
      if p(s[0]) && n == 0 {
        assert s[..0] + s[1..] == s[1..];
      } else {
        var n' := if p(s[0]) then n - 1 else n;
        RemoveNthWhereAt(s[1..], p, n');
        SelectAllButOneStep(s, 1 + NthWhere(s[1..], p, n'));
      }
    }
  }
}
