/**
  The fairness ranking of the charger job: users sorted ascending by the hours
  they used the previous week (`usuarios.sort((a, b) => usos[a] - usos[b])`).
  JavaScript's Array.prototype.sort is stable, so users with equal hours keep
  their collection order.  The ranking is specified by a functional stable
  insertion sort, `SortByUsage`, and computed in place on an array by
  `RankByUsage`.
 */
module Ranking {
  import opened UserModel

  /** `usosSemanaPasada[u._id]`: the sort key of a user. */
  function Key(usos: map<UserId, nat>, u: User): nat {
    if u.id in usos then usos[u.id] else 0
  }

  predicate SortedByKey(s: seq<User>, usos: map<UserId, nat>) {
    forall i, j :: 0 <= i < j < |s| ==> Key(usos, s[i]) <= Key(usos, s[j])
  }

  /** Inserts `x` after every element whose key is at most x's key. */
  function Insert(s: seq<User>, x: User, usos: map<UserId, nat>): seq<User> {
    if |s| == 0 then [x]
    else if Key(usos, s[|s| - 1]) <= Key(usos, x) then s + [x]
    else Insert(s[..|s| - 1], x, usos) + [s[|s| - 1]]
  }

  /** Stable insertion sort by key. */
  function SortByUsage(s: seq<User>, usos: map<UserId, nat>): seq<User> {
    if |s| == 0 then [] else Insert(SortByUsage(s[..|s| - 1], usos), s[|s| - 1], usos)
  }

  /** The users of `s` whose key is `v`, in their order in `s`. */
  function KeyFilter(s: seq<User>, usos: map<UserId, nat>, v: nat): seq<User> {
    if |s| == 0 then []
    else KeyFilter(s[..|s| - 1], usos, v) + (if Key(usos, s[|s| - 1]) == v then [s[|s| - 1]] else [])
  }

  lemma {:induction false} KeyFilterAppend(s: seq<User>, x: User, usos: map<UserId, nat>, v: nat)
    ensures KeyFilter(s + [x], usos, v) == KeyFilter(s, usos, v) + (if Key(usos, x) == v then [x] else [])
  {
    assert (s + [x])[..|s|] == s;
  }

  /** Insertion adds exactly `x`. */
  lemma {:induction false} InsertPermutation(s: seq<User>, x: User, usos: map<UserId, nat>)
    ensures multiset(Insert(s, x, usos)) == multiset(s) + multiset{x}
    decreases |s|
  {
    if |s| > 0 {
      var init, last := s[..|s| - 1], s[|s| - 1];
      assert s == init + [last];
      if Key(usos, last) > Key(usos, x) {
        InsertPermutation(init, x, usos);
      }
    }
  }

  /** Insertion keeps a sorted sequence sorted. */
  lemma {:induction false} InsertSorted(s: seq<User>, x: User, usos: map<UserId, nat>)
    requires SortedByKey(s, usos)
    ensures SortedByKey(Insert(s, x, usos), usos)
    decreases |s|
  {
    if |s| > 0 {
      var init, last := s[..|s| - 1], s[|s| - 1];
      if Key(usos, last) > Key(usos, x) {
        assert SortedByKey(init, usos);
        InsertSorted(init, x, usos);
        InsertPermutation(init, x, usos);
        var t := Insert(init, x, usos);
        BoundedByLast(s, t, x, usos);
        AppendLargestSorted(t, last, usos);
      } else {
        forall e | e in s ensures Key(usos, e) <= Key(usos, x) {
          var i :| 0 <= i < |s| && s[i] == e;
        }
        AppendLargestSorted(s, x, usos);
      }
    }
  }

  /** After inserting a smaller `x` into the prefix, the last element still bounds every key. */
  lemma BoundedByLast(s: seq<User>, t: seq<User>, x: User, usos: map<UserId, nat>)
    requires |s| > 0 && SortedByKey(s, usos)
    requires Key(usos, x) < Key(usos, s[|s| - 1])
    requires multiset(t) == multiset(s[..|s| - 1]) + multiset{x}
    ensures forall e :: e in t ==> Key(usos, e) <= Key(usos, s[|s| - 1])
  {
    var init := s[..|s| - 1];
    forall e | e in t
      ensures Key(usos, e) <= Key(usos, s[|s| - 1])
    {
      assert e in multiset(t);
      if e != x {
        assert e in multiset(init);
        var i :| 0 <= i < |init| && init[i] == e;
        assert s[i] == e;
      }
    }
  }

  /** Appending an element whose key is at least every key keeps the order. */
  lemma AppendLargestSorted(t: seq<User>, last: User, usos: map<UserId, nat>)
    requires SortedByKey(t, usos)
    requires forall e :: e in t ==> Key(usos, e) <= Key(usos, last)
    ensures SortedByKey(t + [last], usos)
  {
    var r := t + [last];
    forall i, j | 0 <= i < j < |r| ensures Key(usos, r[i]) <= Key(usos, r[j]) {
      assert r[i] == t[i];
      if j == |t| {
        assert r[i] in t;
      } else {
        assert r[j] == t[j];
      }
    }
  }

  /** Inserting into a sorted sequence adds `x` to exactly one key group, at its end. */
  lemma {:induction false} InsertKeyFilter(s: seq<User>, x: User, usos: map<UserId, nat>, v: nat)
    requires SortedByKey(s, usos)
    ensures KeyFilter(Insert(s, x, usos), usos, v) == KeyFilter(s, usos, v) + (if Key(usos, x) == v then [x] else [])
    decreases |s|
  {
    if |s| == 0 {
      KeyFilterAppend([], x, usos, v);
    } else {
      var init, last := s[..|s| - 1], s[|s| - 1];
      assert s == init + [last];
      if Key(usos, last) <= Key(usos, x) {
        KeyFilterAppend(s, x, usos, v);
      } else {
        assert SortedByKey(init, usos);
        InsertKeyFilter(init, x, usos, v);
        KeyFilterAppend(Insert(init, x, usos), last, usos, v);
        KeyFilterAppend(init, last, usos, v);
      }
    }
  }

  /** The ranking is sorted by key and is a permutation of its input. */
  lemma {:induction false} SortByUsageSortedPermutation(s: seq<User>, usos: map<UserId, nat>)
    ensures SortedByKey(SortByUsage(s, usos), usos)
    ensures multiset(SortByUsage(s, usos)) == multiset(s)
    ensures |SortByUsage(s, usos)| == |s|
    decreases |s|
  {
    if |s| > 0 {
      var init := s[..|s| - 1];
      assert s == init + [s[|s| - 1]];
      SortByUsageSortedPermutation(init, usos);
      InsertPermutation(SortByUsage(init, usos), s[|s| - 1], usos);
      InsertSorted(SortByUsage(init, usos), s[|s| - 1], usos);
      assert |multiset(SortByUsage(s, usos))| == |multiset(s)|;
    }
  }

  /** The ranking is stable: users with the same key keep their input order. */
  lemma {:induction false} SortByUsageStable(s: seq<User>, usos: map<UserId, nat>, v: nat)
    ensures KeyFilter(SortByUsage(s, usos), usos, v) == KeyFilter(s, usos, v)
    decreases |s|
  {
    if |s| > 0 {
      var init := s[..|s| - 1];
      SortByUsageStable(init, usos, v);
      SortByUsageSortedPermutation(init, usos);
      InsertKeyFilter(SortByUsage(init, usos), s[|s| - 1], usos, v);
    }
  }

  lemma {:induction false} KeyFilterMember(s: seq<User>, usos: map<UserId, nat>, v: nat, e: User)
    ensures e in KeyFilter(s, usos, v) <==> e in s && Key(usos, e) == v
    decreases |s|
  {
    if |s| > 0 {
      var init := s[..|s| - 1];
      assert s == init + [s[|s| - 1]];
      KeyFilterMember(init, usos, v, e);
    }
  }

  /** Any sorted sequence with the same key groups as `s` is the stable
      ranking of `s`: every stable sort gives the same order. */
  lemma {:induction false} StableSortUnique(s: seq<User>, t: seq<User>, usos: map<UserId, nat>)
    requires SortedByKey(t, usos)
    requires forall v :: KeyFilter(t, usos, v) == KeyFilter(s, usos, v)
    ensures t == SortByUsage(s, usos)
  {
    var r := SortByUsage(s, usos);
    SortByUsageSortedPermutation(s, usos);
    forall v ensures KeyFilter(t, usos, v) == KeyFilter(r, usos, v) {
      SortByUsageStable(s, usos, v);
    }
    SortedGroupsDetermine(t, r, usos);
  }

  lemma LastOfAppend<T>(p: seq<T>, a: T, q: seq<T>, b: T)
    requires p + [a] == q + [b]
    ensures a == b && p == q
  {
    assert (p + [a])[|p|] == a && (q + [b])[|q|] == b;
    assert (p + [a])[..|p|] == p && (q + [b])[..|q|] == q;
  }

  lemma PrefixOfAppend<T>(p: seq<T>, q: seq<T>, tail: seq<T>)
    requires p + tail == q + tail
    ensures p == q
  {
    assert |p| == |q|;
    assert (p + tail)[..|p|] == p && (q + tail)[..|q|] == q;
  }

  /** Two sorted sequences with the same key groups end with the same element. */
  lemma LastElementsAgree(t1: seq<User>, t2: seq<User>, usos: map<UserId, nat>)
    requires |t1| > 0 && |t2| > 0
    requires SortedByKey(t1, usos) && SortedByKey(t2, usos)
    requires forall v :: KeyFilter(t1, usos, v) == KeyFilter(t2, usos, v)
    ensures t1[|t1| - 1] == t2[|t2| - 1]
  {
    var a, b := t1[|t1| - 1], t2[|t2| - 1];
    var i1, i2 := t1[..|t1| - 1], t2[..|t2| - 1];
    KeyFilterMember(t1, usos, Key(usos, a), a);
    KeyFilterMember(t2, usos, Key(usos, a), a);
    KeyFilterMember(t1, usos, Key(usos, b), b);
    KeyFilterMember(t2, usos, Key(usos, b), b);
    var ka :| 0 <= ka < |t2| && t2[ka] == a;
    var kb :| 0 <= kb < |t1| && t1[kb] == b;
    var k := Key(usos, a);
    assert Key(usos, b) == k;
    assert KeyFilter(t1, usos, k) == KeyFilter(i1, usos, k) + [a];
    assert KeyFilter(t2, usos, k) == KeyFilter(i2, usos, k) + [b];
    LastOfAppend(KeyFilter(i1, usos, k), a, KeyFilter(i2, usos, k), b);
  }

  /** Removing the same last element keeps the key groups equal. */
  lemma PrefixGroupsAgree(t1: seq<User>, t2: seq<User>, usos: map<UserId, nat>, v: nat)
    requires |t1| > 0 && |t2| > 0 && t1[|t1| - 1] == t2[|t2| - 1]
    requires KeyFilter(t1, usos, v) == KeyFilter(t2, usos, v)
    ensures KeyFilter(t1[..|t1| - 1], usos, v) == KeyFilter(t2[..|t2| - 1], usos, v)
  {
    var a := t1[|t1| - 1];
    var tail := if Key(usos, a) == v then [a] else [];
    PrefixOfAppend(KeyFilter(t1[..|t1| - 1], usos, v), KeyFilter(t2[..|t2| - 1], usos, v), tail);
  }

  lemma {:induction false} SortedGroupsDetermine(t1: seq<User>, t2: seq<User>, usos: map<UserId, nat>)
    requires SortedByKey(t1, usos) && SortedByKey(t2, usos)
    requires forall v :: KeyFilter(t1, usos, v) == KeyFilter(t2, usos, v)
    ensures t1 == t2
    decreases |t1| + |t2|
  {
    if |t1| == 0 && |t2| == 0 {
    } else if |t1| == 0 {
      var e := t2[|t2| - 1];
      KeyFilterMember(t2, usos, Key(usos, e), e);
      assert false;
    } else if |t2| == 0 {
      var e := t1[|t1| - 1];
      KeyFilterMember(t1, usos, Key(usos, e), e);
      assert false;
    } else {
      LastElementsAgree(t1, t2, usos);
      var i1, i2 := t1[..|t1| - 1], t2[..|t2| - 1];
      forall v ensures KeyFilter(i1, usos, v) == KeyFilter(i2, usos, v) {
        PrefixGroupsAgree(t1, t2, usos, v);
      }
      assert SortedByKey(i1, usos) && SortedByKey(i2, usos);
      SortedGroupsDetermine(i1, i2, usos);
      assert t1 == i1 + [t1[|t1| - 1]] && t2 == i2 + [t2[|t2| - 1]];
    }
  }

  /** Inserting `x` passes over a suffix whose keys all exceed x's key. */
  lemma {:induction false} InsertPassesLargerSuffix(p: seq<User>, x: User, usos: map<UserId, nat>, j: nat)
    requires j <= |p|
    requires forall k :: j <= k < |p| ==> Key(usos, p[k]) > Key(usos, x)
    ensures Insert(p, x, usos) == Insert(p[..j], x, usos) + p[j..]
    decreases |p|
  {
    if j == |p| {
      assert p[..j] == p && p[j..] == [];
    } else {
      var q := p[..|p| - 1];
      InsertPassesLargerSuffix(q, x, usos, j);
      assert q[..j] == p[..j];
      assert q[j..] + [p[|p| - 1]] == p[j..];
    }
  }

  /** Moves a[i] left past every earlier user with a larger key. */
  method InsertIntoPrefix(a: array<User>, i: nat, usos: map<UserId, nat>)
    requires i < a.Length
    modifies a
    ensures a[..i + 1] == Insert(old(a[..i]), old(a[i]), usos)
    ensures forall k :: i < k < a.Length ==> a[k] == old(a[k])
  {
    var x := a[i];
    ghost var p := a[..i];
    var j := i;
    while j > 0 && Key(usos, a[j - 1]) > Key(usos, x)
      invariant 0 <= j <= i
      invariant forall k :: 0 <= k < j ==> a[k] == p[k]
      invariant forall k :: j < k <= i ==> a[k] == p[k - 1]
      invariant forall k :: i < k < a.Length ==> a[k] == old(a[k])
      invariant forall k :: j <= k < i ==> Key(usos, p[k]) > Key(usos, x)
    {
      a[j] := a[j - 1];
      j := j - 1;
    }
    a[j] := x;
    InsertPassesLargerSuffix(p, x, usos, j);
    assert Insert(p[..j], x, usos) == p[..j] + [x];
    assert a[..i + 1] == p[..j] + [x] + p[j..];
  }

  /** Sorts the users in place, ascending by key, keeping equal keys in order. */
  method RankByUsage(a: array<User>, usos: map<UserId, nat>)
    modifies a
    ensures a[..] == SortByUsage(old(a[..]), usos)
  {
    ghost var input := a[..];
    var i := 0;
    while i < a.Length
      invariant 0 <= i <= a.Length
      invariant a[..i] == SortByUsage(input[..i], usos)
      invariant forall k :: i <= k < a.Length ==> a[k] == input[k]
    {
      InsertIntoPrefix(a, i, usos);
      assert input[..i + 1][..i] == input[..i];
      i := i + 1;
    }
    assert input[..a.Length] == input;
  }
}
