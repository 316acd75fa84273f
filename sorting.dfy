/** `result.sort((a, b) => b.datetime - a.datetime)` (script.js:118): newest first, and, since
    `Array.prototype.sort` is stable, readings with the same time value keep their order.
    A stable sort under one comparator has only one possible outcome; it is specified here by a
    functional insertion sort and carried out in place by an insertion sort on an array. */
module Sorting {

  predicate SortedNewestFirst<T(==)>(key: T -> int, s: seq<T>)
  {
    forall i, j | 0 <= i < j < |s| :: key(s[i]) >= key(s[j])
  }

  /** Where `x` goes in a newest-first `t` so that it follows every reading at least as new. */
  function Pos<T(==)>(key: T -> int, t: seq<T>, x: T): (p: nat)
    ensures p <= |t|
    ensures p > 0 ==> key(t[p - 1]) >= key(x)
  {
    if t == [] || key(t[|t| - 1]) >= key(x) then |t| else Pos(key, t[..|t| - 1], x)
  }

  /** Every reading after `Pos` is strictly older than `x`. */
  lemma {:induction false} PosAfter<T>(key: T -> int, t: seq<T>, x: T)
    ensures forall k | Pos(key, t, x) <= k < |t| :: key(t[k]) < key(x)
  {
    if t != [] && key(t[|t| - 1]) < key(x) {
      var init := t[..|t| - 1];
      PosAfter(key, init, x);
      assert forall k | 0 <= k < |init| :: init[k] == t[k];
    }
  }

  function Insert<T(==)>(key: T -> int, t: seq<T>, x: T): (r: seq<T>)
    ensures |r| == |t| + 1
  {
    t[..Pos(key, t, x)] + [x] + t[Pos(key, t, x)..]
  }

  /** `x` lands at `Pos`, the readings before it stay and those after it move one place right. */
  lemma InsertAt<T>(key: T -> int, t: seq<T>, x: T)
    ensures forall k | 0 <= k < |t| + 1 ::
      Insert(key, t, x)[k] == (if k < Pos(key, t, x) then t[k] else if k == Pos(key, t, x) then x else t[k - 1])
  {
    SpliceAt(t, Pos(key, t, x), x);
  }

  lemma SpliceAt<T>(t: seq<T>, p: nat, x: T)
    requires p <= |t|
    ensures forall k | 0 <= k < |t| + 1 ::
      (t[..p] + [x] + t[p..])[k] == (if k < p then t[k] else if k == p then x else t[k - 1])
  {
  }

  /** A time value that occurs in `s` has a reading in `WithKey(s, v)`. */
  lemma WithKeyPresent<T>(key: T -> int, s: seq<T>, k: nat)
    requires k < |s|
    ensures WithKey(key, s, key(s[k])) != []
  {
    if k < |s| - 1 {
      WithKeyPresent(key, s[..|s| - 1], k);
    }
  }

  /** The outcome of the sort. */
  function SortSpec<T(==)>(key: T -> int, s: seq<T>): (r: seq<T>)
    ensures |r| == |s|
  {
    if s == [] then [] else Insert(key, SortSpec(key, s[..|s| - 1]), s[|s| - 1])
  }

  /** The readings of `s` with time value `v`, in order. */
  function WithKey<T(==)>(key: T -> int, s: seq<T>, v: int): (r: seq<T>)
    ensures |r| <= |s|
  {
    if s == [] then []
    else WithKey(key, s[..|s| - 1], v) + (if key(s[|s| - 1]) == v then [s[|s| - 1]] else [])
  }

  /** `WithKey` keeps only readings of `s` with time value `v`. */
  lemma {:induction false} WithKeyMembers<T>(key: T -> int, s: seq<T>, v: int)
    ensures forall y | y in WithKey(key, s, v) :: y in s && key(y) == v
  {
    if s != [] {
      var init := s[..|s| - 1];
      WithKeyMembers(key, init, v);
      assert forall k | 0 <= k < |init| :: init[k] == s[k];
    }
  }

  lemma InsertKeepsOrder<T>(key: T -> int, t: seq<T>, x: T)
    requires SortedNewestFirst(key, t)
    ensures SortedNewestFirst(key, Insert(key, t, x))
  {
    PosAfter(key, t, x);
  }

  /** The sort puts the newest reading first. */
  lemma {:induction false} SortSpecSorted<T>(key: T -> int, s: seq<T>)
    ensures SortedNewestFirst(key, SortSpec(key, s))
  {
    if s != [] {
      SortSpecSorted(key, s[..|s| - 1]);
      InsertKeepsOrder(key, SortSpec(key, s[..|s| - 1]), s[|s| - 1]);
    }
  }

  lemma InsertAddsOne<T>(key: T -> int, t: seq<T>, x: T)
    ensures multiset(Insert(key, t, x)) == multiset(t) + multiset{x}
  {
    var p := Pos(key, t, x);
    assert t == t[..p] + t[p..];
  }

  /** The sort neither loses nor duplicates a reading. */
  lemma {:induction false} SortSpecPermutes<T>(key: T -> int, s: seq<T>)
    ensures multiset(SortSpec(key, s)) == multiset(s)
  {
    if s != [] {
      var init, last := s[..|s| - 1], s[|s| - 1];
      SortSpecPermutes(key, init);
      InsertAddsOne(key, SortSpec(key, init), last);
      Rebuild(s);
      assert multiset(s) == multiset(init) + multiset{last};
    }
  }

  lemma {:induction false} WithKeyAppend<T>(key: T -> int, a: seq<T>, b: seq<T>, v: int)
    ensures WithKey(key, a + b, v) == WithKey(key, a, v) + WithKey(key, b, v)
    decreases |b|
  {
    if b == [] {
      assert a + b == a;
    } else {
      var b' := b[..|b| - 1];
      assert (a + b)[..|a + b| - 1] == a + b';
      assert (a + b)[|a + b| - 1] == b[|b| - 1];
      WithKeyAppend(key, a, b', v);
    }
  }

  lemma WithKeyNone<T>(key: T -> int, u: seq<T>, v: int)
    requires forall k | 0 <= k < |u| :: key(u[k]) != v
    ensures WithKey(key, u, v) == []
  {
    if u != [] {
      WithKeyNone(key, u[..|u| - 1], v);
    }
  }

  lemma WithKeySnoc<T>(key: T -> int, s: seq<T>, x: T, v: int)
    ensures WithKey(key, s + [x], v) == WithKey(key, s, v) + (if key(x) == v then [x] else [])
  {
    assert (s + [x])[..|s|] == s;
  }

  /** Inserting `x` puts it after every reading with its time value. */
  lemma InsertStable<T>(key: T -> int, t: seq<T>, x: T, v: int)
    ensures WithKey(key, Insert(key, t, x), v) == WithKey(key, t, v) + (if key(x) == v then [x] else [])
  {
    var p := Pos(key, t, x);
    var front, back := t[..p], t[p..];
    assert Insert(key, t, x) == (front + [x]) + back;
    WithKeyAppend(key, front + [x], back, v);
    WithKeySnoc(key, front, x, v);
    assert t == front + back;
    WithKeyAppend(key, front, back, v);
    if key(x) == v {
      AfterPosNone(key, t, x);
      calc {
        WithKey(key, Insert(key, t, x), v);
        WithKey(key, front, v) + [x] + WithKey(key, back, v);
        WithKey(key, front, v) + [x];
        WithKey(key, t, v) + [x];
      }
    } else {
      calc {
        WithKey(key, Insert(key, t, x), v);
        WithKey(key, front, v) + WithKey(key, back, v);
        WithKey(key, t, v);
      }
    }
  }

  /** No reading after `Pos` has the time value of `x`. */
  lemma AfterPosNone<T>(key: T -> int, t: seq<T>, x: T)
    ensures WithKey(key, t[Pos(key, t, x)..], key(x)) == []
  {
    var p := Pos(key, t, x);
    var back := t[p..];
    PosAfter(key, t, x);
    assert forall k | 0 <= k < |back| :: back[k] == t[p + k];
    WithKeyNone(key, back, key(x));
  }

  /** Readings with the same time value keep their order: the sort is stable. */
  lemma {:induction false} SortSpecStable<T>(key: T -> int, s: seq<T>, v: int)
    ensures WithKey(key, SortSpec(key, s), v) == WithKey(key, s, v)
  {
    if s != [] {
      SortSpecStable(key, s[..|s| - 1], v);
      InsertStable(key, SortSpec(key, s[..|s| - 1]), s[|s| - 1], v);
    }
  }

  /** Two newest-first sequences with the same readings at every time value, in the same order,
      are equal. */
  lemma {:induction false} SortedWithSameKeysAreEqual<T>(key: T -> int, r: seq<T>, q: seq<T>)
    requires SortedNewestFirst(key, r) && SortedNewestFirst(key, q)
    requires forall v :: WithKey(key, r, v) == WithKey(key, q, v)
    ensures r == q
    decreases |r| + |q|
  {
    if r == [] || q == [] {
      if r != [] {
        WithKeyPresent(key, r, 0);
      } else if q != [] {
        WithKeyPresent(key, q, 0);
      }
    } else {
      var r', q' := r[..|r| - 1], q[..|q| - 1];
      LastAgree(key, r, q);
      forall v ensures WithKey(key, r', v) == WithKey(key, q', v) {
        DropLastAgree(key, r, q, v);
      }
      SortedPrefix(key, r);
      SortedPrefix(key, q);
      SortedWithSameKeysAreEqual(key, r', q');
      Rebuild(r);
      Rebuild(q);
    }
  }

  lemma Rebuild<T>(r: seq<T>)
    requires r != []
    ensures r == r[..|r| - 1] + [r[|r| - 1]]
  {
  }

  lemma SortedPrefix<T>(key: T -> int, r: seq<T>)
    requires r != [] && SortedNewestFirst(key, r)
    ensures SortedNewestFirst(key, r[..|r| - 1])
  {
  }

  /** `WithKey` one step: the last reading is kept exactly when it has the time value. */
  lemma WithKeyLast<T>(key: T -> int, s: seq<T>, v: int)
    requires s != []
    ensures WithKey(key, s, v) ==
      WithKey(key, s[..|s| - 1], v) + (if key(s[|s| - 1]) == v then [s[|s| - 1]] else [])
  {
  }

  /** The oldest readings of the two sequences are the same reading. */
  lemma LastAgree<T>(key: T -> int, r: seq<T>, q: seq<T>)
    requires r != [] && q != [] && SortedNewestFirst(key, r) && SortedNewestFirst(key, q)
    requires forall v :: WithKey(key, r, v) == WithKey(key, q, v)
    ensures r[|r| - 1] == q[|q| - 1]
  {
    var mr, mq := key(r[|r| - 1]), key(q[|q| - 1]);
    assert WithKey(key, r, mr) == WithKey(key, q, mr);
    assert WithKey(key, r, mq) == WithKey(key, q, mq);
    LastsAgree(key, r, q);
  }

  lemma LastsAgree<T>(key: T -> int, r: seq<T>, q: seq<T>)
    requires r != [] && q != [] && SortedNewestFirst(key, r) && SortedNewestFirst(key, q)
    requires WithKey(key, r, key(r[|r| - 1])) == WithKey(key, q, key(r[|r| - 1]))
    requires WithKey(key, r, key(q[|q| - 1])) == WithKey(key, q, key(q[|q| - 1]))
    ensures r[|r| - 1] == q[|q| - 1]
  {
    KeyOfLastIsPresent(key, r, q);
    KeyOfLastIsPresent(key, q, r);
    var m := key(r[|r| - 1]);
    WithKeyLast(key, r, m);
    WithKeyLast(key, q, m);
    LastOfEqual(WithKey(key, r[..|r| - 1], m), r[|r| - 1], WithKey(key, q[..|q| - 1], m), q[|q| - 1]);
  }

  lemma LastOfEqual<T>(a: seq<T>, x: T, b: seq<T>, y: T)
    requires a + [x] == b + [y]
    ensures x == y
  {
    assert (a + [x])[|a|] == x;
    assert (b + [y])[|b|] == y;
  }

  lemma PrefixOfEqual<T>(a: seq<T>, x: seq<T>, b: seq<T>)
    requires a + x == b + x
    ensures a == b
  {
    assert a == (a + x)[..|a|];
    assert b == (b + x)[..|b|];
  }

  /** The oldest time value of one sequence also occurs in the other, so it is no older than the
      other's oldest. */
  lemma KeyOfLastIsPresent<T>(key: T -> int, r: seq<T>, q: seq<T>)
    requires r != [] && q != [] && SortedNewestFirst(key, q)
    requires WithKey(key, r, key(r[|r| - 1])) == WithKey(key, q, key(r[|r| - 1]))
    ensures key(q[|q| - 1]) <= key(r[|r| - 1])
  {
    var m := key(r[|r| - 1]);
    var w := WithKey(key, q, m);
    WithKeyPresent(key, r, |r| - 1);
    WithKeyMembers(key, q, m);
    assert w[0] in w;
    OldestIsLast(key, q, w[0]);
  }

  /** In a newest-first sequence the last reading is the oldest. */
  lemma OldestIsLast<T>(key: T -> int, q: seq<T>, y: T)
    requires q != [] && SortedNewestFirst(key, q) && y in q
    ensures key(q[|q| - 1]) <= key(y)
  {
    var k :| 0 <= k < |q| && q[k] == y;
    if k < |q| - 1 {
      assert key(q[k]) >= key(q[|q| - 1]);
    }
  }

  /** Without their (equal) oldest readings, the two sequences still agree at a time value. */
  lemma DropLastAgree<T>(key: T -> int, r: seq<T>, q: seq<T>, v: int)
    requires r != [] && q != [] && r[|r| - 1] == q[|q| - 1]
    requires WithKey(key, r, v) == WithKey(key, q, v)
    ensures WithKey(key, r[..|r| - 1], v) == WithKey(key, q[..|q| - 1], v)
  {
    WithKeyLast(key, r, v);
    WithKeyLast(key, q, v);
    var a := r[|r| - 1];
    PrefixOfEqual(WithKey(key, r[..|r| - 1], v), if key(a) == v then [a] else [], WithKey(key, q[..|q| - 1], v));
  }

  /** `SortSpec` is the only newest-first order that keeps equal time values in input order, so
      it is what any stable sort with this comparator returns. */
  lemma StableSortIsUnique<T>(key: T -> int, s: seq<T>, r: seq<T>)
    requires SortedNewestFirst(key, r)
    requires forall v :: WithKey(key, r, v) == WithKey(key, s, v)
    ensures r == SortSpec(key, s)
  {
    SortSpecSorted(key, s);
    forall v ensures WithKey(key, r, v) == WithKey(key, SortSpec(key, s), v) {
      SortSpecStable(key, s, v);
    }
    SortedWithSameKeysAreEqual(key, r, SortSpec(key, s));
  }

  /** Readings already newest first are left as they are. */
  lemma SortSpecSortedUnchanged<T>(key: T -> int, s: seq<T>)
    requires SortedNewestFirst(key, s)
    ensures SortSpec(key, s) == s
  {
    StableSortIsUnique(key, s, s);
  }

  /** Sorting twice is sorting once. */
  lemma SortSpecIdempotent<T>(key: T -> int, s: seq<T>)
    ensures SortSpec(key, SortSpec(key, s)) == SortSpec(key, s)
  {
    SortSpecSorted(key, s);
    SortSpecSortedUnchanged(key, SortSpec(key, s));
  }

  lemma PosStep<T>(key: T -> int, t: seq<T>, j: nat, x: T)
    requires 0 < j <= |t| && key(t[j - 1]) < key(x)
    ensures Pos(key, t[..j], x) == Pos(key, t[..j - 1], x)
  {
    assert t[..j][..j - 1] == t[..j - 1];
  }

  lemma PosStop<T>(key: T -> int, t: seq<T>, j: nat, x: T)
    requires j <= |t| && (j == 0 || key(t[j - 1]) >= key(x))
    ensures Pos(key, t[..j], x) == j
  {
  }

  /** The sort of one more reading inserts it into the sort of the ones before. */
  lemma SortSpecSnoc<T>(key: T -> int, s: seq<T>, i: nat)
    requires i < |s|
    ensures SortSpec(key, s[..i + 1]) == Insert(key, SortSpec(key, s[..i]), s[i])
  {
    assert s[..i + 1][..i] == s[..i];
  }

  /** After the shift loop and the final write, the array's first `|t| + 1` places hold
      `Insert(t, x)`. */
  lemma InsertedPrefix<T>(key: T -> int, t: seq<T>, x: T, j: nat, b: seq<T>)
    requires j == Pos(key, t, x) && |t| < |b|
    requires forall k | 0 <= k < j :: b[k] == t[k]
    requires b[j] == x
    requires forall k | j < k <= |t| :: b[k] == t[k - 1]
    ensures b[..|t| + 1] == Insert(key, t, x)
  {
    InsertAt(key, t, x);
    var r := Insert(key, t, x);
    forall k | 0 <= k < |t| + 1
      ensures b[..|t| + 1][k] == r[k]
    {
      if k < j {
        assert r[k] == t[k];
      } else if k > j {
        assert r[k] == t[k - 1];
      }
    }
  }

  /** The insertion sort of the array in place: each reading moves left past the older ones. */
  method SortNewestFirst<T(==)>(key: T -> int, a: array<T>)
    modifies a
    ensures a[..] == SortSpec(key, old(a[..]))
  {
    ghost var s := a[..];
    var i := 0;
    while i < a.Length
      invariant 0 <= i <= a.Length
      invariant a[..i] == SortSpec(key, s[..i])
      invariant forall k | i <= k < a.Length :: a[k] == s[k]
    {
      InsertNext(key, a, i);
      SortSpecSnoc(key, s, i);
      i := i + 1;
    }
    assert s[..a.Length] == s;
  }

  /** One step of the insertion sort: `a[i]` moves left past the readings older than it, and
      the places after `i` are left alone. */
  method InsertNext<T(==)>(key: T -> int, a: array<T>, i: nat)
    requires i < a.Length
    modifies a
    ensures a[..i + 1] == Insert(key, old(a[..i]), old(a[i]))
    ensures forall k | i < k < a.Length :: a[k] == old(a[k])
  {
    var x := a[i];
    ghost var sorted := a[..i];
    var j := ShiftOlder(key, a, i, x);
    a[j] := x;
    InsertedPrefix(key, sorted, x, j, a[..]);
    assert a[..i + 1] == a[..][..i + 1];
  }

  /** The inner loop: the readings of `a[..i]` older than `x` move one place right, leaving a
      gap at `Pos`. */
  method ShiftOlder<T(==)>(key: T -> int, a: array<T>, i: nat, x: T) returns (j: nat)
    requires i < a.Length
    modifies a
    ensures j <= i && j == Pos(key, old(a[..i]), x)
    ensures forall k | 0 <= k < j :: a[k] == old(a[k])
    ensures forall k | j < k <= i :: a[k] == old(a[k - 1])
    ensures forall k | i < k < a.Length :: a[k] == old(a[k])
  {
    ghost var sorted := a[..i];
    assert sorted[..i] == sorted;
    j := i;
    while j > 0 && key(a[j - 1]) < key(x)
      invariant 0 <= j <= i
      invariant forall k | 0 <= k < j :: a[k] == old(a[k])
      invariant forall k | j < k <= i :: a[k] == old(a[k - 1])
      invariant forall k | i < k < a.Length :: a[k] == old(a[k])
      invariant Pos(key, sorted, x) == Pos(key, sorted[..j], x)
    {
      PosStep(key, sorted, j, x);
      a[j] := a[j - 1];
      j := j - 1;
    }
    PosStop(key, sorted, j, x);
  }
}
