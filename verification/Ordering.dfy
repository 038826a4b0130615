/** Strict orders, ascending lists and insertion sort. */
module Ordering {
  import opened Values

  ghost predicate StrictOrder<T(!new)>(before: (T, T) -> bool)
  {
    && (forall x :: !before(x, x))
    && (forall x, y, z :: before(x, y) && before(y, z) ==> before(x, z))
  }

  ghost predicate Total<T(!new)>(before: (T, T) -> bool)
  {
    forall x, y :: x == y || before(x, y) || before(y, x)
  }

  ghost predicate Ascending<T>(before: (T, T) -> bool, s: seq<T>)
  {
    forall i, j :: 0 <= i < j < |s| ==> before(s[i], s[j])
  }

  ghost predicate SameMembers<T(!new)>(a: seq<T>, b: seq<T>)
  {
    forall x :: x in a <==> x in b
  }

  /** The members of a set listed in order. */
  ghost predicate Lists<T(!new)>(before: (T, T) -> bool, s: seq<T>, members: set<T>)
  {
    Ascending(before, s) && forall x :: x in s <==> x in members
  }

  /** An ascending list is determined by its members. */
  lemma {:induction false} AscendingUnique<T(!new)>(before: (T, T) -> bool, a: seq<T>, b: seq<T>)
    requires StrictOrder(before) && Ascending(before, a) && Ascending(before, b) && SameMembers(a, b)
    ensures a == b
  {
    if b != [] { assert b[0] in b; }
    if a != [] {
      assert a[0] in b;
      assert a[0] == b[0];
      forall x ensures x in a[1..] <==> x in b[1..] {
        assert x in a <==> x == a[0] || x in a[1..];
        assert x in b <==> x == b[0] || x in b[1..];
        assert a[0] !in a[1..] && b[0] !in b[1..];
      }
      AscendingUnique(before, a[1..], b[1..]);
      assert a == [a[0]] + a[1..] && b == [b[0]] + b[1..];
    }
  }

  /** Places x after every element that does not have to follow it. */
  function Insert<T>(before: (T, T) -> bool, x: T, s: seq<T>): seq<T>
  {
    if s == [] || before(x, s[|s| - 1]) then
      if s == [] then [x] else Insert(before, x, s[..|s| - 1]) + [s[|s| - 1]]
    else s + [x]
  }

  lemma {:induction false} InsertMembers<T>(before: (T, T) -> bool, x: T, s: seq<T>)
    ensures multiset(Insert(before, x, s)) == multiset(s) + multiset{x}
    ensures forall y :: y in Insert(before, x, s) <==> y == x || y in s
  {
    if s != [] && before(x, s[|s| - 1]) {
      InsertMembers(before, x, s[..|s| - 1]);
      assert s == s[..|s| - 1] + [s[|s| - 1]];
    }
  }

  lemma {:induction false} InsertAscending<T(!new)>(before: (T, T) -> bool, x: T, s: seq<T>)
    requires StrictOrder(before) && Ascending(before, s)
    requires forall y :: y in s ==> before(x, y) || before(y, x)
    ensures Ascending(before, Insert(before, x, s))
  {
    if s != [] {
      var last := |s| - 1;
      if before(x, s[last]) {
        InsertAscending(before, x, s[..last]);
        InsertMembers(before, x, s[..last]);
        var t := Insert(before, x, s[..last]);
        forall i | 0 <= i < |t| ensures before(t[i], s[last]) {
          assert t[i] in t;
        }
      } else {
        assert before(s[last], x);
      }
    }
  }

  /** Elements neither of which comes first are tied, and being tied or later
      carries over: the order of a sort key. */
  ghost predicate WeakOrder<T(!new)>(before: (T, T) -> bool)
  {
    && StrictOrder(before)
    && forall x, y, z :: !before(y, x) && !before(z, y) ==> !before(z, x)
  }

  ghost predicate NoInversion<T>(before: (T, T) -> bool, s: seq<T>)
  {
    forall i, j :: 0 <= i < j < |s| ==> !before(s[j], s[i])
  }

  lemma {:induction false} InsertNoInversion<T(!new)>(before: (T, T) -> bool, x: T, s: seq<T>)
    requires WeakOrder(before) && NoInversion(before, s)
    ensures NoInversion(before, Insert(before, x, s))
  {
    if s != [] {
      var last := |s| - 1;
      if before(x, s[last]) {
        InsertNoInversion(before, x, s[..last]);
        InsertMembers(before, x, s[..last]);
        var t := Insert(before, x, s[..last]);
        forall i | 0 <= i < |t| ensures !before(s[last], t[i]) {
          assert t[i] in t;
        }
      } else {
        assert forall i :: 0 <= i < |s| ==> !before(x, s[i]);
      }
    }
  }

  ghost predicate AgreeOn<T>(f: (T, T) -> bool, g: (T, T) -> bool, s: seq<T>)
  {
    forall x, y :: x in s && y in s ==> f(x, y) == g(x, y)
  }

  lemma {:induction false} InsertAgrees<T>(f: (T, T) -> bool, g: (T, T) -> bool, x: T, s: seq<T>)
    requires forall y :: y in s ==> f(x, y) == g(x, y)
    ensures Insert(f, x, s) == Insert(g, x, s)
  {
    if s != [] && f(x, s[|s| - 1]) {
      InsertAgrees(f, g, x, s[..|s| - 1]);
    }
  }

  /** Stable insertion sort. */
  function Sorted<T>(before: (T, T) -> bool, s: seq<T>): seq<T>
  {
    if s == [] then [] else Insert(before, s[|s| - 1], Sorted(before, s[..|s| - 1]))
  }

  lemma {:induction false} SortedMembers<T(!new)>(before: (T, T) -> bool, s: seq<T>)
    ensures forall y :: y in Sorted(before, s) <==> y in s
  {
    hide Insert;
    if s != [] {
      var init, x := s[..|s| - 1], s[|s| - 1];
      SortedMembers(before, init);
      InsertMembers(before, x, Sorted(before, init));
      assert s == init + [x];
    }
  }

  /** A sort depends only on how its order compares the members. */
  lemma {:induction false} SortedAgrees<T(!new)>(f: (T, T) -> bool, g: (T, T) -> bool, s: seq<T>)
    requires AgreeOn(f, g, s)
    ensures Sorted(f, s) == Sorted(g, s)
  {
    hide Insert;
    if s != [] {
      var init, x := s[..|s| - 1], s[|s| - 1];
      assert s == init + [x];
      SortedAgrees(f, g, init);
      SortedMembers(f, init);
      forall y | y in Sorted(f, init) ensures f(x, y) == g(x, y) {
        assert y in init && x in s;
      }
      InsertAgrees(f, g, x, Sorted(f, init));
    }
  }

  lemma EmptyIsSorted<T>(before: (T, T) -> bool)
    ensures NoInversion(before, [])
  {
  }

  lemma {:induction false} SortedIsSorted<T(!new)>(before: (T, T) -> bool, s: seq<T>)
    requires WeakOrder(before)
    ensures NoInversion(before, Sorted(before, s))
    ensures multiset(Sorted(before, s)) == multiset(s)
  {
    hide Insert, WeakOrder, NoInversion;
    if s == [] {
      EmptyIsSorted(before);
    } else {
      var init := s[..|s| - 1];
      SortedIsSorted(before, init);
      InsertNoInversion(before, s[|s| - 1], Sorted(before, init));
      InsertMembers(before, s[|s| - 1], Sorted(before, init));
      assert s == init + [s[|s| - 1]];
    }
  }

  function Filter<T>(p: T -> bool, s: seq<T>): seq<T>
  {
    if s == [] then []
    else if p(s[|s| - 1]) then Filter(p, s[..|s| - 1]) + [s[|s| - 1]]
    else Filter(p, s[..|s| - 1])
  }

  lemma FilterAppend<T>(p: T -> bool, s: seq<T>, x: T)
    ensures Filter(p, s + [x]) == Filter(p, s) + (if p(x) then [x] else [])
  {
    assert (s + [x])[..|s|] == s;
  }

  lemma {:induction false} FilterAgrees<T>(p: T -> bool, q: T -> bool, s: seq<T>)
    requires forall x :: x in s ==> p(x) == q(x)
    ensures Filter(p, s) == Filter(q, s)
  {
    if s != [] {
      FilterAgrees(p, q, s[..|s| - 1]);
    }
  }

  function Tied<T>(before: (T, T) -> bool, x: T): T -> bool
  {
    y => !before(x, y) && !before(y, x)
  }

  lemma {:induction false} InsertStable<T>(before: (T, T) -> bool, x: T, s: seq<T>, p: T -> bool)
    requires p(x) ==> forall y :: y in s && p(y) ==> !before(x, y)
    ensures Filter(p, Insert(before, x, s)) == Filter(p, s) + (if p(x) then [x] else [])
  {
    hide Filter;
    if s == [] || !before(x, s[|s| - 1]) {
      FilterAppend(p, s, x);
      assert Insert(before, x, s) == s + [x];
    } else {
      var init, y := s[..|s| - 1], s[|s| - 1];
      var inserted := Insert(before, x, init);
      InsertStable(before, x, init, p);
      FilterAppend(p, inserted, y);
      FilterAppend(p, init, y);
      assert s == init + [y] && y in s;
    }
  }

  /** Tied elements keep their order. */
  lemma {:induction false} SortedStable<T(!new)>(before: (T, T) -> bool, s: seq<T>, x: T)
    requires WeakOrder(before)
    ensures Filter(Tied(before, x), Sorted(before, s)) == Filter(Tied(before, x), s)
  {
    if s != [] {
      var init := s[..|s| - 1];
      SortedStable(before, init, x);
      InsertStable(before, s[|s| - 1], Sorted(before, init), Tied(before, x));
    }
  }

  /** Permuting a list without ties does not change its sorted form. */
  lemma SortedUnique<T(!new)>(before: (T, T) -> bool, a: seq<T>, b: seq<T>)
    requires WeakOrder(before) && multiset(a) == multiset(b)
    requires forall i, j :: 0 <= i < j < |a| ==> before(a[i], a[j]) || before(a[j], a[i])
    ensures Sorted(before, a) == Sorted(before, b)
  {
    SortedIsSorted(before, a);
    SortedIsSorted(before, b);
    SortedAscends(before, a, Sorted(before, a));
    SortedAscends(before, a, Sorted(before, b));
    forall x ensures x in Sorted(before, a) <==> x in Sorted(before, b) {
      assert x in Sorted(before, a) <==> x in multiset(Sorted(before, a));
      assert x in Sorted(before, b) <==> x in multiset(Sorted(before, b));
    }
    AscendingUnique(before, Sorted(before, a), Sorted(before, b));
  }

  lemma SortedAscends<T(!new)>(before: (T, T) -> bool, a: seq<T>, s: seq<T>)
    requires WeakOrder(before) && NoInversion(before, s) && multiset(a) == multiset(s)
    requires forall i, j :: 0 <= i < j < |a| ==> before(a[i], a[j]) || before(a[j], a[i])
    ensures Ascending(before, s)
  {
    forall i, j | 0 <= i < j < |s| ensures before(s[i], s[j]) {
      if s[i] == s[j] {
        TwiceInBoth(a, s, i, j);
      } else {
        assert s[i] in multiset(a) && s[j] in multiset(a);
      }
    }
  }

  /** A value at two positions of a permutation is at two positions of the list. */
  lemma TwiceInBoth<T>(a: seq<T>, s: seq<T>, i: nat, j: nat)
    requires multiset(a) == multiset(s) && i < j < |s| && s[i] == s[j]
    ensures exists k, l :: 0 <= k < l < |a| && a[k] == a[l] == s[i]
  {
    var x := s[i];
    assert s == s[..i] + [x] + s[i + 1..j] + [x] + s[j + 1..];
    assert multiset(s)[x] >= 2;
    var k :| 0 <= k < |a| && a[k] == x;
    assert a == a[..k] + [x] + a[k + 1..];
    assert multiset(a[..k])[x] + multiset(a[k + 1..])[x] >= 1;
    if x in multiset(a[..k]) {
      var l :| 0 <= l < k && a[..k][l] == x;
      assert a[l] == a[k];
    } else {
      assert x in multiset(a[k + 1..]);
      var l :| 0 <= l < |a[k + 1..]| && a[k + 1..][l] == x;
      assert a[k] == a[k + 1 + l];
    }
  }

  /** The list of a set, by inserting its members one at a time. */
  method SortSet<T(==, !new)>(before: (T, T) -> bool, members: set<T>) returns (s: seq<T>)
    requires StrictOrder(before) && Total(before)
    ensures Lists(before, s, members)
  {
    s := [];
    var rest := members;
    while rest != {}
      invariant rest <= members && Lists(before, s, members - rest)
      decreases |rest|
    {
      var x :| x in rest;
      InsertAscending(before, x, s);
      InsertMembers(before, x, s);
      s, rest := Insert(before, x, s), rest - {x};
    }
  }

  lemma {:induction false} ListExists<T(!new)>(before: (T, T) -> bool, members: set<T>) returns (s: seq<T>)
    requires StrictOrder(before) && Total(before)
    ensures Lists(before, s, members)
  {
    if members == {} {
      s := [];
    } else {
      var x :| x in members;
      var t := ListExists(before, members - {x});
      InsertAscending(before, x, t);
      InsertMembers(before, x, t);
      s := Insert(before, x, t);
    }
  }

  ghost function ListOf<T(!new)>(before: (T, T) -> bool, members: set<T>): (s: seq<T>)
    requires StrictOrder(before) && Total(before)
    ensures Lists(before, s, members)
  {
    assert exists s :: Lists(before, s, members) by {
      var t := ListExists(before, members);
    }
    var s :| Lists(before, s, members);
    s
  }

  lemma ListUnique<T(!new)>(before: (T, T) -> bool, s: seq<T>, members: set<T>)
    requires StrictOrder(before) && Total(before) && Lists(before, s, members)
    ensures s == ListOf(before, members)
  {
    AscendingUnique(before, s, ListOf(before, members));
  }

  lemma {:induction false} ListSize<T(!new)>(before: (T, T) -> bool, s: seq<T>, members: set<T>)
    requires StrictOrder(before) && Lists(before, s, members)
    ensures |s| == |members|
  {
    if s == [] {
      assert members == {};
    } else {
      assert s[0] !in s[1..];
      assert forall x :: x in s <==> x == s[0] || x in s[1..];
      ListSize(before, s[1..], members - {s[0]});
    }
  }

  // ---- Lexicographic order on octets ----

  predicate LexBefore(a: Bytes, b: Bytes)
  {
    b != [] && (a == [] || a[0] < b[0] || (a[0] == b[0] && LexBefore(a[1..], b[1..])))
  }

  /** The order is that of the first octet that differs, an end coming before
      any octet. */
  lemma {:induction false} LexExactly(a: Bytes, b: Bytes)
    ensures LexBefore(a, b) <==> exists k: nat :: DiffersAt(a, b, k)
  {
    hide DiffersAt;
    if a == [] || b == [] || a[0] != b[0] {
      FirstDiffers(a, b);
    } else {
      LexExactly(a[1..], b[1..]);
      if k: nat :| DiffersAt(a[1..], b[1..], k) {
        DiffersLater(a, b, k);
      }
      if k: nat :| DiffersAt(a, b, k) {
        FirstDiffers(a, b);
        DiffersLater(a, b, k - 1);
      }
    }
  }

  ghost predicate DiffersAt(a: Bytes, b: Bytes, k: nat)
  {
    && k <= |a| && k < |b| && a[..k] == b[..k]
    && (k == |a| || a[k] < b[k])
  }

  lemma FirstDiffers(a: Bytes, b: Bytes)
    ensures DiffersAt(a, b, 0) <==> b != [] && (a == [] || a[0] < b[0])
    ensures a == [] || b == [] || a[0] != b[0] ==> forall k: nat :: DiffersAt(a, b, k) ==> k == 0
  {
    assert a != [] && b != [] ==> forall k: nat :: DiffersAt(a, b, k) && k > 0 ==> a[..k][0] == b[..k][0];
  }

  lemma DiffersLater(a: Bytes, b: Bytes, k: nat)
    requires a != [] && b != [] && a[0] == b[0]
    ensures DiffersAt(a, b, k + 1) <==> DiffersAt(a[1..], b[1..], k)
  {
    if k < |a| && k < |b| {
      assert a[..k + 1] == [a[0]] + a[1..][..k] && b[..k + 1] == [b[0]] + b[1..][..k];
      assert a[..k + 1][1..] == a[1..][..k] && b[..k + 1][1..] == b[1..][..k];
    }
  }

  lemma {:induction false} LexIrreflexive(a: Bytes)
    ensures !LexBefore(a, a)
  {
    if a != [] { LexIrreflexive(a[1..]); }
  }

  lemma {:induction false} LexTransitive(a: Bytes, b: Bytes, c: Bytes)
    requires LexBefore(a, b) && LexBefore(b, c)
    ensures LexBefore(a, c)
  {
    if a != [] && a[0] == b[0] == c[0] { LexTransitive(a[1..], b[1..], c[1..]); }
  }

  lemma {:induction false} LexTotal(a: Bytes, b: Bytes)
    ensures a == b || LexBefore(a, b) || LexBefore(b, a)
  {
    if a != [] && b != [] && a[0] == b[0] {
      LexTotal(a[1..], b[1..]);
      assert a == [a[0]] + a[1..] && b == [b[0]] + b[1..];
    }
  }

  lemma LexOrder()
    ensures StrictOrder(LexBefore) && Total(LexBefore)
  {
    forall x: Bytes ensures !LexBefore(x, x) { LexIrreflexive(x); }
    forall x: Bytes, y: Bytes, z: Bytes | LexBefore(x, y) && LexBefore(y, z) ensures LexBefore(x, z) {
      LexTransitive(x, y, z);
    }
    forall x: Bytes, y: Bytes ensures x == y || LexBefore(x, y) || LexBefore(y, x) { LexTotal(x, y); }
  }

  predicate Less(a: u64, b: u64)
  {
    a < b
  }

  lemma LessOrder()
    ensures StrictOrder(Less) && Total(Less)
  {
  }
}
