/** The stable sort of Python's `sorted` and `list.sort`. */
module StableSort {

  ghost predicate TotalPreorder<T(!new)>(le: (T, T) -> bool) {
    && (forall x, y :: le(x, y) || le(y, x))
    && (forall x, y, z :: le(x, y) && le(y, z) ==> le(x, z))
  }

  ghost predicate Ordered<T>(s: seq<T>, le: (T, T) -> bool) {
    forall i, j :: 0 <= i < j < |s| ==> le(s[i], s[j])
  }

  /** Put `x` behind every element that is not greater. */
  function Insert<T>(s: seq<T>, x: T, le: (T, T) -> bool): seq<T> {
    if s == [] then [x]
    else
      var n := |s| - 1;
      if le(s[n], x) then s + [x] else Insert(s[..n], x, le) + [s[n]]
  }

  function Sorted<T>(s: seq<T>, le: (T, T) -> bool): seq<T> {
    if s == [] then [] else Insert(Sorted(s[..|s| - 1], le), s[|s| - 1], le)
  }

  /** The elements that compare equal to `k`, in order. */
  function Class<T>(s: seq<T>, k: T, le: (T, T) -> bool): seq<T> {
    if s == [] then []
    else
      var n := |s| - 1;
      Class(s[..n], k, le) + (if le(s[n], k) && le(k, s[n]) then [s[n]] else [])
  }

  lemma ClassExtend<T>(s: seq<T>, x: T, k: T, le: (T, T) -> bool)
    ensures Class(s + [x], k, le) == Class(s, k, le) + (if le(x, k) && le(k, x) then [x] else [])
  {
  }

  lemma {:induction false} InsertAdds<T>(s: seq<T>, x: T, le: (T, T) -> bool)
    ensures multiset(Insert(s, x, le)) == multiset(s) + multiset{x} && |Insert(s, x, le)| == |s| + 1
  {
    if s != [] {
      var n := |s| - 1;
      assert s == s[..n] + [s[n]];
      if !le(s[n], x) {
        InsertAdds(s[..n], x, le);
      }
    }
  }

  lemma OrderedAppend<T>(s: seq<T>, x: T, le: (T, T) -> bool)
    requires Ordered(s, le) && forall i :: 0 <= i < |s| ==> le(s[i], x)
    ensures Ordered(s + [x], le)
  {
  }

  lemma {:induction false} InsertIsOrdered<T(!new)>(s: seq<T>, x: T, le: (T, T) -> bool)
    requires TotalPreorder(le) && Ordered(s, le)
    ensures Ordered(Insert(s, x, le), le)
  {
    if s != [] {
      var n := |s| - 1;
      if le(s[n], x) {
        forall i | 0 <= i < |s|
          ensures le(s[i], x)
        {
          assert i < n ==> le(s[i], s[n]);
        }
        OrderedAppend(s, x, le);
      } else {
        var r := Insert(s[..n], x, le);
        InsertIsOrdered(s[..n], x, le);
        InsertAdds(s[..n], x, le);
        forall i | 0 <= i < |r|
          ensures le(r[i], s[n])
        {
          assert r[i] in multiset(r) && (r[i] in s[..n] || r[i] == x);
        }
        OrderedAppend(r, s[n], le);
      }
    }
  }

  lemma {:induction false} InsertKeepsClasses<T(!new)>(s: seq<T>, x: T, k: T, le: (T, T) -> bool)
    requires TotalPreorder(le)
    ensures Class(Insert(s, x, le), k, le) == Class(s + [x], k, le)
  {
    ClassExtend(s, x, k, le);
    if s == [] {
      assert [] + [x] == [x];
    } else {
      var n := |s| - 1;
      if !le(s[n], x) {
        InsertKeepsClasses(s[..n], x, k, le);
        ClassExtend(s[..n], x, k, le);
        ClassExtend(Insert(s[..n], x, le), s[n], k, le);
      }
    }
  }

  /** The result is a permutation in order. */
  lemma {:induction false} SortedIsOrdered<T(!new)>(s: seq<T>, le: (T, T) -> bool)
    requires TotalPreorder(le)
    ensures Ordered(Sorted(s, le), le)
    ensures multiset(Sorted(s, le)) == multiset(s) && |Sorted(s, le)| == |s|
  {
    if s != [] {
      var n := |s| - 1;
      SortedIsOrdered(s[..n], le);
      InsertIsOrdered(Sorted(s[..n], le), s[n], le);
      InsertAdds(Sorted(s[..n], le), s[n], le);
      assert s == s[..n] + [s[n]];
    }
  }

  /** Elements that compare equal keep their order. */
  lemma {:induction false} SortedIsStable<T(!new)>(s: seq<T>, k: T, le: (T, T) -> bool)
    requires TotalPreorder(le)
    ensures Class(Sorted(s, le), k, le) == Class(s, k, le)
  {
    if s != [] {
      var n := |s| - 1;
      SortedIsStable(s[..n], k, le);
      InsertKeepsClasses(Sorted(s[..n], le), s[n], k, le);
      ClassExtend(Sorted(s[..n], le), s[n], k, le);
    }
  }

  // ---------------------------------------------------------------------------
  // Order and stability determine the result

  lemma {:induction false} ClassMembers<T>(s: seq<T>, k: T, le: (T, T) -> bool, x: T)
    ensures x in Class(s, k, le) <==> x in s && le(x, k) && le(k, x)
  {
    if s != [] {
      var n := |s| - 1;
      ClassMembers(s[..n], k, le, x);
      assert s == s[..n] + [s[n]];
    }
  }

  ghost predicate SameClasses<T(!new)>(s: seq<T>, t: seq<T>, le: (T, T) -> bool) {
    forall k {:trigger Class(s, k, le)} {:trigger Class(t, k, le)} :: Class(s, k, le) == Class(t, k, le)
  }

  lemma SameMembers<T(!new)>(s: seq<T>, t: seq<T>, le: (T, T) -> bool, x: T)
    requires TotalPreorder(le) && SameClasses(s, t, le) && x in s
    ensures x in t
  {
    ClassMembers(s, x, le, x);
    assert Class(s, x, le) == Class(t, x, le);
    ClassMembers(t, x, le, x);
  }

  lemma LastOfEqual<T>(a: seq<T>, x: T, b: seq<T>, y: T)
    requires a + [x] == b + [y]
    ensures a == b && x == y
  {
    assert (a + [x])[..|a|] == a && (b + [y])[..|b|] == b;
    assert (a + [x])[|a|] == x && (b + [y])[|b|] == y;
  }

  /** Two ordered sequences with the same classes end in the same element. */
  lemma SameLast<T(!new)>(s: seq<T>, t: seq<T>, le: (T, T) -> bool)
    requires TotalPreorder(le) && Ordered(s, le) && Ordered(t, le) && SameClasses(s, t, le)
    requires s != [] && t != []
    ensures s[|s| - 1] == t[|t| - 1]
  {
    var x, y := s[|s| - 1], t[|t| - 1];
    SameMembers(s, t, le, x);
    SameMembers(t, s, le, y);
    assert le(x, x) && le(y, y);
    assert le(x, y) && le(y, x);
    assert Class(s, x, le) == Class(t, x, le);
    LastOfEqual(Class(s[..|s| - 1], x, le), x, Class(t[..|t| - 1], x, le), y);
  }

  lemma {:induction false} ClassesDetermine<T(!new)>(s: seq<T>, t: seq<T>, le: (T, T) -> bool)
    requires TotalPreorder(le) && Ordered(s, le) && Ordered(t, le) && SameClasses(s, t, le)
    ensures s == t
  {
    if s == [] || t == [] {
      if s != [] { SameMembers(s, t, le, s[0]); }
      if t != [] { SameMembers(t, s, le, t[0]); }
    } else {
      var m, n := |s| - 1, |t| - 1;
      SameLast(s, t, le);
      forall k
        ensures Class(s[..m], k, le) == Class(t[..n], k, le)
      {
        assert Class(s, k, le) == Class(t, k, le);
        if le(s[m], k) && le(k, s[m]) {
          LastOfEqual(Class(s[..m], k, le), s[m], Class(t[..n], k, le), t[n]);
        } else {
          assert Class(s[..m], k, le) == Class(s, k, le) && Class(t[..n], k, le) == Class(t, k, le);
        }
      }
      ClassesDetermine(s[..m], t[..n], le);
      assert s == s[..m] + [s[m]] && t == t[..n] + [t[n]];
    }
  }

  /** Whatever algorithm sorts: an ordered result in which equal elements keep their order is this one. */
  lemma StableSortIsUnique<T(!new)>(s: seq<T>, t: seq<T>, le: (T, T) -> bool)
    requires TotalPreorder(le)
    requires Ordered(t, le) && forall k :: Class(t, k, le) == Class(s, k, le)
    ensures t == Sorted(s, le)
  {
    SortedIsOrdered(s, le);
    forall k
      ensures Class(t, k, le) == Class(Sorted(s, le), k, le)
    {
      SortedIsStable(s, k, le);
    }
    ClassesDetermine(t, Sorted(s, le), le);
  }
}
