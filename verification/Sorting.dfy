/** Sorting by a string key.  `sort.Slice` is unstable, so callers may rely on
    `IsSortOf` only; where keys identify elements that relation has one solution. */
module Sorting {
  import opened Strings

  ghost predicate Sorted<T>(key: T -> string, s: seq<T>) {
    forall i, j :: 0 <= i < j < |s| ==> !Less(key(s[j]), key(s[i]))
  }

  /** `t` is one of the results an unstable sort of `s` may leave. */
  ghost predicate IsSortOf<T>(key: T -> string, s: seq<T>, t: seq<T>) {
    Sorted(key, t) && multiset(t) == multiset(s)
  }

  ghost predicate DistinctKeys<T>(key: T -> string, s: seq<T>) {
    forall i, j :: 0 <= i < j < |s| ==> key(s[i]) != key(s[j])
  }

  ghost predicate KeyIdentifies<T>(key: T -> string, s: seq<T>) {
    forall x, y :: x in s && y in s && key(x) == key(y) ==> x == y
  }

  function Insert<T>(key: T -> string, x: T, s: seq<T>): seq<T> {
    if s == [] then [x]
    else if Less(key(s[0]), key(x)) then [s[0]] + Insert(key, x, s[1..])
    else [x] + s
  }

  function Sort<T>(key: T -> string, s: seq<T>): seq<T> {
    if s == [] then [] else Insert(key, s[0], Sort(key, s[1..]))
  }

  lemma {:induction false} InsertKeepsElements<T>(key: T -> string, x: T, s: seq<T>)
    ensures multiset(Insert(key, x, s)) == multiset(s) + multiset{x}
  {
    if s != [] {
      assert s == [s[0]] + s[1..];
      if Less(key(s[0]), key(x)) {
        InsertKeepsElements(key, x, s[1..]);
      }
    }
  }

  lemma SortedCons<T>(key: T -> string, x: T, s: seq<T>)
    requires Sorted(key, s)
    requires forall y :: y in s ==> !Less(key(y), key(x))
    ensures Sorted(key, [x] + s)
  {
    var t := [x] + s;
    forall i, j | 0 <= i < j < |t|
      ensures !Less(key(t[j]), key(t[i]))
    {
      assert t[j] == s[j - 1];
      if i == 0 {
        assert t[j] in s;
      } else {
        assert t[i] == s[i - 1];
      }
    }
  }

  lemma {:induction false} InsertKeepsSorted<T>(key: T -> string, x: T, s: seq<T>)
    requires Sorted(key, s)
    ensures Sorted(key, Insert(key, x, s))
  {
    if s != [] {
      if Less(key(s[0]), key(x)) {
        var rest := Insert(key, x, s[1..]);
        InsertKeepsSorted(key, x, s[1..]);
        InsertKeepsElements(key, x, s[1..]);
        forall y | y in rest
          ensures !Less(key(y), key(s[0]))
        {
          assert y in multiset(rest);
          if y in multiset(s[1..]) {
            assert y in s[1..];
          } else {
            LessIsAsymmetric(key(s[0]), key(x));
          }
        }
        SortedCons(key, s[0], rest);
      } else {
        forall y | y in s
          ensures !Less(key(y), key(x))
        {
          assert y == s[0] || !Less(key(y), key(s[0]));
          LessIsTotal(key(s[0]), key(x));
          if Less(key(y), key(x)) && key(s[0]) != key(x) {
            LessIsTransitive(key(y), key(x), key(s[0]));
          }
        }
        SortedCons(key, x, s);
      }
    }
  }

  lemma {:induction false} SortSorts<T>(key: T -> string, s: seq<T>)
    ensures IsSortOf(key, s, Sort(key, s))
  {
    if s != [] {
      SortSorts(key, s[1..]);
      InsertKeepsSorted(key, s[0], Sort(key, s[1..]));
      InsertKeepsElements(key, s[0], Sort(key, s[1..]));
      assert s == [s[0]] + s[1..];
    }
  }

  lemma SortedHeadsAgree<T>(key: T -> string, s: seq<T>, t: seq<T>)
    requires s != [] && t != []
    requires Sorted(key, s) && Sorted(key, t) && multiset(s) == multiset(t)
    ensures key(s[0]) == key(t[0]) && t[0] in s
  {
    assert s[0] in multiset(t) && t[0] in multiset(s);
    var i :| 0 <= i < |s| && s[i] == t[0];
    var j :| 0 <= j < |t| && t[j] == s[0];
    LessIsTotal(key(s[0]), key(t[0]));
    if i != 0 && j != 0 {
      assert !Less(key(s[i]), key(s[0])) && !Less(key(t[j]), key(t[0]));
    }
  }

  lemma MultisetOfTail<T>(s: seq<T>)
    requires s != []
    ensures multiset(s[1..]) == multiset(s) - multiset{s[0]}
  {
    assert s == [s[0]] + s[1..];
  }

  lemma MultisetWithoutOne<T>(s: seq<T>, j: int)
    requires 0 <= j < |s|
    ensures multiset(s[..j] + s[j + 1..]) == multiset(s) - multiset{s[j]}
  {
    assert s == s[..j] + [s[j]] + s[j + 1..];
  }

  /** Two sorts of the same elements agree when a key identifies its element. */
  lemma {:induction false} SortIsUnique<T>(key: T -> string, s: seq<T>, t: seq<T>)
    requires Sorted(key, s) && Sorted(key, t) && multiset(s) == multiset(t)
    requires KeyIdentifies(key, s)
    ensures s == t
  {
    assert |s| == |multiset(s)| == |multiset(t)| == |t|;
    if s != [] {
      SortedHeadsAgree(key, s, t);
      MultisetOfTail(s);
      MultisetOfTail(t);
      SortIsUnique(key, s[1..], t[1..]);
      assert s == [s[0]] + s[1..] && t == [t[0]] + t[1..];
    }
  }

  lemma DistinctKeysIdentify<T>(key: T -> string, s: seq<T>)
    requires DistinctKeys(key, s)
    ensures KeyIdentifies(key, s)
  {
    forall x, y | x in s && y in s && key(x) == key(y)
      ensures x == y
    {
      var i :| 0 <= i < |s| && s[i] == x;
      var j :| 0 <= j < |s| && s[j] == y;
    }
  }

  lemma KeyIdentifiesPermuted<T>(key: T -> string, s: seq<T>, t: seq<T>)
    requires multiset(s) == multiset(t) && KeyIdentifies(key, s)
    ensures KeyIdentifies(key, t)
  {
    forall x | x in t
      ensures x in s
    {
      assert x in multiset(t);
    }
  }

  /** An element met twice has multiplicity at least two. */
  lemma TwoOccurrences<T>(s: seq<T>, i: int, j: int)
    requires 0 <= i < j < |s| && s[i] == s[j]
    ensures multiset(s)[s[i]] >= 2
  {
    assert s == s[..j] + [s[j]] + s[j + 1..];
    assert s[i] in s[..j];
    assert multiset(s[..j])[s[i]] >= 1;
  }

  lemma {:induction false} OneOccurrence<T>(key: T -> string, s: seq<T>, x: T)
    requires DistinctKeys(key, s)
    ensures multiset(s)[x] <= 1
  {
    if s != [] {
      assert s == [s[0]] + s[1..];
      OneOccurrence(key, s[1..], x);
      forall y | y in s[1..]
        ensures key(y) != key(s[0])
      {
        var j :| 0 <= j < |s[1..]| && s[1..][j] == y;
        assert y == s[j + 1];
      }
      assert s[0] !in multiset(s[1..]);
    }
  }

  lemma DistinctKeysPermuted<T>(key: T -> string, s: seq<T>, t: seq<T>)
    requires multiset(s) == multiset(t) && DistinctKeys(key, s)
    ensures DistinctKeys(key, t)
  {
    DistinctKeysIdentify(key, s);
    KeyIdentifiesPermuted(key, s, t);
    forall i, j | 0 <= i < j < |t|
      ensures key(t[i]) != key(t[j])
    {
      if key(t[i]) == key(t[j]) {
        assert t[i] == t[j];
        TwoOccurrences(t, i, j);
        OneOccurrence(key, s, t[i]);
      }
    }
  }

  // ---------- sorting strings ----------

  function Self(s: string): string { s }

  /** `slices.Sort` on strings. */
  function SortStrings(s: seq<string>): seq<string> {
    Sort(Self, s)
  }

  lemma SortStringsIsCanonical(s: seq<string>, t: seq<string>)
    ensures multiset(SortStrings(s)) == multiset(s) && Sorted(Self, SortStrings(s))
    ensures SortStrings(s) == SortStrings(t) <==> multiset(s) == multiset(t)
  {
    SortSorts(Self, s);
    SortSorts(Self, t);
    if multiset(s) == multiset(t) {
      SortIsUnique(Self, SortStrings(s), SortStrings(t));
    }
  }

  lemma SortStringsMembers(s: seq<string>, k: string)
    ensures k in SortStrings(s) <==> k in s
  {
    SortSorts(Self, s);
    assert k in SortStrings(s) <==> k in multiset(SortStrings(s));
    assert k in s <==> k in multiset(s);
  }
}
