/** Lists of names as the directory keeps them: JavaScript's default
    `Array.prototype.sort` order on strings, `includes`, `push` + `sort`,
    and `filter(x => x !== name)`. */
module SortedLists {

  /** `a` sorts no later than `b`: character-by-character lexicographic order. */
  predicate Below(a: string, b: string)
  {
    |a| == 0 || (|b| > 0 && (a[0] < b[0] || (a[0] == b[0] && Below(a[1..], b[1..]))))
  }

  lemma {:induction false} BelowReflexive(a: string)
    ensures Below(a, a)
  {
    if |a| > 0 {
      BelowReflexive(a[1..]);
    }
  }

  lemma {:induction false} BelowTotal(a: string, b: string)
    ensures Below(a, b) || Below(b, a)
  {
    if |a| > 0 && |b| > 0 && a[0] == b[0] {
      BelowTotal(a[1..], b[1..]);
    }
  }

  lemma {:induction false} BelowAntisymmetric(a: string, b: string)
    requires Below(a, b) && Below(b, a)
    ensures a == b
  {
    if |a| > 0 && |b| > 0 {
      BelowAntisymmetric(a[1..], b[1..]);
      assert a == [a[0]] + a[1..];
      assert b == [b[0]] + b[1..];
    }
  }

  lemma {:induction false} BelowTransitive(a: string, b: string, c: string)
    requires Below(a, b) && Below(b, c)
    ensures Below(a, c)
  {
    if |a| > 0 && a[0] == b[0] && b[0] == c[0] {
      BelowTransitive(a[1..], b[1..], c[1..]);
    }
  }

  predicate Sorted(s: seq<string>)
  {
    forall i, j :: 0 <= i < j < |s| ==> Below(s[i], s[j])
  }

  predicate Distinct(s: seq<string>)
  {
    forall i, j :: 0 <= i < j < |s| ==> s[i] != s[j]
  }

  /** Every element of `s` sorts no earlier than `x`. */
  predicate AllAbove(x: string, s: seq<string>)
  {
    forall y :: y in s ==> Below(x, y)
  }

  lemma SortedHeadBelowAll(s: seq<string>)
    requires Sorted(s) && |s| > 0
    ensures AllAbove(s[0], s[1..])
  {
    forall y | y in s[1..]
      ensures Below(s[0], y)
    {
      var k :| 0 <= k < |s[1..]| && s[1..][k] == y;
      assert s[k + 1] == y;
    }
  }

  lemma ConsSorted(x: string, s: seq<string>)
    requires Sorted(s) && AllAbove(x, s)
    ensures Sorted([x] + s)
  {
    var t := [x] + s;
    forall i, j | 0 <= i < j < |t|
      ensures Below(t[i], t[j])
    {
      if i > 0 {
        assert t[i] == s[i - 1] && t[j] == s[j - 1];
      } else {
        assert t[j] == s[j - 1];
        assert t[j] in s;
      }
    }
  }

  /** The sorted insertion `push` followed by `sort` performs on a sorted list. */
  function Insert(s: seq<string>, x: string): (r: seq<string>)
    requires Sorted(s)
    ensures Sorted(r)
    ensures multiset(r) == multiset(s) + multiset{x}
  {
    if |s| == 0 then [x]
    else if Below(s[0], x) then
      var t := Insert(s[1..], x);
      SortedHeadBelowAll(s);
      assert s == [s[0]] + s[1..];
      assert AllAbove(s[0], t) by {
        forall y | y in t
          ensures Below(s[0], y)
        {
          assert y in multiset(t);
        }
      }
      ConsSorted(s[0], t);
      [s[0]] + t
    else
      BelowTotal(s[0], x);
      assert AllAbove(x, s) by {
        SortedHeadBelowAll(s);
        forall y | y in s
          ensures Below(x, y)
        {
          if y != s[0] {
            assert y in s[1..] by { assert s == [s[0]] + s[1..]; }
            BelowTransitive(x, s[0], y);
          }
        }
      }
      ConsSorted(x, s);
      [x] + s
  }

  /** JavaScript's `sort()` on a list of strings: the sorted permutation. */
  function Sort(s: seq<string>): (r: seq<string>)
    ensures Sorted(r)
    ensures multiset(r) == multiset(s)
  {
    if |s| == 0 then []
    else
      assert s == s[..|s| - 1] + [s[|s| - 1]];
      Insert(Sort(s[..|s| - 1]), s[|s| - 1])
  }

  /** `a` is `b` with some elements left out and the rest in their order
      (matching each element of `a` to its earliest occurrence loses nothing). */
  predicate Subsequence(a: seq<string>, b: seq<string>)
    decreases |b|
  {
    |a| == 0 || (|b| > 0 && (if a[0] == b[0] then Subsequence(a[1..], b[1..]) else Subsequence(a, b[1..])))
  }

  lemma {:induction false} SubsequenceMultiset(a: seq<string>, b: seq<string>)
    requires Subsequence(a, b)
    ensures multiset(a) <= multiset(b)
    decreases |b|
  {
    if |a| > 0 {
      assert b == [b[0]] + b[1..];
      if a[0] == b[0] {
        assert a == [a[0]] + a[1..];
        SubsequenceMultiset(a[1..], b[1..]);
      } else {
        SubsequenceMultiset(a, b[1..]);
      }
    }
  }

  /** `list.filter(x => x !== name)`: drop every occurrence of `name`, keep the order. */
  function Without(s: seq<string>, name: string): (r: seq<string>)
    ensures multiset(r) == multiset(s)[name := 0]
    ensures Subsequence(r, s)
    ensures |r| <= |s|
    ensures |r| == |s| <==> name !in s
  {
    if |s| == 0 then []
    else
      assert s == [s[0]] + s[1..];
      var t := Without(s[1..], name);
      if s[0] == name then
        assert name !in multiset(t);
        t
      else
        assert name in s <==> name in s[1..];
        assert ([s[0]] + t)[1..] == t;
        [s[0]] + t
  }

  /** Order and multiplicities together pin the filter down: a subsequence
      of `before` holding every name but `x` as often as `before` does is
      exactly `Without(before, x)`. */
  lemma {:induction false} FilterUnique(before: seq<string>, after: seq<string>, x: string)
    requires Subsequence(after, before) && multiset(after) == multiset(before)[x := 0]
    ensures after == Without(before, x)
    decreases |before|
  {
    if |before| > 0 {
      var b := before[0];
      var rest := before[1..];
      assert before == [b] + rest;
      assert multiset(before) == multiset{b} + multiset(rest);
      if |after| > 0 && after[0] == b {
        assert after == [b] + after[1..];
        assert b in multiset(after);
        assert b != x;
        assert multiset(after[1..]) == multiset(after) - multiset{b};
        assert multiset(rest)[x := 0] == multiset(before)[x := 0] - multiset{b};
        FilterUnique(rest, after[1..], x);
      } else {
        SubsequenceMultiset(after, rest);
        assert multiset(after)[b] <= multiset(rest)[b] < multiset(before)[b];
        assert b == x;
        assert multiset(after) == multiset(rest)[x := 0];
        FilterUnique(rest, after, x);
      }
    }
  }

  lemma {:induction false} WithoutKeepsSorted(s: seq<string>, name: string)
    requires Sorted(s)
    ensures Sorted(Without(s, name))
  {
    if |s| > 0 {
      assert s == [s[0]] + s[1..];
      var t := Without(s[1..], name);
      WithoutKeepsSorted(s[1..], name);
      if s[0] != name {
        SortedHeadBelowAll(s);
        assert AllAbove(s[0], t) by {
          forall y | y in t
            ensures Below(s[0], y)
          {
            assert y in multiset(t);
          }
        }
        ConsSorted(s[0], t);
      }
    }
  }

  lemma {:induction false} WithoutKeepsDistinct(s: seq<string>, name: string)
    requires Distinct(s)
    ensures Distinct(Without(s, name))
  {
    if |s| > 0 {
      assert s == [s[0]] + s[1..];
      var t := Without(s[1..], name);
      WithoutKeepsDistinct(s[1..], name);
      if s[0] != name {
        assert s[0] !in multiset(s[1..]) by { assert s[0] !in s[1..]; }
        assert s[0] !in multiset(t);
        ConsDistinct(s[0], t);
      }
    }
  }

  lemma ConsDistinct(x: string, s: seq<string>)
    requires Distinct(s) && x !in s
    ensures Distinct([x] + s)
  {
    var u := [x] + s;
    forall i, j | 0 <= i < j < |u|
      ensures u[i] != u[j]
    {
      assert u[j] == s[j - 1];
      if i > 0 {
        assert u[i] == s[i - 1];
      }
    }
  }

  /** Inserting a name that sorts after the whole list appends it. */
  lemma {:induction false} InsertAtEnd(s: seq<string>, x: string)
    requires Sorted(s + [x])
    ensures Sorted(s)
    ensures Insert(s, x) == s + [x]
  {
    assert (s + [x])[..|s|] == s;
    if |s| > 0 {
      assert (s + [x])[0] == s[0] && (s + [x])[|s|] == x;
      assert (s + [x])[1..] == s[1..] + [x];
      InsertAtEnd(s[1..], x);
      assert s == [s[0]] + s[1..];
    }
  }

  /** Sorting a list that is already sorted gives it back unchanged. */
  lemma {:induction false} SortOfSorted(s: seq<string>)
    requires Sorted(s)
    ensures Sort(s) == s
  {
    if |s| > 0 {
      var init := s[..|s| - 1];
      var last := s[|s| - 1];
      assert s == init + [last];
      InsertAtEnd(init, last);
      SortOfSorted(init);
    }
  }

  /** Pushing onto a sorted list and sorting is sorted insertion. */
  lemma SortAfterPush(s: seq<string>, x: string)
    requires Sorted(s)
    ensures Sort(s + [x]) == Insert(s, x)
  {
    assert (s + [x])[..|s|] == s;
    SortOfSorted(s);
  }

  lemma {:induction false} InsertKeepsDistinct(s: seq<string>, x: string)
    requires Sorted(s) && Distinct(s) && x !in s
    ensures Distinct(Insert(s, x))
  {
    if |s| > 0 && Below(s[0], x) {
      assert s == [s[0]] + s[1..];
      InsertKeepsDistinct(s[1..], x);
      var t := Insert(s[1..], x);
      assert s[0] !in t by {
        assert s[0] !in multiset(s[1..]);
        assert s[0] !in multiset(t);
      }
    }
  }

  /** Removing a name that sorted insertion just added gives the list back. */
  lemma {:induction false} WithoutUndoesInsert(s: seq<string>, x: string)
    requires Sorted(s) && x !in s
    ensures Without(Insert(s, x), x) == s
  {
    if |s| > 0 {
      assert s == [s[0]] + s[1..];
      if Below(s[0], x) {
        WithoutUndoesInsert(s[1..], x);
      } else {
        WithoutAbsent(s, x);
      }
    }
  }

  lemma {:induction false} WithoutAbsent(s: seq<string>, x: string)
    requires x !in s
    ensures Without(s, x) == s
  {
    if |s| > 0 {
      assert s == [s[0]] + s[1..];
      WithoutAbsent(s[1..], x);
    }
  }

  /** `after` is `before` with `x` added the way the directory adds a name:
      untouched when `x` is already there, otherwise pushed and sorted. */
  ghost predicate Added(before: seq<string>, after: seq<string>, x: string)
  {
    && x in after
    && (x in before ==> after == before)
    && (x !in before ==> Sorted(after) && multiset(after) == multiset(before) + multiset{x})
  }

  /** Adding a name keeps every name already there. */
  lemma AddedKeeps(before: seq<string>, after: seq<string>, x: string, y: string)
    requires Added(before, after, x) && y in before
    ensures y in after
  {
    if x !in before {
      assert y in multiset(before);
      assert y in multiset(after);
    }
  }

  /** Removing `x` keeps every other name and leaves no `x`. */
  lemma RemovedKeeps(before: seq<string>, after: seq<string>, x: string, y: string)
    requires Removed(before, after, x)
    ensures y in after <==> y in before && y != x
  {
    assert y in after <==> y in multiset(after);
    assert y in before <==> y in multiset(before);
  }

  /** `after` is `before` with every `x` filtered out: the other names keep
      their multiplicities and their order, and a sorted list stays sorted.
      By `FilterUnique`, `after` is then exactly `Without(before, x)`. */
  ghost predicate Removed(before: seq<string>, after: seq<string>, x: string)
  {
    && multiset(after) == multiset(before)[x := 0]
    && Subsequence(after, before)
    && (x !in before ==> after == before)
    && (Sorted(before) ==> Sorted(after))
    && (Distinct(before) ==> Distinct(after))
  }

  /** `if (!list.includes(x)) { list.push(x); list.sort() }`: how the
      directory adds a name to a list. */
  function AddName(list: seq<string>, x: string): (r: seq<string>)
    ensures Added(list, r, x)
  {
    if x in list then list
    else
      var r := Sort(list + [x]);
      assert x in multiset(r);
      r
  }

  /** Adding a name a second time changes nothing. */
  lemma AddNameTwice(list: seq<string>, x: string)
    ensures AddName(AddName(list, x), x) == AddName(list, x)
  {
  }

  /** Filtering a name out a second time changes nothing. */
  lemma WithoutTwice(s: seq<string>, x: string)
    ensures Without(Without(s, x), x) == Without(s, x)
  {
    assert x !in multiset(Without(s, x));
    WithoutAbsent(Without(s, x), x);
  }

  /** The filter step of the directory satisfies `Removed`. */
  lemma FilterRemoves(before: seq<string>, x: string)
    ensures Removed(before, Without(before, x), x)
  {
    if x !in before {
      WithoutAbsent(before, x);
    }
    if Sorted(before) {
      WithoutKeepsSorted(before, x);
    }
    if Distinct(before) {
      WithoutKeepsDistinct(before, x);
    }
  }

  /** The distinct elements of a set in sorted order: `Object.keys(m).sort()`. */
  ghost function SortedElements(s: set<string>): (r: seq<string>)
    ensures Sorted(r) && Distinct(r)
    ensures forall y :: y in r <==> y in s
    decreases s
  {
    if s == {} then []
    else
      var x :| x in s;
      var t := SortedElements(s - {x});
      InsertKeepsDistinct(t, x);
      var r := Insert(t, x);
      forall y
        ensures y in r <==> y in s
      {
        assert y in r <==> y in multiset(r);
        assert y in t <==> y in multiset(t);
      }
      r
  }
}
