/** The list view shared by the Users and Roles screens: the sort state and
    its toggle rule, the comparator handed to `Array.prototype.sort`, and the
    stable sort itself.

    The comparator compares the lower-cased values of one field; when no
    field is selected it answers 0 for every pair. Both cases are modelled by
    a key function (the constant "" when no field is selected), so the sort
    below is always the same stable sort over the comparator `Compare`.
    ECMA-262 10th edition (ES2019), section 22.1.3.27 requires
    `Array.prototype.sort` to be stable, and the model uses insertion sort
    as that stable sort (stability is `SortStable` below). */
module ListView {
  import opened Text
  import opened Seqs

  datatype Option<T> = None | Some(value: T)

  datatype Direction = Asc | Desc

  /** `{key, direction}`; `key == None` is the initial `key: null`. */
  datatype SortConfig<K> = SortConfig(key: Option<K>, direction: Direction)

  /** `handleSort(k)`: the key becomes `k`; the direction becomes Desc exactly
      when `k` was already the key and the direction was Asc. */
  function Toggle<K(==)>(c: SortConfig<K>, k: K): (r: SortConfig<K>)
    ensures r.key == Some(k)
    ensures r.direction == Desc <==> c.key == Some(k) && c.direction == Asc
  {
    SortConfig(Some(k), if c.key == Some(k) && c.direction == Asc then Desc else Asc)
  }

  /** Clicking the same key again flips the direction; clicking a new key
      starts ascending. */
  lemma ToggleAlternates<K>(c: SortConfig<K>, k: K, k': K)
    ensures Toggle(Toggle(c, k), k).direction != Toggle(c, k).direction
    ensures k' != k ==> Toggle(Toggle(c, k), k').direction == Asc
  {
  }

  /** The comparator: -1 when `a` sorts before `b` in the given direction,
      1 when after, 0 when the keys are equal. */
  function Compare(dir: Direction, a: string, b: string): int
  {
    if LexLess(a, b) then (if dir == Asc then -1 else 1)
    else if LexLess(b, a) then (if dir == Asc then 1 else -1)
    else 0
  }

  /** The comparator is consistent: it answers 0 exactly on equal keys, is
      antisymmetric, ascending-before means `<`, and descending is ascending
      with the arguments swapped. */
  lemma CompareSpec(dir: Direction, a: string, b: string)
    ensures Compare(dir, a, b) == 0 <==> a == b
    ensures Compare(dir, b, a) == -Compare(dir, a, b)
    ensures Compare(Asc, a, b) < 0 <==> LexLess(a, b)
    ensures Compare(Desc, a, b) == Compare(Asc, b, a)
  {
    LexLessIrreflexive(a);
    LexLessTotal(a, b);
    if LexLess(a, b) && LexLess(b, a) {
      LexLessTransitive(a, b, a);
    }
  }

  /** "Not after" is transitive, which makes the comparator a total preorder. */
  lemma CompareTransitive(dir: Direction, a: string, b: string, c: string)
    requires Compare(dir, a, b) <= 0 && Compare(dir, b, c) <= 0
    ensures Compare(dir, a, c) <= 0
    ensures Compare(dir, a, b) < 0 || Compare(dir, b, c) < 0 ==> Compare(dir, a, c) < 0
  {
    CompareSpec(dir, a, b);
    CompareSpec(dir, b, c);
    CompareSpec(dir, a, c);
    if dir == Asc {
      if LexLess(a, b) && LexLess(b, c) { LexLessTransitive(a, b, c); }
      if LexLess(c, a) && LexLess(a, b) { LexLessTransitive(c, a, b); }
      if LexLess(b, c) && LexLess(c, a) { LexLessTransitive(b, c, a); }
    } else {
      if LexLess(c, b) && LexLess(b, a) { LexLessTransitive(c, b, a); }
      if LexLess(a, c) && LexLess(c, b) { LexLessTransitive(a, c, b); }
      if LexLess(b, a) && LexLess(a, c) { LexLessTransitive(b, a, c); }
    }
  }

  /** Inserts `x` after every element of the sorted `t` that the comparator
      does not place after `x`: equal keys keep `x` behind them. */
  function Insert<T>(t: seq<T>, x: T, key: T -> string, dir: Direction): (r: seq<T>)
    ensures |r| == |t| + 1
  {
    if t == [] then [x]
    else if Compare(dir, key(x), key(t[|t| - 1])) < 0 then Insert(t[..|t| - 1], x, key, dir) + [t[|t| - 1]]
    else t + [x]
  }

  /** `[...s].sort(cmp)` with `cmp(a, b) == Compare(dir, key(a), key(b))`:
      a copy of `s`, sorted stably by insertion. */
  function Sort<T>(s: seq<T>, key: T -> string, dir: Direction): (r: seq<T>)
    ensures |r| == |s|
  {
    if s == [] then [] else Insert(Sort(s[..|s| - 1], key, dir), s[|s| - 1], key, dir)
  }

  /** The comparator never puts a later element before an earlier one. */
  ghost predicate Sorted<T>(r: seq<T>, key: T -> string, dir: Direction)
  {
    forall i, j :: 0 <= i < j < |r| ==> Compare(dir, key(r[i]), key(r[j])) <= 0
  }

  ghost predicate StrictlySorted<T>(r: seq<T>, key: T -> string, dir: Direction)
  {
    forall i, j :: 0 <= i < j < |r| ==> Compare(dir, key(r[i]), key(r[j])) < 0
  }

  ghost predicate DistinctKeys<T>(s: seq<T>, key: T -> string)
  {
    forall i, j :: 0 <= i < j < |s| ==> key(s[i]) != key(s[j])
  }

  lemma {:induction false} InsertPermutes<T>(t: seq<T>, x: T, key: T -> string, dir: Direction)
    ensures multiset(Insert(t, x, key, dir)) == multiset(t) + multiset{x}
  {
    if t != [] && Compare(dir, key(x), key(t[|t| - 1])) < 0 {
      InsertPermutes(t[..|t| - 1], x, key, dir);
      assert t == t[..|t| - 1] + [t[|t| - 1]];
    }
  }

  lemma {:induction false} SortedPrefix<T>(t: seq<T>, key: T -> string, dir: Direction)
    requires Sorted(t, key, dir) && t != []
    ensures Sorted(t[..|t| - 1], key, dir)
    ensures forall i :: 0 <= i < |t| ==> Compare(dir, key(t[i]), key(t[|t| - 1])) <= 0
  {
    var last := t[|t| - 1];
    forall i | 0 <= i < |t|
      ensures Compare(dir, key(t[i]), key(last)) <= 0
    {
      if i == |t| - 1 {
        CompareSpec(dir, key(last), key(last));
      }
    }
  }

  /** Every element of `Insert(t, x, ..)` is `x` or an element of `t`. */
  lemma InsertMembers<T>(t: seq<T>, x: T, key: T -> string, dir: Direction)
    ensures forall i :: 0 <= i < |t| + 1 ==> Insert(t, x, key, dir)[i] == x || Insert(t, x, key, dir)[i] in t
  {
    InsertPermutes(t, x, key, dir);
    var u := Insert(t, x, key, dir);
    forall i | 0 <= i < |u|
      ensures u[i] == x || u[i] in t
    {
      assert u[i] in multiset(u);
    }
  }

  lemma SortedSnoc<T>(u: seq<T>, y: T, key: T -> string, dir: Direction)
    requires Sorted(u, key, dir)
    requires forall i :: 0 <= i < |u| ==> Compare(dir, key(u[i]), key(y)) <= 0
    ensures Sorted(u + [y], key, dir)
  {
  }

  lemma StrictlySortedSnoc<T>(u: seq<T>, y: T, key: T -> string, dir: Direction)
    requires StrictlySorted(u, key, dir)
    requires forall i :: 0 <= i < |u| ==> Compare(dir, key(u[i]), key(y)) < 0
    ensures StrictlySorted(u + [y], key, dir)
  {
  }

  lemma {:induction false} InsertSorted<T>(t: seq<T>, x: T, key: T -> string, dir: Direction)
    requires Sorted(t, key, dir)
    ensures Sorted(Insert(t, x, key, dir), key, dir)
  {
    if t != [] {
      var t', last := t[..|t| - 1], t[|t| - 1];
      SortedPrefix(t, key, dir);
      if Compare(dir, key(x), key(last)) < 0 {
        InsertSorted(t', x, key, dir);
        InsertMembers(t', x, key, dir);
        var u := Insert(t', x, key, dir);
        forall i | 0 <= i < |u|
          ensures Compare(dir, key(u[i]), key(last)) <= 0
        {
          if u[i] != x {
            var k :| 0 <= k < |t'| && t'[k] == u[i];
            assert t[k] == u[i];
          }
        }
        SortedSnoc(u, last, key, dir);
      } else {
        CompareSpec(dir, key(x), key(last));
        forall i | 0 <= i < |t|
          ensures Compare(dir, key(t[i]), key(x)) <= 0
        {
          CompareTransitive(dir, key(t[i]), key(last), key(x));
        }
        SortedSnoc(t, x, key, dir);
      }
    }
  }

  lemma {:induction false} SortPermutes<T>(s: seq<T>, key: T -> string, dir: Direction)
    ensures multiset(Sort(s, key, dir)) == multiset(s)
  {
    if s != [] {
      var s', x := s[..|s| - 1], s[|s| - 1];
      var t := Sort(s', key, dir);
      SortPermutes(s', key, dir);
      InsertPermutes(t, x, key, dir);
      assert s == s' + [x];
    }
  }

  lemma {:induction false} SortSorted<T>(s: seq<T>, key: T -> string, dir: Direction)
    ensures Sorted(Sort(s, key, dir), key, dir)
  {
    if s != [] {
      var s' := s[..|s| - 1];
      SortSorted(s', key, dir);
      InsertSorted(Sort(s', key, dir), s[|s| - 1], key, dir);
    }
  }

  /** The sort returns a sorted permutation of its input. */
  lemma SortSpec<T>(s: seq<T>, key: T -> string, dir: Direction)
    ensures |Sort(s, key, dir)| == |s|
    ensures multiset(Sort(s, key, dir)) == multiset(s)
    ensures Sorted(Sort(s, key, dir), key, dir)
  {
    SortPermutes(s, key, dir);
    SortSorted(s, key, dir);
  }

  /** A sequence whose keys are all equal is left exactly as it is. */
  lemma {:induction false} SortEqualKeys<T>(s: seq<T>, key: T -> string, dir: Direction, k: string)
    requires forall i :: 0 <= i < |s| ==> key(s[i]) == k
    ensures Sort(s, key, dir) == s
  {
    if s != [] {
      var s' := s[..|s| - 1];
      SortEqualKeys(s', key, dir, k);
      if s' != [] {
        CompareSpec(dir, key(s[|s| - 1]), key(s'[|s'| - 1]));
      }
      assert s == s' + [s[|s| - 1]];
    }
  }

  /** Case of FilterInsert where `x` goes to the end of `t`. */
  lemma FilterInsertAtEnd<T>(t: seq<T>, x: T, key: T -> string, dir: Direction, p: T -> bool)
    requires Sorted(t, key, dir) && t != []
    requires Compare(dir, key(x), key(t[|t| - 1])) >= 0
    requires p(x)
    ensures Insert(Filter(t, p), x, key, dir) == Filter(t, p) + [x]
  {
    var f := Filter(t, p);
    if f != [] {
      var last := t[|t| - 1];
      SortedPrefix(t, key, dir);
      FilterElements(t, p);
      var y := f[|f| - 1];
      assert y in t;
      var k :| 0 <= k < |t| && t[k] == y;
      CompareSpec(dir, key(x), key(last));
      CompareTransitive(dir, key(y), key(last), key(x));
      CompareSpec(dir, key(y), key(x));
    }
  }

  lemma InsertBeforeLast<T>(f: seq<T>, last: T, x: T, key: T -> string, dir: Direction)
    requires Compare(dir, key(x), key(last)) < 0
    ensures Insert(f + [last], x, key, dir) == Insert(f, x, key, dir) + [last]
  {
    var g := f + [last];
    assert g[..|g| - 1] == f && g[|g| - 1] == last;
  }

  lemma FilterSingleton<T>(y: T, p: T -> bool)
    ensures Filter([y], p) == if p(y) then [y] else []
  {
    assert [y][1..] == [];
  }

  /** Case of FilterInsert where `x` goes before the last element of `t`. */
  lemma FilterInsertBefore<T>(t: seq<T>, x: T, key: T -> string, dir: Direction, p: T -> bool)
    requires t != []
    requires Compare(dir, key(x), key(t[|t| - 1])) < 0
    requires Filter(Insert(t[..|t| - 1], x, key, dir), p) ==
             if p(x) then Insert(Filter(t[..|t| - 1], p), x, key, dir) else Filter(t[..|t| - 1], p)
    ensures Filter(Insert(t, x, key, dir), p) == if p(x) then Insert(Filter(t, p), x, key, dir) else Filter(t, p)
  {
    var t', last := t[..|t| - 1], t[|t| - 1];
    assert t == t' + [last];
    InsertBeforeLast(t', last, x, key, dir);
    FilterAppend(t', [last], p);
    FilterAppend(Insert(t', x, key, dir), [last], p);
    FilterSingleton(last, p);
    var u := Insert(t', x, key, dir);
    if p(last) {
      assert Filter(t, p) == Filter(t', p) + [last];
      assert Filter(u + [last], p) == Filter(u, p) + [last];
      if p(x) {
        InsertBeforeLast(Filter(t', p), last, x, key, dir);
      }
    } else {
      assert Filter(t, p) == Filter(t', p) + [] == Filter(t', p);
      assert Filter(u + [last], p) == Filter(u, p) + [] == Filter(u, p);
    }
  }

  lemma {:induction false} FilterInsert<T>(t: seq<T>, x: T, key: T -> string, dir: Direction, p: T -> bool)
    requires Sorted(t, key, dir)
    ensures Filter(Insert(t, x, key, dir), p) ==
            if p(x) then Insert(Filter(t, p), x, key, dir) else Filter(t, p)
  {
    if t != [] {
      var t' := t[..|t| - 1];
      if Compare(dir, key(x), key(t[|t| - 1])) < 0 {
        SortedPrefix(t, key, dir);
        FilterInsert(t', x, key, dir, p);
        FilterInsertBefore(t, x, key, dir, p);
      } else {
        FilterAppend(t, [x], p);
        if p(x) {
          FilterInsertAtEnd(t, x, key, dir, p);
        }
      }
    }
  }

  /** Sorting then filtering equals filtering then sorting: the view may sort
      the whole list before narrowing it, as the screens do, without changing
      what is shown. */
  lemma {:induction false} FilterSort<T>(s: seq<T>, key: T -> string, dir: Direction, p: T -> bool)
    ensures Filter(Sort(s, key, dir), p) == Sort(Filter(s, p), key, dir)
  {
    if s != [] {
      var s', x := s[..|s| - 1], s[|s| - 1];
      assert s == s' + [x];
      var sorted' := Sort(s', key, dir);
      assert Sort(s, key, dir) == Insert(sorted', x, key, dir);
      FilterSort(s', key, dir, p);
      SortSpec(s', key, dir);
      FilterInsert(sorted', x, key, dir, p);
      FilterAppend(s', [x], p);
      var f := Filter(s, p);
      if p(x) {
        assert f == Filter(s', p) + [x];
        assert f[..|f| - 1] == Filter(s', p);
        assert Sort(f, key, dir) == Insert(Sort(Filter(s', p), key, dir), x, key, dir);
      } else {
        assert f == Filter(s', p);
      }
    }
  }

  /** Stability: the elements selected by any `p` that only selects elements
      sharing one key come out of the sort in their input order. */
  lemma SortStable<T>(s: seq<T>, key: T -> string, dir: Direction, p: T -> bool, k: string)
    requires forall x :: p(x) ==> key(x) == k
    ensures Filter(Sort(s, key, dir), p) == Filter(s, p)
  {
    FilterSort(s, key, dir, p);
    FilterElements(s, p);
    SortEqualKeys(Filter(s, p), key, dir, k);
  }

  lemma {:induction false} InsertStrict<T>(t: seq<T>, x: T, key: T -> string, dir: Direction)
    requires StrictlySorted(t, key, dir)
    requires forall y :: y in t ==> key(y) != key(x)
    ensures StrictlySorted(Insert(t, x, key, dir), key, dir)
  {
    if t != [] {
      var t', last := t[..|t| - 1], t[|t| - 1];
      assert StrictlySorted(t', key, dir);
      if Compare(dir, key(x), key(last)) < 0 {
        InsertStrict(t', x, key, dir);
        InsertMembers(t', x, key, dir);
        var u := Insert(t', x, key, dir);
        forall i | 0 <= i < |u|
          ensures Compare(dir, key(u[i]), key(last)) < 0
        {
          if u[i] != x {
            var k :| 0 <= k < |t'| && t'[k] == u[i];
            assert t[k] == u[i];
          }
        }
        StrictlySortedSnoc(u, last, key, dir);
      } else {
        CompareSpec(dir, key(x), key(last));
        forall i | 0 <= i < |t|
          ensures Compare(dir, key(t[i]), key(x)) < 0
        {
          if i < |t| - 1 {
            CompareTransitive(dir, key(t[i]), key(last), key(x));
          }
        }
        StrictlySortedSnoc(t, x, key, dir);
      }
    }
  }

  /** With pairwise distinct keys the sort leaves no ties. */
  lemma {:induction false} SortStrict<T>(s: seq<T>, key: T -> string, dir: Direction)
    requires DistinctKeys(s, key)
    ensures StrictlySorted(Sort(s, key, dir), key, dir)
  {
    if s != [] {
      var s', x := s[..|s| - 1], s[|s| - 1];
      SortStrict(s', key, dir);
      SortSpec(s', key, dir);
      forall y | y in Sort(s', key, dir)
        ensures key(y) != key(x)
      {
        assert y in multiset(Sort(s', key, dir));
        assert y in s';
        var k :| 0 <= k < |s'| && s'[k] == y;
        assert s[k] == y;
      }
      InsertStrict(Sort(s', key, dir), x, key, dir);
    }
  }

  /** Two strictly sorted arrangements of the same elements start alike. */
  lemma StrictlySortedSameHead<T>(a: seq<T>, b: seq<T>, key: T -> string, dir: Direction)
    requires StrictlySorted(a, key, dir) && StrictlySorted(b, key, dir)
    requires a != [] && multiset(a) == multiset(b)
    ensures b != [] && a[0] == b[0]
  {
    assert a[0] in multiset(b);
    assert b[0] in multiset(a);
    var m :| 0 <= m < |b| && b[m] == a[0];
    var n :| 0 <= n < |a| && a[n] == b[0];
    if m != 0 && n != 0 {
      CompareSpec(dir, key(b[0]), key(b[m]));
      assert false;
    }
  }

  lemma MultisetTail<T>(a: seq<T>, b: seq<T>)
    requires a != [] && b != [] && a[0] == b[0]
    requires multiset(a) == multiset(b)
    ensures multiset(a[1..]) == multiset(b[1..])
  {
    assert a == [a[0]] + a[1..] && b == [b[0]] + b[1..];
    assert multiset(a[1..]) == multiset(a) - multiset{a[0]};
    assert multiset(b[1..]) == multiset(b) - multiset{b[0]};
  }

  lemma StrictlySortedTail<T>(a: seq<T>, key: T -> string, dir: Direction)
    requires StrictlySorted(a, key, dir) && a != []
    ensures StrictlySorted(a[1..], key, dir)
  {
    forall i, j | 0 <= i < j < |a| - 1
      ensures Compare(dir, key(a[1..][i]), key(a[1..][j])) < 0
    {
      assert a[1..][i] == a[i + 1] && a[1..][j] == a[j + 1];
    }
  }

  /** Two strictly sorted arrangements of the same elements are equal. */
  lemma {:induction false} StrictlySortedUnique<T>(a: seq<T>, b: seq<T>, key: T -> string, dir: Direction)
    requires StrictlySorted(a, key, dir) && StrictlySorted(b, key, dir)
    requires multiset(a) == multiset(b)
    ensures a == b
  {
    if a == [] {
      assert |multiset(b)| == 0;
    } else {
      StrictlySortedSameHead(a, b, key, dir);
      MultisetTail(a, b);
      StrictlySortedTail(a, key, dir);
      StrictlySortedTail(b, key, dir);
      StrictlySortedUnique(a[1..], b[1..], key, dir);
      assert a == [a[0]] + a[1..] && b == [b[0]] + b[1..];
    }
  }

  /** When all keys differ, sorting descending gives exactly the reverse of
      sorting ascending. */
  lemma SortDescIsReversedAsc<T>(s: seq<T>, key: T -> string)
    requires DistinctKeys(s, key)
    ensures Sort(s, key, Desc) == Reverse(Sort(s, key, Asc))
  {
    var up, down := Sort(s, key, Asc), Sort(s, key, Desc);
    SortSpec(s, key, Asc);
    SortSpec(s, key, Desc);
    SortStrict(s, key, Asc);
    SortStrict(s, key, Desc);
    ReverseMultiset(up);
    var rev := Reverse(up);
    forall i, j | 0 <= i < j < |rev|
      ensures Compare(Desc, key(rev[i]), key(rev[j])) < 0
    {
      CompareSpec(Desc, key(rev[i]), key(rev[j]));
    }
    StrictlySortedUnique(down, rev, key, Desc);
  }

  /** With a tie, descending is not the reverse of ascending: both directions
      keep the tied elements in their input order. */
  lemma SortDescWithTies()
    ensures Sort(["b", "a", "B"], Lower, Asc) == ["a", "b", "B"]
    ensures Sort(["b", "a", "B"], Lower, Desc) == ["b", "B", "a"]
    ensures Sort(["b", "a", "B"], Lower, Desc) != Reverse(Sort(["b", "a", "B"], Lower, Asc))
  {
    assert Lower("a") == "a" && Lower("b") == "b";
    assert Lower("B") == "b" by {
      assert Lower("B")[0] == 'b';
    }
    assert LexLess("a", "b") && !LexLess("b", "a");
    CompareSpec(Asc, "b", "b");
    CompareSpec(Desc, "b", "b");
    var s := ["b", "a", "B"];
    assert s[..2] == ["b", "a"] && s[..2][..1] == ["b"] && [s[0]][..0] == [];
    var up1 := Sort(["b"], Lower, Asc);
    assert up1 == ["b"];
    var up2 := Sort(["b", "a"], Lower, Asc);
    assert up2 == Insert(["b"], "a", Lower, Asc);
    assert up2 == ["a", "b"];
    var up3 := Sort(s, Lower, Asc);
    assert up3 == Insert(["a", "b"], "B", Lower, Asc);
    assert up3 == ["a", "b", "B"];
    var down1 := Sort(["b"], Lower, Desc);
    assert down1 == ["b"];
    var down2 := Sort(["b", "a"], Lower, Desc);
    assert down2 == Insert(["b"], "a", Lower, Desc);
    assert down2 == ["b", "a"];
    var down3 := Sort(s, Lower, Desc);
    assert down3 == Insert(["b", "a"], "B", Lower, Desc);
    assert ["b", "a"][..1] == ["b"];
    assert down3 == ["b", "B", "a"];
    assert Reverse(up3)[0] == "B";
  }
}
