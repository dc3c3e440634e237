/**
 * Array.prototype.sort((a, b) => b.value - a.value) on a copy: a stable sort
 * into non-increasing order of a real-valued key.
 */
module StableSort {

  /** Places x after every element whose key is at least key(x). */
  function Insert<T>(x: T, s: seq<T>, key: T -> real): (r: seq<T>)
    ensures |r| == |s| + 1
  {
    if s == [] then [x]
    else if key(s[0]) >= key(x) then [s[0]] + Insert(x, s[1..], key)
    else [x] + s
  }

  /** Inserts the elements one after another, in their original order. */
  function SortDesc<T>(s: seq<T>, key: T -> real): (r: seq<T>)
    ensures |r| == |s|
  {
    if s == [] then [] else Insert(s[|s| - 1], SortDesc(s[..|s| - 1], key), key)
  }

  /** Strictly increasing positional tags: the order the elements had before sorting. */
  ghost predicate TagsAscending<T>(s: seq<T>, tag: T -> int)
  {
    forall i, j :: 0 <= i < j < |s| ==> tag(s[i]) < tag(s[j])
  }

  /**
   * Non-increasing by key, and elements of equal key keep ascending tags: for a
   * list whose tags ascend this is exactly what a stable descending sort yields.
   */
  ghost predicate SortedStable<T>(s: seq<T>, key: T -> real, tag: T -> int)
  {
    forall i, j :: 0 <= i < j < |s| ==>
      key(s[i]) > key(s[j]) || (key(s[i]) == key(s[j]) && tag(s[i]) < tag(s[j]))
  }

  /** h sorts strictly before y: a larger key, or an equal key and a smaller tag. */
  ghost predicate Before<T>(h: T, y: T, key: T -> real, tag: T -> int)
  {
    key(h) > key(y) || (key(h) == key(y) && tag(h) < tag(y))
  }

  lemma SortedCons<T>(h: T, r: seq<T>, key: T -> real, tag: T -> int)
    requires SortedStable(r, key, tag)
    requires forall y :: y in r ==> Before(h, y, key, tag)
    ensures SortedStable([h] + r, key, tag)
  {
    var out := [h] + r;
    forall i, j | 0 <= i < j < |out|
      ensures key(out[i]) > key(out[j]) || (key(out[i]) == key(out[j]) && tag(out[i]) < tag(out[j]))
    {
      assert out[j] == r[j - 1];
      if i > 0 {
        assert out[i] == r[i - 1];
      } else {
        assert out[j] in r;
      }
    }
  }

  lemma {:induction false} InsertPermutes<T>(x: T, s: seq<T>, key: T -> real)
    ensures multiset(Insert(x, s, key)) == multiset(s) + multiset{x}
  {
    if s != [] && key(s[0]) >= key(x) {
      assert s == [s[0]] + s[1..];
      InsertPermutes(x, s[1..], key);
    }
  }

  lemma {:induction false} InsertCorrect<T>(x: T, s: seq<T>, key: T -> real, tag: T -> int)
    requires SortedStable(s, key, tag)
    requires forall y :: y in s ==> tag(y) < tag(x)
    ensures multiset(Insert(x, s, key)) == multiset(s) + multiset{x}
    ensures SortedStable(Insert(x, s, key), key, tag)
  {
    InsertPermutes(x, s, key);
    if s == [] {
    } else if key(s[0]) >= key(x) {
      var rest := s[1..];
      TailSorted(s, key, tag);
      InsertCorrect(x, rest, key, tag);
      var r := Insert(x, rest, key);
      HeadBeforeInsert(x, s, r, key, tag);
      SortedCons(s[0], r, key, tag);
    } else {
      forall y | y in s ensures Before(x, y, key, tag) {
        var m :| 0 <= m < |s| && s[m] == y;
        if m > 0 { assert key(s[0]) >= key(s[m]); }
      }
      SortedCons(x, s, key, tag);
    }
  }

  lemma TailSorted<T>(s: seq<T>, key: T -> real, tag: T -> int)
    requires s != [] && SortedStable(s, key, tag)
    ensures SortedStable(s[1..], key, tag)
  {
    var rest := s[1..];
    forall i, j | 0 <= i < j < |rest|
      ensures key(rest[i]) > key(rest[j]) || (key(rest[i]) == key(rest[j]) && tag(rest[i]) < tag(rest[j]))
    {
      assert rest[i] == s[i + 1] && rest[j] == s[j + 1];
    }
  }

  lemma HeadBeforeInsert<T>(x: T, s: seq<T>, r: seq<T>, key: T -> real, tag: T -> int)
    requires s != [] && SortedStable(s, key, tag) && key(s[0]) >= key(x)
    requires forall y :: y in s ==> tag(y) < tag(x)
    requires multiset(r) == multiset(s[1..]) + multiset{x}
    ensures forall y :: y in r ==> Before(s[0], y, key, tag)
  {
    forall y | y in r ensures Before(s[0], y, key, tag) {
      assert y in multiset(r);
      if y != x {
        assert y in multiset(s[1..]);
        var m :| 0 <= m < |s[1..]| && s[1..][m] == y;
        assert s[m + 1] == y;
      } else {
        assert s[0] in s;
      }
    }
  }

  /** The sorted list is a permutation of the input, sorted non-increasingly and stable. */
  lemma {:induction false} SortDescCorrect<T>(s: seq<T>, key: T -> real, tag: T -> int)
    requires TagsAscending(s, tag)
    ensures multiset(SortDesc(s, key)) == multiset(s)
    ensures |SortDesc(s, key)| == |s|
    ensures SortedStable(SortDesc(s, key), key, tag)
  {
    if s != [] {
      var init := s[..|s| - 1];
      var x := s[|s| - 1];
      assert s == init + [x];
      SortDescCorrect(init, key, tag);
      var sorted := SortDesc(init, key);
      forall y | y in sorted ensures tag(y) < tag(x) {
        assert y in multiset(sorted);
        assert y in init;
      }
      InsertCorrect(x, sorted, key, tag);
      assert |multiset(SortDesc(s, key))| == |s|;
    }
  }

  /** The head of a non-empty sorted list carries the largest key of the input. */
  lemma SortDescHead<T>(s: seq<T>, key: T -> real, tag: T -> int)
    requires TagsAscending(s, tag) && |s| > 0
    ensures |SortDesc(s, key)| == |s|
    ensures SortDesc(s, key)[0] in s
    ensures forall i :: 0 <= i < |s| ==> key(s[i]) <= key(SortDesc(s, key)[0])
  {
    SortDescCorrect(s, key, tag);
    var r := SortDesc(s, key);
    assert r[0] in multiset(s);
    forall i | 0 <= i < |s| ensures key(s[i]) <= key(r[0]) {
      assert s[i] in multiset(r);
      var k :| 0 <= k < |r| && r[k] == s[i];
      if k > 0 { assert key(r[0]) >= key(r[k]); }
    }
  }

  /**
   * A stable sort is determined by its input: two permutations of one list that
   * are both sorted in this sense are equal, so the result does not depend on
   * the sorting algorithm.
   */
  lemma {:induction false} SortedStableUnique<T>(a: seq<T>, b: seq<T>, key: T -> real, tag: T -> int)
    requires multiset(a) == multiset(b)
    requires SortedStable(a, key, tag) && SortedStable(b, key, tag)
    ensures a == b
  {
    if a != [] {
      UniqueStep(a, b, key, tag);
      SortedStableUnique(a[1..], b[1..], key, tag);
      assert a == [a[0]] + a[1..];
      assert b == [b[0]] + b[1..];
    }
  }

  /** Two such lists share their head, and their tails are again two such lists. */
  lemma UniqueStep<T>(a: seq<T>, b: seq<T>, key: T -> real, tag: T -> int)
    requires a != [] && multiset(a) == multiset(b)
    requires SortedStable(a, key, tag) && SortedStable(b, key, tag)
    ensures b != [] && a[0] == b[0] && multiset(a[1..]) == multiset(b[1..])
    ensures SortedStable(a[1..], key, tag) && SortedStable(b[1..], key, tag)
  {
    assert |b| == |multiset(b)| == |a|;
    HeadsEqual(a, b, key, tag);
    TailSorted(a, key, tag);
    TailSorted(b, key, tag);
    TailMultiset(a);
    TailMultiset(b);
  }

  lemma TailMultiset<T>(a: seq<T>)
    requires a != []
    ensures multiset(a[1..]) == multiset(a) - multiset{a[0]}
  {
    assert a == [a[0]] + a[1..];
  }

  lemma HeadsEqual<T>(a: seq<T>, b: seq<T>, key: T -> real, tag: T -> int)
    requires a != [] && b != [] && multiset(a) == multiset(b)
    requires SortedStable(a, key, tag) && SortedStable(b, key, tag)
    ensures a[0] == b[0]
  {
    assert a[0] in multiset(b);
    assert b[0] in multiset(a);
    var i :| 0 <= i < |b| && b[i] == a[0];
    var j :| 0 <= j < |a| && a[j] == b[0];
  }

  /** Tags that are exactly the positions, as the index field of a profile or a portrait. */
  ghost predicate Positional<T>(s: seq<T>, tag: T -> int)
  {
    forall i :: 0 <= i < |s| ==> tag(s[i]) == i
  }

  /** The element of rank n in the sorted list is the input element its tag names. */
  lemma RankMember<T>(s: seq<T>, key: T -> real, tag: T -> int, n: nat)
    requires Positional(s, tag) && n < |s|
    ensures 0 <= tag(SortDesc(s, key)[n]) < |s|
    ensures s[tag(SortDesc(s, key)[n])] == SortDesc(s, key)[n]
  {
    SortDescCorrect(s, key, tag);
    var r := SortDesc(s, key);
    assert r[n] in multiset(s);
    var k :| 0 <= k < |s| && s[k] == r[n];
  }

  /**
   * The element of rank n beats every input element that did not take an
   * earlier rank: a larger key, or an equal key and a tag no larger.
   */
  lemma RankDominates<T>(s: seq<T>, key: T -> real, tag: T -> int, n: nat, i: nat)
    requires Positional(s, tag) && n < |s| && i < |s|
    requires forall m :: 0 <= m < n ==> tag(SortDesc(s, key)[m]) != i
    ensures key(s[i]) < key(SortDesc(s, key)[n])
      || (key(s[i]) == key(SortDesc(s, key)[n]) && tag(SortDesc(s, key)[n]) <= i)
  {
    assert TagsAscending(s, tag);
    SortDescCorrect(s, key, tag);
    var r := SortDesc(s, key);
    assert s[i] in multiset(r);
    var j :| 0 <= j < |r| && r[j] == s[i];
    assert tag(r[j]) == i;
    assert n <= j;
    if n < j {
      assert key(r[n]) > key(r[j]) || (key(r[n]) == key(r[j]) && tag(r[n]) < tag(r[j]));
    }
  }

  /** Two different ranks hold different input elements. */
  lemma RanksDistinct<T>(s: seq<T>, key: T -> real, tag: T -> int, m: nat, n: nat)
    requires Positional(s, tag) && m < n < |s|
    ensures tag(SortDesc(s, key)[m]) != tag(SortDesc(s, key)[n])
  {
    SortDescCorrect(s, key, tag);
    RankMember(s, key, tag, m);
    RankMember(s, key, tag, n);
  }
}
