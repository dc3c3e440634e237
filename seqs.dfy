/** Array.prototype.filter on immutable sequences. */
module Seqs {

  /** a can be obtained from b by deleting elements (an order-preserving sub-list). */
  ghost predicate IsSubsequence<T>(a: seq<T>, b: seq<T>)
    decreases |b|
  {
    a == [] || (b != [] && ((a[0] == b[0] && IsSubsequence(a[1..], b[1..])) || IsSubsequence(a, b[1..])))
  }

  /** The elements of s that satisfy keep, in their original order. */
  function Filter<T(!new)>(s: seq<T>, keep: T --> bool): (r: seq<T>)
    requires forall x :: x in s ==> keep.requires(x)
    ensures |r| <= |s|
    ensures forall x :: x in r <==> x in s && keep(x)
    ensures IsSubsequence(r, s)
  {
    if s == [] then []
    else if keep(s[0]) then [s[0]] + Filter(s[1..], keep)
    else Filter(s[1..], keep)
  }

  /**
   * The filter keeps every element exactly when it has the input's length, and a
   * filter keeping nothing gives the empty list.
   */
  lemma {:induction false} FilterAllOrNone<T(!new)>(s: seq<T>, keep: T --> bool)
    requires forall x :: x in s ==> keep.requires(x)
    ensures (forall i :: 0 <= i < |s| ==> keep(s[i])) ==> Filter(s, keep) == s
    ensures (|Filter(s, keep)| == |s|) == (forall i :: 0 <= i < |s| ==> keep(s[i]))
    ensures (forall i :: 0 <= i < |s| ==> !keep(s[i])) ==> Filter(s, keep) == []
  {
    if s != [] {
      FilterAllOrNone(s[1..], keep);
      assert forall i :: 1 <= i < |s| ==> s[1..][i - 1] == s[i];
    }
  }

  /** Keeping elements in order keeps a strictly increasing tag strictly increasing. */
  lemma {:induction false} FilterAscending<T(!new)>(s: seq<T>, keep: T --> bool, tag: T -> int)
    requires forall x :: x in s ==> keep.requires(x)
    requires forall i, j :: 0 <= i < j < |s| ==> tag(s[i]) < tag(s[j])
    ensures forall i, j :: 0 <= i < j < |Filter(s, keep)| ==> tag(Filter(s, keep)[i]) < tag(Filter(s, keep)[j])
  {
    if s != [] {
      var tail := s[1..];
      assert forall i, j :: 0 <= i < j < |tail| ==> tag(tail[i]) < tag(tail[j]) by {
        forall i, j | 0 <= i < j < |tail| ensures tag(tail[i]) < tag(tail[j]) {
          assert tail[i] == s[i + 1] && tail[j] == s[j + 1];
        }
      }
      FilterAscending(tail, keep, tag);
      var rest := Filter(tail, keep);
      if keep(s[0]) {
        HeadBelowRest(s, keep, tag);
        var r := [s[0]] + rest;
        assert Filter(s, keep) == r;
        forall i, j | 0 <= i < j < |r| ensures tag(r[i]) < tag(r[j]) {
          assert r[j] == rest[j - 1];
          if i > 0 {
            assert r[i] == rest[i - 1];
          }
        }
      } else {
        assert Filter(s, keep) == rest;
      }
    }
  }

  /** The head of a strictly increasing list is below everything the filter keeps from its tail. */
  lemma HeadBelowRest<T(!new)>(s: seq<T>, keep: T --> bool, tag: T -> int)
    requires s != []
    requires forall x :: x in s ==> keep.requires(x)
    requires forall i, j :: 0 <= i < j < |s| ==> tag(s[i]) < tag(s[j])
    ensures forall k :: 0 <= k < |Filter(s[1..], keep)| ==> tag(s[0]) < tag(Filter(s[1..], keep)[k])
  {
    var rest := Filter(s[1..], keep);
    forall k | 0 <= k < |rest| ensures tag(s[0]) < tag(rest[k]) {
      assert rest[k] in rest;
      var m :| 0 <= m < |s[1..]| && s[1..][m] == rest[k];
      assert s[m + 1] == rest[k];
    }
  }
}
