/**
 * Team.js: figures for a team, computed from its members' test results, and
 * the selection of candidates who would complete it.
 */
module Teams {
  import opened Types
  import opened Numeric
  import opened Seqs
  import opened StableSort
  import opened PsyUtils
  import opened UserResults

  /** What Team(dataList) fixes when it is built; every figure is computed from it. */
  datatype Team = Team(
    dataList: seq<Matrix>,
    resultList: seq<UserResult>,
    profile: seq<Tendency>,
    portrait: seq<Octant>)

  /** A team has at least one member, and every member's result is a 5x5 matrix. */
  ghost predicate MembersValid(dataList: seq<Matrix>)
  {
    |dataList| >= 1 && forall k :: 0 <= k < |dataList| ==> IsMatrix(dataList[k])
  }

  ghost predicate Valid(t: Team)
  {
    MembersValid(t.dataList) && |t.resultList| == |t.dataList|
    && (forall k :: 0 <= k < |t.dataList| ==> Consistent(t.resultList[k]))
    && IsProfile(t.profile) && IsPortrait(t.portrait)
  }

  // ---------------------------------------------------------------- averages

  function OctantValues(p: seq<Octant>): (v: seq<real>)
    ensures |v| == |p| && forall i :: 0 <= i < |p| ==> v[i] == p[i].value
  {
    seq(|p|, i requires 0 <= i < |p| => p[i].value)
  }

  /** Position i of every row. */
  function Column(rows: seq<seq<real>>, i: nat): (c: seq<real>)
    requires forall k :: 0 <= k < |rows| ==> i < |rows[k]|
    ensures |c| == |rows| && forall k :: 0 <= k < |rows| ==> c[k] == rows[k][i]
  {
    seq(|rows|, k requires 0 <= k < |rows| => rows[k][i])
  }

  ghost predicate Rows8(rows: seq<seq<real>>)
  {
    forall k :: 0 <= k < |rows| ==> |rows[k]| == 8
  }

  /** Per-position means over the members, rounded to one decimal. */
  function AvgValues(rows: seq<seq<real>>): (avg: seq<real>)
    requires |rows| >= 1 && Rows8(rows)
    ensures |avg| == 8
  {
    Averages(ColumnSums(rows), |rows|)
  }

  /** The eight column sums of the member rows. */
  function ColumnSums(rows: seq<seq<real>>): (sums: seq<real>)
    requires Rows8(rows)
    ensures |sums| == 8
  {
    seq(8, i requires 0 <= i < 8 => SumReal(Column(rows, i)))
  }

  /** Each sum divided by the member count and rounded to one decimal. */
  function Averages(sums: seq<real>, n: nat): (avg: seq<real>)
    requires n >= 1
    ensures |avg| == |sums|
  {
    seq(|sums|, i requires 0 <= i < |sums| => Round(sums[i] / n as real, 1))
  }

  lemma ColumnSnoc(rows: seq<seq<real>>, k: nat, i: nat)
    requires k < |rows| && Rows8(rows) && i < 8
    ensures SumReal(Column(rows[..k + 1], i)) == SumReal(Column(rows[..k], i)) + rows[k][i]
  {
    var c := Column(rows[..k + 1], i);
    assert c[..k] == Column(rows[..k], i);
  }

  /** getAvgValues: column sums accumulated member by member into arrSum, then divided and rounded. */
  method GetAvgValues(rows: seq<seq<real>>) returns (avg: seq<real>)
    requires |rows| >= 1 && Rows8(rows)
    ensures avg == AvgValues(rows)
  {
    var arrSum := new real[8](_ => 0.0);
    for k := 0 to |rows|
      invariant forall i :: 0 <= i < 8 ==> arrSum[i] == SumReal(Column(rows[..k], i))
    {
      for i := 0 to 8
        invariant forall j :: 0 <= j < i ==> arrSum[j] == SumReal(Column(rows[..k + 1], j))
        invariant forall j :: i <= j < 8 ==> arrSum[j] == SumReal(Column(rows[..k], j))
      {
        ColumnSnoc(rows, k, i);
        arrSum[i] := arrSum[i] + rows[k][i];
      }
    }
    assert rows[..|rows|] == rows;
    assert arrSum[..] == ColumnSums(rows);
    avg := Averages(arrSum[..], |rows|);
  }

  /**
   * Each average lies within half a decimal unit of a value between the
   * smallest and the largest member value at that position; a team of members
   * with equal values has that value, rounded, as its average.
   */
  lemma AvgValuesBounds(rows: seq<seq<real>>, i: nat, lo: real, hi: real)
    requires |rows| >= 1 && Rows8(rows) && i < 8
    requires forall k :: 0 <= k < |rows| ==> lo <= rows[k][i] <= hi
    ensures lo - 0.05 <= AvgValues(rows)[i] <= hi + 0.05
    ensures lo == hi ==> AvgValues(rows)[i] == Round(lo, 1)
  {
    var c := Column(rows, i);
    var mean := SumReal(c) / |rows| as real;
    MeanBetween(c, lo, hi);
    assert AvgValues(rows)[i] == Round(mean, 1);
    RoundProperties(mean, 1);
    assert Pow10(1) == 10.0 by { assert Pow10(0) == 1.0; }
  }

  /** The mean of values between lo and hi lies between lo and hi. */
  lemma MeanBetween(c: seq<real>, lo: real, hi: real)
    requires |c| >= 1
    requires forall k :: 0 <= k < |c| ==> lo <= c[k] <= hi
    ensures lo <= SumReal(c) / |c| as real <= hi
  {
    SumRealBetween(c, lo, hi);
    QuotientBetween(SumReal(c), |c| as real, lo, hi);
  }

  /** Multiplying by a positive factor keeps the order, both ways. */
  lemma MulLe(a: real, b: real, n: real)
    requires n > 0.0
    ensures a <= b <==> a * n <= b * n
  {
    if a <= b {
      assert b * n - a * n == (b - a) * n;
    } else {
      assert a * n - b * n == (a - b) * n;
    }
  }

  lemma QuotientBetween(x: real, n: real, lo: real, hi: real)
    requires n > 0.0 && n * lo <= x <= n * hi
    ensures lo <= x / n <= hi
  {
    var q := x / n;
    assert x == q * n;
    MulLe(lo, q, n);
    MulLe(q, hi, n);
  }

  function ProfileRows(resultList: seq<UserResult>): (rows: seq<seq<real>>)
    ensures |rows| == |resultList|
  {
    seq(|resultList|, k requires 0 <= k < |resultList| => AxisValues(resultList[k].profile))
  }

  function PortraitRows(resultList: seq<UserResult>): (rows: seq<seq<real>>)
    ensures |rows| == |resultList|
  {
    seq(|resultList|, k requires 0 <= k < |resultList| => OctantValues(resultList[k].portrait))
  }

  /** getTeamProfile: tendency i carries average i. */
  function TeamProfile(avg: seq<real>): seq<Tendency>
    requires |avg| == 8
  {
    seq(8, i requires 0 <= i < 8 => Tendency(i, avg[i]))
  }

  /** getTeamPortrait: octant i carries code i and average i. */
  function TeamPortrait(avg: seq<real>): seq<Octant>
    requires |avg| == 8
  {
    seq(8, i requires 0 <= i < 8 => Octant(CodeList[i], i, avg[i]))
  }

  function ResultList(dataList: seq<Matrix>): (r: seq<UserResult>)
    requires MembersValid(dataList)
    ensures |r| == |dataList|
  {
    seq(|dataList|, k requires 0 <= k < |dataList| => MakeUserResult(dataList[k], DefaultDiff))
  }

  lemma ResultListConsistent(dataList: seq<Matrix>)
    requires MembersValid(dataList)
    ensures forall k :: 0 <= k < |dataList| ==> Consistent(ResultList(dataList)[k])
    ensures Rows8(ProfileRows(ResultList(dataList))) && Rows8(PortraitRows(ResultList(dataList)))
  {
    forall k | 0 <= k < |dataList| ensures Consistent(ResultList(dataList)[k]) {
      MakeUserResultConsistent(dataList[k], DefaultDiff);
    }
  }

  /** Team(dataList), as a value. */
  function TeamOf(dataList: seq<Matrix>): Team
    requires MembersValid(dataList)
  {
    ResultListConsistent(dataList);
    var resultList := ResultList(dataList);
    Team(dataList, resultList,
      TeamProfile(AvgValues(ProfileRows(resultList))),
      TeamPortrait(AvgValues(PortraitRows(resultList))))
  }

  /** Team(dataList): the member results, then the averaged profile and portrait. */
  method MakeTeam(dataList: seq<Matrix>) returns (t: Team)
    requires MembersValid(dataList)
    ensures t == TeamOf(dataList)
  {
    ResultListConsistent(dataList);
    var resultList := ResultList(dataList);
    var profileAvg := GetAvgValues(ProfileRows(resultList));
    var portraitAvg := GetAvgValues(PortraitRows(resultList));
    t := Team(dataList, resultList, TeamProfile(profileAvg), TeamPortrait(portraitAvg));
  }

  lemma AvgNonNeg(rows: seq<seq<real>>)
    requires |rows| >= 1 && Rows8(rows)
    requires forall k, i :: 0 <= k < |rows| && 0 <= i < 8 ==> rows[k][i] >= 0.0
    ensures forall i :: 0 <= i < 8 ==> AvgValues(rows)[i] >= 0.0
  {
    forall i | 0 <= i < 8 ensures AvgValues(rows)[i] >= 0.0 {
      var c := Column(rows, i);
      SumRealNonNeg(c);
      DivMono(0.0, SumReal(c), |rows| as real);
      RoundProperties(SumReal(c) / |rows| as real, 1);
    }
  }

  /**
   * A team built from valid members is valid: its profile and portrait have
   * their entries by position and none is negative.
   */
  lemma TeamOfValid(dataList: seq<Matrix>)
    requires MembersValid(dataList)
    ensures Valid(TeamOf(dataList))
  {
    ResultListConsistent(dataList);
    var resultList := ResultList(dataList);
    AvgNonNeg(ProfileRows(resultList));
    AvgNonNeg(PortraitRows(resultList));
  }

  // ------------------------------------------------------ the team portrait

  /** getMaxSectorSquare: the value heading the portrait sorted by value. */
  function MaxSector(t: Team): real
    requires |t.portrait| == 8
  {
    SortDesc(t.portrait, OctantValue)[0].value
  }

  lemma PortraitTagsAscending(p: seq<Octant>)
    requires IsPortrait(p)
    ensures TagsAscending(p, OctantIndex)
  {
  }

  /** The largest sector is the largest value of the team portrait, and is not negative. */
  lemma MaxSectorSpec(t: Team)
    requires IsPortrait(t.portrait)
    ensures exists i :: 0 <= i < 8 && t.portrait[i].value == MaxSector(t)
    ensures forall i :: 0 <= i < 8 ==> t.portrait[i].value <= MaxSector(t)
    ensures MaxSector(t) >= 0.0
  {
    PortraitTagsAscending(t.portrait);
    SortDescHead(t.portrait, OctantValue, OctantIndex);
    var top := SortDesc(t.portrait, OctantValue)[0];
    var i :| 0 <= i < 8 && t.portrait[i] == top;
    assert t.portrait[i].value == MaxSector(t);
  }

  lemma MaxSectorNonNeg(t: Team)
    requires IsPortrait(t.portrait)
    ensures MaxSector(t) >= 0.0
  {
    MaxSectorSpec(t);
  }

  /** The filter conditions on sector values. */
  function AtLeast(bound: real): Octant -> bool
  {
    (o: Octant) => o.value >= bound
  }

  function Below(bound: real): Octant -> bool
  {
    (o: Octant) => o.value < bound
  }

  /** majorOctants: the sectors reaching 30% of the largest one, in portrait order. */
  function MajorOctants(t: Team): (r: seq<Octant>)
    requires |t.portrait| == 8
  {
    Filter(t.portrait, AtLeast(MaxSector(t) * 0.3))
  }

  function Indexes(s: seq<Octant>): (r: seq<int>)
    ensures |r| == |s| && forall k :: 0 <= k < |s| ==> r[k] == s[k].index
  {
    seq(|s|, k requires 0 <= k < |s| => s[k].index)
  }

  function Codes(s: seq<Octant>): (r: seq<string>)
    ensures |r| == |s| && forall k :: 0 <= k < |s| ==> r[k] == s[k].code
  {
    seq(|s|, k requires 0 <= k < |s| => s[k].code)
  }

  /** getDescIndexes: the indexes of the sectors reaching half the largest one. */
  function DescIndexes(t: Team): seq<int>
    requires |t.portrait| == 8
  {
    Indexes(Filter(t.portrait, AtLeast(MaxSector(t) / 2.0)))
  }

  /** getNeedfulPsychoType: the indexes of the sectors below 30% of the largest one. */
  function NeedfulPsychoType(t: Team): seq<int>
    requires |t.portrait| == 8
  {
    Indexes(Filter(t.portrait, Below(MaxSector(t) * 0.3)))
  }

  /** For a sub-list of a portrait, an index is listed exactly when its octant is kept. */
  lemma IndexesOfSub(p: seq<Octant>, r: seq<Octant>, i: int)
    requires IsPortrait(p) && forall x :: x in r ==> x in p
    ensures i in Indexes(r) <==> 0 <= i < 8 && p[i] in r
  {
    if i in Indexes(r) {
      var k :| 0 <= k < |r| && Indexes(r)[k] == i;
      assert r[k] in p;
      var j :| 0 <= j < 8 && p[j] == r[k];
    }
    if 0 <= i < 8 && p[i] in r {
      var k :| 0 <= k < |r| && r[k] == p[i];
      assert Indexes(r)[k] == i;
    }
  }

  /** The same, for codes: a code is listed exactly when its octant is kept. */
  lemma CodesOfSub(p: seq<Octant>, r: seq<Octant>, i: int)
    requires IsPortrait(p) && forall x :: x in r ==> x in p
    requires 0 <= i < 8
    ensures CodeList[i] in Codes(r) <==> p[i] in r
  {
    if CodeList[i] in Codes(r) {
      var k :| 0 <= k < |r| && Codes(r)[k] == CodeList[i];
      assert r[k] in p;
      var j :| 0 <= j < 8 && p[j] == r[k];
      assert CodeList[j] == CodeList[i];
      CodeListDistinct();
      assert j == i;
    }
    if p[i] in r {
      var k :| 0 <= k < |r| && r[k] == p[i];
      assert Codes(r)[k] == CodeList[i];
    }
  }

  /**
   * The needful psycho-types are exactly the sectors that are not major; the
   * described sectors are major, and include the largest one.
   */
  lemma OctantSetsSpec(t: Team, i: int)
    requires IsPortrait(t.portrait)
    ensures i in Indexes(MajorOctants(t)) <==> 0 <= i < 8 && t.portrait[i].value >= MaxSector(t) * 0.3
    ensures i in NeedfulPsychoType(t) <==> 0 <= i < 8 && t.portrait[i].value < MaxSector(t) * 0.3
    ensures i in DescIndexes(t) <==> 0 <= i < 8 && t.portrait[i].value >= MaxSector(t) / 2.0
    ensures i in DescIndexes(t) ==> i in Indexes(MajorOctants(t))
    ensures 0 <= i < 8 && t.portrait[i].value == MaxSector(t) ==> i in DescIndexes(t)
  {
    MaxSectorNonNeg(t);
    var m := MaxSector(t);
    assert MajorOctants(t) == Filter(t.portrait, AtLeast(m * 0.3));
    assert NeedfulPsychoType(t) == Indexes(Filter(t.portrait, Below(m * 0.3)));
    assert DescIndexes(t) == Indexes(Filter(t.portrait, AtLeast(m / 2.0)));
    BandMembership(t.portrait, m, i);
  }

  /** The three threshold filters of a portrait, for any non-negative largest value m. */
  lemma BandMembership(p: seq<Octant>, m: real, i: int)
    requires IsPortrait(p) && m >= 0.0
    ensures i in Indexes(Filter(p, AtLeast(m * 0.3))) <==> 0 <= i < 8 && p[i].value >= m * 0.3
    ensures i in Indexes(Filter(p, Below(m * 0.3))) <==> 0 <= i < 8 && p[i].value < m * 0.3
    ensures i in Indexes(Filter(p, AtLeast(m / 2.0))) <==> 0 <= i < 8 && p[i].value >= m / 2.0
    ensures i in Indexes(Filter(p, AtLeast(m / 2.0))) ==> i in Indexes(Filter(p, AtLeast(m * 0.3)))
    ensures 0 <= i < 8 && p[i].value == m ==> i in Indexes(Filter(p, AtLeast(m / 2.0)))
  {
    IndexesOfSub(p, Filter(p, AtLeast(m * 0.3)), i);
    IndexesOfSub(p, Filter(p, Below(m * 0.3)), i);
    IndexesOfSub(p, Filter(p, AtLeast(m / 2.0)), i);
  }

  /** The needful and described indexes are listed in ascending order. */
  lemma OctantListsAscending(t: Team)
    requires IsPortrait(t.portrait)
    ensures forall a, b :: 0 <= a < b < |NeedfulPsychoType(t)| ==> NeedfulPsychoType(t)[a] < NeedfulPsychoType(t)[b]
    ensures forall a, b :: 0 <= a < b < |DescIndexes(t)| ==> DescIndexes(t)[a] < DescIndexes(t)[b]
  {
    var m := MaxSector(t);
    assert NeedfulPsychoType(t) == Indexes(Filter(t.portrait, Below(m * 0.3)));
    assert DescIndexes(t) == Indexes(Filter(t.portrait, AtLeast(m / 2.0)));
    PortraitTagsAscending(t.portrait);
    IndexesAscending(t.portrait, Below(m * 0.3));
    IndexesAscending(t.portrait, AtLeast(m / 2.0));
  }

  /** The indexes a filter keeps from a list with ascending indexes are ascending. */
  lemma IndexesAscending(p: seq<Octant>, keep: Octant -> bool)
    requires TagsAscending(p, OctantIndex)
    ensures forall a, b :: 0 <= a < b < |Indexes(Filter(p, keep))| ==> Indexes(Filter(p, keep))[a] < Indexes(Filter(p, keep))[b]
  {
    var r := Filter(p, keep);
    FilterAscending(p, keep, OctantIndex);
    forall a, b | 0 <= a < b < |r| ensures Indexes(r)[a] < Indexes(r)[b] {
      assert OctantIndex(r[a]) < OctantIndex(r[b]);
    }
  }

  /** getCrossFunc: the filled share of a circle of largest sectors, or -1 for an empty portrait. */
  function CrossFunc(t: Team): real
    requires |t.portrait| == 8
  {
    var m := MaxSector(t);
    if m == 0.0 then -1.0 else SumReal(OctantValues(t.portrait)) / (m * 8.0)
  }

  /** Cross-functionality is -1 exactly when every sector is empty, and otherwise between 1/8 and 1. */
  lemma CrossFuncSpec(t: Team)
    requires Valid(t)
    ensures CrossFunc(t) == -1.0 <==> forall i :: 0 <= i < 8 ==> t.portrait[i].value == 0.0
    ensures CrossFunc(t) != -1.0 ==> 0.125 <= CrossFunc(t) <= 1.0
  {
    MaxSectorSpec(t);
    var m := MaxSector(t);
    var v := OctantValues(t.portrait);
    if m != 0.0 {
      SumRealBounds(v, m);
      var i :| 0 <= i < 8 && t.portrait[i].value == m;
      assert v[i] == m;
      QuotientBetween(SumReal(v), m * 8.0, 0.125, 1.0);
      assert t.portrait[i].value != 0.0;
    }
  }

  /** getEmotionalComp: the smaller half-circle sum over the larger, or -1 when a half is empty. */
  function EmotionalComp(t: Team): real
    requires |t.portrait| == 8
  {
    var values := OctantValues(t.portrait);
    var rightSum := SumReal(values[..4]);
    var leftSum := SumReal(values[4..]);
    if leftSum == 0.0 then -1.0
    else if rightSum == 0.0 then -1.0
    else if leftSum <= rightSum then leftSum / rightSum else rightSum / leftSum
  }

  /**
   * Emotional compatibility is -1 exactly when one half of the portrait sums to
   * zero; otherwise it lies in (0, 1] and is 1 exactly when the halves balance.
   */
  lemma EmotionalCompSpec(t: Team)
    requires Valid(t)
    ensures var values := OctantValues(t.portrait);
      var rightSum := SumReal(values[..4]);
      var leftSum := SumReal(values[4..]);
      && (EmotionalComp(t) == -1.0 <==> rightSum == 0.0 || leftSum == 0.0)
      && (EmotionalComp(t) != -1.0 ==> 0.0 < EmotionalComp(t) <= 1.0)
      && (EmotionalComp(t) == 1.0 <==> rightSum == leftSum && rightSum != 0.0)
  {
    var values := OctantValues(t.portrait);
    SumRealNonNeg(values[..4]);
    SumRealNonNeg(values[4..]);
    var rightSum := SumReal(values[..4]);
    var leftSum := SumReal(values[4..]);
    if leftSum != 0.0 && rightSum != 0.0 {
      if leftSum <= rightSum {
        QuotientBetween(leftSum, rightSum, 0.0, 1.0);
        DivOneIff(leftSum, rightSum);
      } else {
        QuotientBetween(rightSum, leftSum, 0.0, 1.0);
        DivOneIff(rightSum, leftSum);
      }
    }
  }

  /** A quotient of positives is positive, and is 1 exactly for equal operands. */
  lemma DivOneIff(a: real, b: real)
    requires a > 0.0 && b > 0.0
    ensures a / b > 0.0
    ensures a / b == 1.0 <==> a == b
  {
    var q := a / b;
    assert a == q * b;
    MulLe(q, 0.0, b);
    if q == 1.0 {
      assert a == b;
    }
  }

  lemma SumThree(s: seq<real>)
    requires |s| == 3
    ensures SumReal(s) == s[0] + s[1] + s[2]
  {
    assert s[..2][..1] == [s[0]];
    assert SumReal([s[0]]) == s[0] by { assert [s[0]][..0] == []; }
  }

  /** getLoyalty: the top half-axes (0, 1 and 7) over the bottom ones (3, 4 and 5), with 0.1 for an empty bottom. */
  function Loyalty(t: Team): real
    requires |t.profile| == 8
  {
    var v := seq(8, i requires 0 <= i < 8 => t.profile[i].value);
    var topSum := SumReal([v[0], v[1], v[7]]);
    var bottomSum := SumReal(v[3..6]);
    if bottomSum == 0.0 then topSum / 0.1 else topSum / bottomSum
  }

  /** Loyalty is never negative, is zero exactly when the top half-axes are, and is ten times the top for an empty bottom. */
  lemma LoyaltySpec(t: Team)
    requires Valid(t)
    ensures var p := t.profile;
      var topSum := p[0].value + p[1].value + p[7].value;
      var bottomSum := p[3].value + p[4].value + p[5].value;
      && Loyalty(t) >= 0.0
      && (Loyalty(t) == 0.0 <==> topSum == 0.0)
      && (bottomSum == 0.0 ==> Loyalty(t) == topSum * 10.0)
      && (bottomSum != 0.0 ==> Loyalty(t) * bottomSum == topSum)
  {
    var p := t.profile;
    var v := seq(8, i requires 0 <= i < 8 => p[i].value);
    var topSum := SumReal([v[0], v[1], v[7]]);
    var bottomSum := SumReal(v[3..6]);
    SumThree([v[0], v[1], v[7]]);
    SumThree(v[3..6]);
    if bottomSum != 0.0 {
      if topSum != 0.0 {
        DivOneIff(topSum, bottomSum);
      }
    }
  }

  // -------------------------------------------------- figures over members

  /** Math.max over a non-empty list. */
  function MaxOf(s: seq<real>): (r: real)
    requires |s| >= 1
    ensures r in s && forall k :: 0 <= k < |s| ==> s[k] <= r
  {
    if |s| == 1 then s[0]
    else
      var m := MaxOf(s[..|s| - 1]);
      assert forall x :: x in s[..|s| - 1] ==> x in s;
      if s[|s| - 1] > m then s[|s| - 1] else m
  }

  /** Math.min over a non-empty list. */
  function MinOf(s: seq<real>): (r: real)
    requires |s| >= 1
    ensures r in s && forall k :: 0 <= k < |s| ==> r <= s[k]
  {
    if |s| == 1 then s[0]
    else
      var m := MinOf(s[..|s| - 1]);
      assert forall x :: x in s[..|s| - 1] ==> x in s;
      if s[|s| - 1] < m then s[|s| - 1] else m
  }

  /** The largest sector of every member, in member order. */
  function TopValues(t: Team): (v: seq<real>)
    requires Valid(t)
    ensures |v| == |t.dataList|
  {
    seq(|t.dataList|, k requires 0 <= k < |t.dataList| => t.resultList[k].sortedOctants[0].value)
  }

  /**
   * getInteraction: the smallest over the largest of the members' largest
   * sectors. The quotient 0/0 (NaN) of a team whose portraits are all empty
   * is None.
   */
  function Interaction(t: Team): Option<real>
    requires Valid(t)
  {
    var v := TopValues(t);
    var max := MaxOf(v);
    var min := MinOf(v);
    if max == 0.0 then None else Some(min / max)
  }

  /**
   * Interaction is undefined exactly when every member's portrait is empty;
   * otherwise it lies in [0, 1] and is 1 exactly when all members' largest
   * sectors are equal.
   */
  lemma InteractionSpec(t: Team)
    requires Valid(t)
    ensures Interaction(t).None? <==>
      forall k, i :: 0 <= k < |t.dataList| && 0 <= i < 8 ==> t.resultList[k].portrait[i].value == 0.0
    ensures Interaction(t).Some? ==> 0.0 <= Interaction(t).value <= 1.0
    ensures Interaction(t).Some? ==>
      (Interaction(t).value == 1.0 <==> forall k, l :: 0 <= k < l < |t.dataList| ==> TopValues(t)[k] == TopValues(t)[l])
  {
    var v := TopValues(t);
    TopValuesSpec(t);
    RatioOfExtremes(v);
  }

  /** A member's largest sector is not negative, and is zero exactly when the member's portrait is empty. */
  lemma TopValuesSpec(t: Team)
    requires Valid(t)
    ensures forall k :: 0 <= k < |t.dataList| ==> TopValues(t)[k] >= 0.0
    ensures forall k :: 0 <= k < |t.dataList| ==>
      (TopValues(t)[k] == 0.0 <==> forall i :: 0 <= i < 8 ==> t.resultList[k].portrait[i].value == 0.0)
  {
    forall k | 0 <= k < |t.dataList|
      ensures TopValues(t)[k] >= 0.0
      ensures TopValues(t)[k] == 0.0 <==> forall i :: 0 <= i < 8 ==> t.resultList[k].portrait[i].value == 0.0
    {
      TopValueOf(t.resultList[k]);
    }
  }

  lemma TopValueOf(u: UserResult)
    requires Consistent(u)
    ensures u.sortedOctants[0].value >= 0.0
    ensures u.sortedOctants[0].value == 0.0 <==> forall i :: 0 <= i < 8 ==> u.portrait[i].value == 0.0
  {
    assert u.portrait[u.mainOctant.index] == u.mainOctant;
  }

  /** For non-negative values: the minimum over the maximum is in [0, 1], and is 1 exactly when all are equal. */
  lemma RatioOfExtremes(v: seq<real>)
    requires |v| >= 1 && forall k :: 0 <= k < |v| ==> v[k] >= 0.0
    ensures MaxOf(v) == 0.0 <==> forall k :: 0 <= k < |v| ==> v[k] == 0.0
    ensures MaxOf(v) != 0.0 ==> 0.0 <= MinOf(v) / MaxOf(v) <= 1.0
    ensures MaxOf(v) != 0.0 ==>
      (MinOf(v) / MaxOf(v) == 1.0 <==> forall k, l :: 0 <= k < l < |v| ==> v[k] == v[l])
  {
    var max := MaxOf(v);
    var min := MinOf(v);
    if max != 0.0 {
      var k :| 0 <= k < |v| && v[k] == min;
      var l :| 0 <= l < |v| && v[l] == max;
      QuotientOfExtremes(min, max);
      if min != max {
        if k < l { assert v[k] != v[l]; } else { assert v[l] != v[k]; }
      }
    }
  }

  lemma QuotientOfExtremes(min: real, max: real)
    requires 0.0 <= min <= max && max != 0.0
    ensures 0.0 <= min / max <= 1.0
    ensures min / max == 1.0 <==> min == max
  {
    if min == 0.0 {
      assert min / max == 0.0;
    } else {
      QuotientBetween(min, max, 0.0, 1.0);
      DivOneIff(min, max);
    }
  }

  /** The values of one sector, member by member. */
  function SectorValues(t: Team, typeInd: int): (v: seq<real>)
    requires Valid(t) && 0 <= typeInd < 8
    ensures |v| == |t.dataList|
    ensures forall k :: 0 <= k < |v| ==> v[k] == t.resultList[k].portrait[typeInd].value
  {
    seq(|t.dataList|, k requires 0 <= k < |t.dataList| => t.resultList[k].portrait[typeInd].value)
  }

  /** getLeadingMemberByType: the position of the member with the largest value in sector typeInd. */
  function LeadingMemberByType(t: Team, typeInd: int): int
    requires Valid(t) && 0 <= typeInd < 8
  {
    var values := SectorValues(t, typeInd);
    IndexOf(values, MaxOf(values))
  }

  /** The leading member has the largest value of the sector, and every member before it a smaller one. */
  lemma LeadingMemberSpec(t: Team, typeInd: int)
    requires Valid(t) && 0 <= typeInd < 8
    ensures var r := LeadingMemberByType(t, typeInd);
      && 0 <= r < |t.dataList|
      && (forall k :: 0 <= k < |t.dataList| ==>
            t.resultList[k].portrait[typeInd].value <= t.resultList[r].portrait[typeInd].value)
      && (forall k :: 0 <= k < r ==>
            t.resultList[k].portrait[typeInd].value < t.resultList[r].portrait[typeInd].value)
  {
    var values := SectorValues(t, typeInd);
    var r := IndexOf(values, MaxOf(values));
    assert 0 <= r;
    forall k | 0 <= k < r
      ensures t.resultList[k].portrait[typeInd].value < t.resultList[r].portrait[typeInd].value
    {
      assert values[k] != MaxOf(values) && values[k] <= MaxOf(values);
    }
  }

  /** The attachment/separateness score of every member: row 3, column 0 of the test result. */
  function Responsibilities(dataList: seq<Matrix>): (r: seq<int>)
    requires forall k :: 0 <= k < |dataList| ==> IsMatrix(dataList[k])
    ensures |r| == |dataList|
  {
    seq(|dataList|, k requires 0 <= k < |dataList| && IsMatrix(dataList[k]) => dataList[k][3][0])
  }

  /** getCommitment: the sum of the members' responsibility values. */
  function Commitment(t: Team): int
    requires MembersValid(t.dataList)
  {
    Sum(Responsibilities(t.dataList))
  }

  /**
   * Commitment is additive over members: the commitment of two groups
   * together is the sum of theirs, and one member contributes its own score.
   */
  lemma CommitmentAdditive(a: seq<Matrix>, b: seq<Matrix>)
    requires forall k :: 0 <= k < |a| ==> IsMatrix(a[k])
    requires forall k :: 0 <= k < |b| ==> IsMatrix(b[k])
    ensures Sum(Responsibilities(a + b)) == Sum(Responsibilities(a)) + Sum(Responsibilities(b))
    ensures |a| == 1 ==> Sum(Responsibilities(a)) == a[0][3][0]
  {
    assert Responsibilities(a + b) == Responsibilities(a) + Responsibilities(b);
    SumAppend(Responsibilities(a), Responsibilities(b));
    if |a| == 1 {
      assert Responsibilities(a)[..0] == [];
    }
  }

  /** The value heading a profile sorted by value: its strongest tendency. */
  function PeakTendency(profile: seq<Tendency>): real
    requires |profile| == 8
  {
    SortDesc(profile, TendencyValue)[0].value
  }

  /** The peak is the largest value of the profile, and is not negative. */
  lemma PeakTendencySpec(profile: seq<Tendency>)
    requires IsProfile(profile)
    ensures exists i :: 0 <= i < 8 && profile[i].value == PeakTendency(profile)
    ensures forall i :: 0 <= i < 8 ==> profile[i].value <= PeakTendency(profile)
    ensures PeakTendency(profile) >= 0.0
  {
    assert TagsAscending(profile, TendencyIndex);
    SortDescHead(profile, TendencyValue, TendencyIndex);
    var top := SortDesc(profile, TendencyValue)[0];
    var i :| 0 <= i < 8 && profile[i] == top;
    assert profile[i].value == PeakTendency(profile);
  }

  function Peaks(t: Team): (v: seq<real>)
    requires Valid(t)
    ensures |v| == |t.dataList|
    ensures forall k :: 0 <= k < |v| ==> v[k] == PeakTendency(t.resultList[k].profile)
  {
    seq(|t.dataList|, k requires 0 <= k < |t.dataList| => PeakTendency(t.resultList[k].profile))
  }

  /** getTeamMaxIntensity: the mean of the members' peak tendencies. */
  function TeamMaxIntensity(t: Team): real
    requires Valid(t)
  {
    SumReal(Peaks(t)) / |t.dataList| as real
  }

  /** The team intensity lies between the smallest and the largest member peak. */
  lemma TeamMaxIntensitySpec(t: Team)
    requires Valid(t)
    ensures MinOf(Peaks(t)) <= TeamMaxIntensity(t) <= MaxOf(Peaks(t))
    ensures TeamMaxIntensity(t) >= 0.0
  {
    var v := Peaks(t);
    MeanBetween(v, MinOf(v), MaxOf(v));
    var k :| 0 <= k < |v| && v[k] == MinOf(v);
    PeakTendencySpec(t.resultList[k].profile);
  }

  /** checkIntensity: a member's peak is within 30% of the team intensity. */
  predicate CheckIntensity(t: Team, memberProfile: seq<Tendency>)
    requires Valid(t) && |memberProfile| == 8
  {
    var top := PeakTendency(memberProfile);
    var ti := TeamMaxIntensity(t);
    !(top > ti * 1.3 || top < ti * 0.7)
  }

  /**
   * A profile whose peak is the team intensity passes; against a team of zero
   * intensity only an all-zero profile passes, and a profile that passes has
   * a zero peak only against such a team.
   */
  lemma CheckIntensitySpec(t: Team, profile: seq<Tendency>)
    requires Valid(t) && IsProfile(profile)
    ensures PeakTendency(profile) == TeamMaxIntensity(t) ==> CheckIntensity(t, profile)
    ensures TeamMaxIntensity(t) == 0.0 ==>
      (CheckIntensity(t, profile) <==> forall i :: 0 <= i < 8 ==> profile[i].value == 0.0)
    ensures CheckIntensity(t, profile) && PeakTendency(profile) == 0.0 ==> TeamMaxIntensity(t) == 0.0
  {
    PeakTendencySpec(profile);
    TeamMaxIntensitySpec(t);
  }

  /** In a team whose members share one peak, every member passes the intensity check. */
  lemma UniformTeamPasses(t: Team, c: real, k: int)
    requires Valid(t) && 0 <= k < |t.dataList|
    requires forall j :: 0 <= j < |t.dataList| ==> PeakTendency(t.resultList[j].profile) == c
    ensures CheckIntensity(t, t.resultList[k].profile)
  {
    MeanBetween(Peaks(t), c, c);
    assert Consistent(t.resultList[k]);
  }

  // ------------------------------------------------------------- candidates

  /** specsList: the whole circle, then the four specialisations as code pairs. */
  const SpecsList: seq<seq<string>> :=
    [CodeList, ["A1", "A2"], ["B1", "B2"], ["a1", "a2"], ["b1", "b2"]]

  /** The portrait position of the first code of specialisation s; the second follows it. */
  function SpecPair(s: nat): (i: nat)
    requires s < 5
    ensures i + 1 < 8
  {
    if s == 0 then 0 else 2 * s - 2
  }

  lemma SpecCodes(s: nat)
    requires s < 5
    ensures |SpecsList[s]| >= 2
    ensures SpecsList[s][0] == CodeList[SpecPair(s)] && SpecsList[s][1] == CodeList[SpecPair(s) + 1]
    ensures forall c :: c in SpecsList[s] ==> c in CodeList
  {
  }

  function HasCode(a: string, b: string): Octant -> bool
  {
    (o: Octant) => o.code == a || o.code == b
  }

  /** specOctants: the major sectors carrying one of the two codes of specialisation s. */
  function SpecOctants(t: Team, s: nat): seq<Octant>
    requires |t.portrait| == 8 && s < 5
  {
    SpecCodes(s);
    Filter(MajorOctants(t), HasCode(SpecsList[s][0], SpecsList[s][1]))
  }

  /** Every kept element comes from the portrait. */
  lemma MajorFromPortrait(t: Team)
    requires Valid(t)
    ensures forall x :: x in MajorOctants(t) ==> x in t.portrait
    ensures forall i, j :: 0 <= i < j < |MajorOctants(t)| ==> MajorOctants(t)[i].index < MajorOctants(t)[j].index
  {
    PortraitTagsAscending(t.portrait);
    FilterAscending(t.portrait, AtLeast(MaxSector(t) * 0.3), OctantIndex);
  }

  /**
   * When both codes of specialisation s are major, the specialisation's
   * sectors are exactly those two, in portrait order.
   */
  lemma SpecOctantsPair(t: Team, s: nat)
    requires Valid(t) && s < 5
    requires |SpecsList[s]| >= 2
    requires SpecsList[s][0] in Codes(MajorOctants(t)) && SpecsList[s][1] in Codes(MajorOctants(t))
    ensures var i := SpecPair(s);
      |SpecOctants(t, s)| == 2 && SpecOctants(t, s)[0] == t.portrait[i] && SpecOctants(t, s)[1] == t.portrait[i + 1]
  {
    SpecCodes(s);
    var i := SpecPair(s);
    MajorFromPortrait(t);
    CodesOfSub(t.portrait, MajorOctants(t), i);
    CodesOfSub(t.portrait, MajorOctants(t), i + 1);
    PairInFilter(t.portrait, MajorOctants(t), i);
  }

  /** An octant of a portrait is determined by its code. */
  lemma CodeDeterminesOctant(p: seq<Octant>, x: Octant, i: nat)
    requires IsPortrait(p) && x in p && i < 8 && x.code == CodeList[i]
    ensures x == p[i]
  {
    CodeListDistinct();
    var j :| 0 <= j < 8 && p[j] == x;
  }

  /** A strictly ascending list of integers within [lo, hi] has at most hi - lo + 1 elements. */
  lemma {:induction false} AscendingBounded(xs: seq<int>, lo: int, hi: int)
    requires lo <= hi + 1
    requires forall j, k :: 0 <= j < k < |xs| ==> xs[j] < xs[k]
    requires forall j :: 0 <= j < |xs| ==> lo <= xs[j] <= hi
    ensures |xs| <= hi - lo + 1
  {
    if xs != [] {
      AscendingBounded(xs[1..], xs[0] + 1, hi);
    }
  }

  /** Filtering an ascending sub-list of a portrait that holds sectors i and i + 1 by their codes leaves exactly those two. */
  lemma PairInFilter(p: seq<Octant>, major: seq<Octant>, i: nat)
    requires IsPortrait(p) && i + 1 < 8
    requires forall x :: x in major ==> x in p
    requires forall a, b :: 0 <= a < b < |major| ==> major[a].index < major[b].index
    requires p[i] in major && p[i + 1] in major
    ensures var sp := Filter(major, HasCode(CodeList[i], CodeList[i + 1]));
      |sp| == 2 && sp[0] == p[i] && sp[1] == p[i + 1]
  {
    var keep := HasCode(CodeList[i], CodeList[i + 1]);
    var sp := Filter(major, keep);
    assert p[i] in sp && p[i + 1] in sp;
    FilterAscending(major, keep, OctantIndex);
    forall x | x in sp ensures x == p[i] || x == p[i + 1] {
      if x.code == CodeList[i] {
        CodeDeterminesOctant(p, x, i);
      } else {
        CodeDeterminesOctant(p, x, i + 1);
      }
    }
    forall j | 0 <= j < |sp| ensures i <= Indexes(sp)[j] <= i + 1 {
      assert sp[j] in sp;
    }
    AscendingBounded(Indexes(sp), i, i + 1);
    TwoAscending(sp, p[i], p[i + 1]);
  }

  /** A list of at most two octants with ascending indexes that holds x and y, x before y by index, is [x, y]. */
  lemma TwoAscending(sp: seq<Octant>, x: Octant, y: Octant)
    requires |sp| <= 2 && x in sp && y in sp && x.index < y.index
    requires forall a, b :: 0 <= a < b < |sp| ==> sp[a].index < sp[b].index
    ensures |sp| == 2 && sp[0] == x && sp[1] == y
  {
    var k0 :| 0 <= k0 < |sp| && sp[k0] == x;
    var k1 :| 0 <= k1 < |sp| && sp[k1] == y;
  }

  function Abs(x: real): real { if x < 0.0 then -x else x }

  /**
   * isSmbNeeded: a specialisation needs someone unless both of its sectors are
   * major and differ by less than 30% of the larger.
   */
  function IsSmbNeeded(t: Team, s: nat): bool
    requires Valid(t) && s < 5
  {
    SpecCodes(s);
    var majorCodes := Codes(MajorOctants(t));
    var spec := SpecsList[s];
    if spec[0] in majorCodes && spec[1] in majorCodes then
      SpecOctantsPair(t, s);
      var sp := SpecOctants(t, s);
      var maxOctant := if sp[0].value > sp[1].value then sp[0] else sp[1];
      !(Abs(sp[0].value - sp[1].value) < maxOctant.value * 0.3)
    else true
  }

  /** In terms of the two sectors of the specialisation. */
  lemma IsSmbNeededSpec(t: Team, s: nat)
    requires Valid(t) && s < 5
    ensures var a := t.portrait[SpecPair(s)].value;
      var b := t.portrait[SpecPair(s) + 1].value;
      var threshold := MaxSector(t) * 0.3;
      var larger := if a > b then a else b;
      IsSmbNeeded(t, s) == !(a >= threshold && b >= threshold && Abs(a - b) < larger * 0.3)
  {
    SpecCodes(s);
    var i := SpecPair(s);
    MajorFromPortrait(t);
    CodesOfSub(t.portrait, MajorOctants(t), i);
    CodesOfSub(t.portrait, MajorOctants(t), i + 1);
    if SpecsList[s][0] in Codes(MajorOctants(t)) && SpecsList[s][1] in Codes(MajorOctants(t)) {
      SpecOctantsPair(t, s);
    }
  }

  /**
   * The candidate test of getCandidates: the intensity fits, and of the
   * candidate's two largest sectors one is major in the team and the other
   * belongs to the specialisation.
   */
  predicate IsCandidate(t: Team, s: nat, item: Member)
    requires Valid(t) && s < 5 && IsMatrix(item.decData.result)
  {
    var profile := Profile(item.decData.result);
    var sorted := SortDesc(Portrait(profile), OctantValue);
    var majorCodes := Codes(MajorOctants(t));
    var spec := SpecsList[s];
    CheckIntensity(t, profile)
    && ((sorted[0].code in majorCodes && sorted[1].code in spec)
        || (sorted[1].code in majorCodes && sorted[0].code in spec))
  }

  function CandidateTest(t: Team, s: nat): Member --> bool
  {
    (item: Member) requires Valid(t) && s < 5 && IsMatrix(item.decData.result) => IsCandidate(t, s, item)
  }

  ghost predicate PoolValid(members: seq<Member>)
  {
    forall x :: x in members ==> IsMatrix(x.decData.result)
  }

  /**
   * getCandidates: null when the specialisation needs nobody or every sector
   * is already major, otherwise the candidates that pass the test.
   */
  function Candidates(t: Team, s: nat, allCandidates: seq<Member>): Option<seq<Member>>
    requires Valid(t) && s < 5 && PoolValid(allCandidates)
  {
    if !IsSmbNeeded(t, s) then None
    else if |MajorOctants(t)| == 8 then None
    else Some(Filter(allCandidates, CandidateTest(t, s)))
  }

  function IntensityMismatch(t: Team): Member --> bool
  {
    (item: Member) requires Valid(t) && IsMatrix(item.decData.result) =>
      !CheckIntensity(t, Profile(item.decData.result))
  }

  /** getUnwanted: the members whose intensity does not fit the team's. */
  function Unwanted(t: Team, members: seq<Member>): seq<Member>
    requires Valid(t) && PoolValid(members)
  {
    Filter(members, IntensityMismatch(t))
  }

  /**
   * There are no candidates exactly when the specialisation needs nobody or
   * every sector is major; otherwise the candidates are, in pool order, the
   * pool members that pass the test, and none of them is unwanted.
   */
  lemma CandidatesSpec(t: Team, s: nat, allCandidates: seq<Member>)
    requires Valid(t) && s < 5 && PoolValid(allCandidates)
    ensures Candidates(t, s, allCandidates).None? <==>
      !IsSmbNeeded(t, s) || forall i :: 0 <= i < 8 ==> t.portrait[i].value >= MaxSector(t) * 0.3
    ensures Candidates(t, s, allCandidates).Some? ==>
      var c := Candidates(t, s, allCandidates).value;
      && IsSubsequence(c, allCandidates)
      && (forall x :: x in c <==> x in allCandidates && IsCandidate(t, s, x))
      && PoolValid(c) && Unwanted(t, c) == []
  {
    AllMajorIff(t);
    if Candidates(t, s, allCandidates).Some? {
      CandidatesFit(t, s, Filter(allCandidates, CandidateTest(t, s)));
    }
  }

  lemma AllMajorIff(t: Team)
    requires Valid(t)
    ensures |MajorOctants(t)| == 8 <==> forall i :: 0 <= i < 8 ==> t.portrait[i].value >= MaxSector(t) * 0.3
  {
    AllAtLeastIff(t.portrait, MaxSector(t) * 0.3);
  }

  lemma AllAtLeastIff(p: seq<Octant>, bound: real)
    requires |p| == 8
    ensures |Filter(p, AtLeast(bound))| == 8 <==> forall i :: 0 <= i < 8 ==> p[i].value >= bound
  {
    var keep := AtLeast(bound);
    FilterAllOrNone(p, keep);
    assert forall i :: 0 <= i < 8 ==> (keep(p[i]) <==> p[i].value >= bound);
  }

  /** Members that pass the candidate test pass the intensity check, so none of them is unwanted. */
  lemma CandidatesFit(t: Team, s: nat, c: seq<Member>)
    requires Valid(t) && s < 5 && PoolValid(c)
    requires forall x :: x in c ==> IsCandidate(t, s, x)
    ensures Unwanted(t, c) == []
  {
  }

  /** The unwanted members are the members that fail the intensity check, and filtering them again changes nothing. */
  lemma UnwantedSpec(t: Team, members: seq<Member>)
    requires Valid(t) && PoolValid(members)
    ensures forall x :: x in Unwanted(t, members) <==>
      x in members && !CheckIntensity(t, Profile(x.decData.result))
    ensures IsSubsequence(Unwanted(t, members), members)
    ensures Unwanted(t, Unwanted(t, members)) == Unwanted(t, members)
  {
    var u := Unwanted(t, members);
    FilterAllOrNone(u, IntensityMismatch(t));
  }

  function BaseIDs(team: seq<Member>): (r: seq<int>)
    ensures |r| == |team| && forall k :: 0 <= k < |team| ==> r[k] == team[k].baseID
  {
    seq(|team|, k requires 0 <= k < |team| => team[k].baseID)
  }

  function NotInTeam(team: seq<Member>): Member -> bool
  {
    (item: Member) => item.baseID !in BaseIDs(team)
  }

  /** getAllCandidates: the pool members whose base id no team member has. */
  function AllCandidates(pool: seq<Member>, team: seq<Member>): seq<Member>
  {
    Filter(pool, NotInTeam(team))
  }

  /**
   * The candidates are the pool members, in pool order, sharing no base id
   * with the team; filtering twice changes nothing, an empty team keeps the
   * whole pool and a team is no candidate for itself.
   */
  lemma AllCandidatesSpec(pool: seq<Member>, team: seq<Member>)
    ensures forall x :: x in AllCandidates(pool, team) <==>
      x in pool && forall y :: y in team ==> y.baseID != x.baseID
    ensures IsSubsequence(AllCandidates(pool, team), pool)
    ensures AllCandidates(AllCandidates(pool, team), team) == AllCandidates(pool, team)
    ensures AllCandidates(pool, []) == pool
    ensures AllCandidates(team, team) == []
  {
    forall x ensures x in AllCandidates(pool, team) <==> x in pool && forall y :: y in team ==> y.baseID != x.baseID {
      if x in pool && x.baseID in BaseIDs(team) {
        var k :| 0 <= k < |team| && BaseIDs(team)[k] == x.baseID;
        assert team[k] in team;
      }
    }
    FilterAllOrNone(AllCandidates(pool, team), NotInTeam(team));
    FilterAllOrNone(pool, NotInTeam([]));
    forall i | 0 <= i < |team| ensures !NotInTeam(team)(team[i]) {
      assert BaseIDs(team)[i] == team[i].baseID;
    }
    FilterAllOrNone(team, NotInTeam(team));
  }
}
