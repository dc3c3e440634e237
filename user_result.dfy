/**
 * UserResult.js: everything the library derives from one person's test result,
 * bundled in one frozen record.
 */
module UserResults {
  import opened Types
  import opened StableSort
  import opened PsyUtils

  /** The default relative (octants) and absolute (tendencies) margin. */
  const DefaultDiff: real := 0.2

  datatype UserResult = UserResult(
    profile: seq<Tendency>,
    portrait: seq<Octant>,
    sortedOctants: seq<Octant>,
    mainOctant: Octant,
    mainPsychoTypeList: seq<int>,
    mainTendencyList: seq<int>)

  /** The leading octant, and the runner-up when it trails by less than diff of the leader's value. */
  function MainPsychoType(sortedOctants: seq<Octant>, diff: real): seq<int>
    requires |sortedOctants| >= 2
  {
    if sortedOctants[0].value - sortedOctants[1].value < diff * sortedOctants[0].value
    then [sortedOctants[0].index, sortedOctants[1].index]
    else [sortedOctants[0].index]
  }

  /** The leading tendency, and the runner-up when it trails by less than diff in absolute terms. */
  function MainTendency(profile: seq<Tendency>, diff: real): seq<int>
    requires |profile| >= 2
  {
    var sortedProfile := SortDesc(profile, TendencyValue);
    if sortedProfile[0].value - sortedProfile[1].value < diff
    then [sortedProfile[0].index, sortedProfile[1].index]
    else [sortedProfile[0].index]
  }

  /** UserResult(testResult, diff). */
  function MakeUserResult(testResult: Matrix, diff: real): UserResult
    requires |testResult| >= 5
  {
    var profile := Profile(testResult);
    var portrait := Portrait(profile);
    var sortedOctants := SortDesc(portrait, OctantValue);
    UserResult(profile, portrait, sortedOctants, sortedOctants[0],
      MainPsychoType(sortedOctants, diff), MainTendency(profile, diff))
  }

  /**
   * The record is well formed: a profile and a portrait of 8 entries each, and
   * sortedOctants is the portrait reordered, non-increasing by value, ties kept
   * in index order.
   */
  lemma UserResultWellFormed(testResult: Matrix, diff: real)
    requires |testResult| >= 5
    ensures var u := MakeUserResult(testResult, diff);
      IsProfile(u.profile) && IsPortrait(u.portrait)
      && multiset(u.sortedOctants) == multiset(u.portrait)
      && SortedStable(u.sortedOctants, OctantValue, OctantIndex)
  {
    var u := MakeUserResult(testResult, diff);
    PortraitWellFormed(u.profile);
    SortDescCorrect(u.portrait, OctantValue, OctantIndex);
  }

  /**
   * mainOctant is the octant of largest value, the first such one when several
   * share it.
   */
  lemma MainOctantIsFirstMax(testResult: Matrix, diff: real)
    requires |testResult| >= 5
    ensures var u := MakeUserResult(testResult, diff);
      0 <= u.mainOctant.index < 8 && u.portrait[u.mainOctant.index] == u.mainOctant
      && (forall i :: 0 <= i < 8 ==> u.portrait[i].value <= u.mainOctant.value)
      && (forall i :: 0 <= i < u.mainOctant.index ==> u.portrait[i].value < u.mainOctant.value)
  {
    var u := MakeUserResult(testResult, diff);
    PortraitWellFormed(u.profile);
    RankMember(u.portrait, OctantValue, OctantIndex, 0);
    forall i | 0 <= i < 8
      ensures u.portrait[i].value < u.mainOctant.value
        || (u.portrait[i].value == u.mainOctant.value && u.mainOctant.index <= i)
    {
      RankDominates(u.portrait, OctantValue, OctantIndex, 0, i);
    }
  }

  /** The portrait of a test result is indexed by position, as the lemma below needs. */
  lemma PortraitPositional(profile: seq<Tendency>)
    requires |profile| == 8
    ensures Positional(Portrait(profile), OctantIndex)
  {
  }

  /**
   * mainPsychoTypeList, for any portrait indexed by position (the portrait of a
   * test result is one): it starts with the leading octant; it holds a second,
   * different octant exactly when the runner-up trails the leader by less than
   * diff of the leader's value, and that octant is the largest of the other seven.
   */
  lemma MainPsychoTypeSpec(p: seq<Octant>, diff: real)
    requires |p| == 8 && Positional(p, OctantIndex)
    ensures var s := SortDesc(p, OctantValue);
      var l := MainPsychoType(s, diff);
      (|l| == 1 || |l| == 2) && l[0] == s[0].index
      && ((|l| == 2) == (s[0].value - s[1].value < diff * s[0].value))
      && (|l| == 2 ==>
            0 <= l[1] < 8 && l[1] != l[0] && p[l[1]] == s[1]
            && forall i :: 0 <= i < 8 && i != l[0] ==> p[i].value <= p[l[1]].value)
  {
    var s := SortDesc(p, OctantValue);
    RankMember(p, OctantValue, OctantIndex, 1);
    RanksDistinct(p, OctantValue, OctantIndex, 0, 1);
    forall i | 0 <= i < 8 && i != s[0].index
      ensures p[i].value <= s[1].value
    {
      RankDominates(p, OctantValue, OctantIndex, 1, i);
    }
  }

  /**
   * With an empty portrait (leader 0) or a margin of at most 0, the list holds
   * the leading octant alone.
   */
  lemma MainPsychoTypeSingle(testResult: Matrix, diff: real)
    requires |testResult| >= 5
    requires MakeUserResult(testResult, diff).mainOctant.value == 0.0 || diff <= 0.0
    ensures MakeUserResult(testResult, diff).mainPsychoTypeList == [MakeUserResult(testResult, diff).mainOctant.index]
  {
    var u := MakeUserResult(testResult, diff);
    PortraitWellFormed(u.profile);
    RunnerUpBelowLeader(u.portrait);
    SingleWithoutMargin(u.sortedOctants, diff);
  }

  /** In a sorted portrait the runner-up is not negative and not above the leader. */
  lemma RunnerUpBelowLeader(p: seq<Octant>)
    requires IsPortrait(p)
    ensures var s := SortDesc(p, OctantValue);
      |s| == 8 && 0.0 <= s[1].value <= s[0].value
  {
    var s := SortDesc(p, OctantValue);
    assert Positional(p, OctantIndex);
    SortDescCorrect(p, OctantValue, OctantIndex);
    RankMember(p, OctantValue, OctantIndex, 1);
    RankDominates(p, OctantValue, OctantIndex, 0, s[1].index);
  }

  lemma SingleWithoutMargin(s: seq<Octant>, diff: real)
    requires |s| >= 2 && 0.0 <= s[1].value <= s[0].value
    requires s[0].value == 0.0 || diff <= 0.0
    ensures MainPsychoType(s, diff) == [s[0].index]
  {
    if diff <= 0.0 {
      assert diff * s[0].value <= 0.0;
    }
  }

  /**
   * mainTendencyList starts with the tendency of largest value (the first such
   * one); it holds a second, different tendency exactly when the runner-up
   * trails by less than diff, and that tendency is the largest of the other seven.
   */
  lemma MainTendencyListSpec(testResult: Matrix, diff: real)
    requires |testResult| >= 5
    ensures var u := MakeUserResult(testResult, diff);
      var sp := SortDesc(u.profile, TendencyValue);
      var l := u.mainTendencyList;
      var top := l[0];
      (|l| == 1 || |l| == 2) && 0 <= top < 8
      && (forall i :: 0 <= i < 8 ==> u.profile[i].value <= u.profile[top].value)
      && (forall i :: 0 <= i < top ==> u.profile[i].value < u.profile[top].value)
      && ((|l| == 2) == (u.profile[top].value - sp[1].value < diff))
      && (|l| == 2 ==>
            0 <= l[1] < 8 && l[1] != top && u.profile[l[1]] == sp[1]
            && forall i :: 0 <= i < 8 && i != top ==> u.profile[i].value <= u.profile[l[1]].value)
  {
    var u := MakeUserResult(testResult, diff);
    var sp := SortDesc(u.profile, TendencyValue);
    RankMember(u.profile, TendencyValue, TendencyIndex, 0);
    RankMember(u.profile, TendencyValue, TendencyIndex, 1);
    RanksDistinct(u.profile, TendencyValue, TendencyIndex, 0, 1);
    forall i | 0 <= i < 8
      ensures u.profile[i].value < sp[0].value
        || (u.profile[i].value == sp[0].value && sp[0].index <= i)
    {
      RankDominates(u.profile, TendencyValue, TendencyIndex, 0, i);
    }
    forall i | 0 <= i < 8 && i != sp[0].index
      ensures u.profile[i].value <= sp[1].value
    {
      RankDominates(u.profile, TendencyValue, TendencyIndex, 1, i);
    }
  }

  /**
   * The sorted octants do not depend on how the sort is carried out: any
   * reordering of the portrait that is non-increasing by value and keeps ties in
   * index order is sortedOctants.
   */
  lemma SortedOctantsUnique(testResult: Matrix, diff: real, other: seq<Octant>)
    requires |testResult| >= 5
    requires multiset(other) == multiset(MakeUserResult(testResult, diff).portrait)
    requires SortedStable(other, OctantValue, OctantIndex)
    ensures other == MakeUserResult(testResult, diff).sortedOctants
  {
    var u := MakeUserResult(testResult, diff);
    UserResultWellFormed(testResult, diff);
    SortedStableUnique(other, u.sortedOctants, OctantValue, OctantIndex);
  }

  /**
   * What the pair and team computations rely on: the shapes of profile and
   * portrait, mainOctant an octant of largest value, and mainTendencyList led by
   * a tendency of largest value.
   */
  ghost predicate Consistent(u: UserResult)
  {
    IsProfile(u.profile) && IsPortrait(u.portrait)
    && 0 <= u.mainOctant.index < 8 && u.portrait[u.mainOctant.index] == u.mainOctant
    && |u.sortedOctants| == 8 && u.sortedOctants[0] == u.mainOctant
    && (forall i :: 0 <= i < 8 ==> u.portrait[i].value <= u.mainOctant.value)
    && |u.mainTendencyList| >= 1 && 0 <= u.mainTendencyList[0] < 8
    && (forall i :: 0 <= i < 8 ==> u.profile[i].value <= u.profile[u.mainTendencyList[0]].value)
  }

  lemma MakeUserResultConsistent(testResult: Matrix, diff: real)
    requires |testResult| >= 5
    ensures Consistent(MakeUserResult(testResult, diff))
  {
    UserResultWellFormed(testResult, diff);
    MainOctantIsFirstMax(testResult, diff);
    MainTendencyListSpec(testResult, diff);
  }
}
