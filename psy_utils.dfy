/**
 * utils.js: the profile (8 tendencies) and the portrait (8 octants) of one test
 * result, and the band look-ups used to pick descriptions.
 */
module PsyUtils {
  import opened Types
  import opened Numeric
  import opened Strings

  // ---------------------------------------------------------------- profile

  /** Sum of the positive cells of a row. */
  function PosSum(row: seq<int>): nat
  {
    if row == [] then 0
    else PosSum(row[..|row| - 1]) + (if row[|row| - 1] > 0 then row[|row| - 1] else 0)
  }

  /** Sum of the magnitudes of the cells that are not positive. */
  function NegSum(row: seq<int>): nat
  {
    if row == [] then 0
    else NegSum(row[..|row| - 1]) + (if row[|row| - 1] > 0 then 0 else -row[|row| - 1])
  }

  /** The positive and negative parts of a row give back its sum. */
  lemma {:induction false} PosNegSplit(row: seq<int>)
    ensures PosSum(row) - NegSum(row) == Sum(row)
  {
    if row != [] {
      PosNegSplit(row[..|row| - 1]);
    }
  }

  /** The forEach over one row that accumulates pos and neg. */
  method SplitRow(row: seq<int>) returns (neg: int, pos: int)
    ensures neg == NegSum(row) && pos == PosSum(row)
  {
    pos, neg := 0, 0;
    for c := 0 to |row|
      invariant pos == PosSum(row[..c]) && neg == NegSum(row[..c])
    {
      assert row[..c + 1][..c] == row[..c];
      if row[c] > 0 {
        pos := pos + row[c];
      } else {
        neg := neg + row[c] * -1;
      }
    }
    assert row[..|row|] == row;
  }

  /**
   * The profile of a test result: rows 1, 4, 0 and 2 are split into their
   * negative and positive parts and remapped onto the 8 tendencies; row 2
   * gives its positive part to tendency 3 and its negative part to tendency 7.
   */
  function Profile(m: Matrix): (p: seq<Tendency>)
    requires |m| >= 5
    ensures IsProfile(p)
  {
    [ Tendency(0, NegSum(m[1]) as real), Tendency(1, NegSum(m[4]) as real),
      Tendency(2, NegSum(m[0]) as real), Tendency(3, PosSum(m[2]) as real),
      Tendency(4, PosSum(m[1]) as real), Tendency(5, PosSum(m[4]) as real),
      Tendency(6, PosSum(m[0]) as real), Tendency(7, NegSum(m[2]) as real) ]
  }

  /** getPersonProfile: the [neg, pos] pair of every row, then the fixed remap. */
  method GetPersonProfile(m: Matrix) returns (p: seq<Tendency>)
    requires |m| >= 5
    ensures p == Profile(m)
  {
    var values: seq<(int, int)> := [];
    for r := 0 to |m|
      invariant |values| == r
      invariant forall q :: 0 <= q < r ==> values[q] == (NegSum(m[q]), PosSum(m[q]))
    {
      var neg, pos := SplitRow(m[r]);
      values := values + [(neg, pos)];
    }
    p := [ Tendency(0, values[1].0 as real), Tendency(1, values[4].0 as real),
           Tendency(2, values[0].0 as real), Tendency(3, values[2].1 as real),
           Tendency(4, values[1].1 as real), Tendency(5, values[4].1 as real),
           Tendency(6, values[0].1 as real), Tendency(7, values[2].0 as real) ];
  }

  /**
   * Each opposite pair of tendencies recovers the sum of its row: positive minus
   * negative part for rows 1, 4 and 0, and the reverse orientation for row 2.
   */
  lemma ProfileRowSums(m: Matrix)
    requires |m| >= 5
    ensures Profile(m)[4].value - Profile(m)[0].value == Sum(m[1]) as real
    ensures Profile(m)[5].value - Profile(m)[1].value == Sum(m[4]) as real
    ensures Profile(m)[6].value - Profile(m)[2].value == Sum(m[0]) as real
    ensures Profile(m)[3].value - Profile(m)[7].value == Sum(m[2]) as real
  {
    PosNegSplit(m[0]);
    PosNegSplit(m[1]);
    PosNegSplit(m[2]);
    PosNegSplit(m[4]);
  }

  /** Row 3 of the matrix never reaches the profile. */
  lemma ProfileIgnoresRow3(m1: Matrix, m2: Matrix)
    requires |m1| >= 5 && |m2| >= 5
    requires m1[0] == m2[0] && m1[1] == m2[1] && m1[2] == m2[2] && m1[4] == m2[4]
    ensures Profile(m1) == Profile(m2)
  {
  }

  // --------------------------------------------------------------- portrait

  /** sin 45 degrees, as the source writes it. */
  const Sin45: real := 0.7071

  /** Area of the triangle spanned by two axes 45 degrees apart. */
  function Area(a: real, b: real): real
  {
    a * b * Sin45 / 2.0
  }

  /** Octant j lies between axes (4 - j) mod 8 and (3 - j) mod 8. */
  function OctantArea(v: seq<real>, j: nat): real
    requires |v| == 8 && j < 8
  {
    Area(v[(12 - j) % 8], v[(11 - j) % 8])
  }

  function AxisValues(profile: seq<Tendency>): (v: seq<real>)
    ensures |v| == |profile|
  {
    seq(|profile|, i requires 0 <= i < |profile| => profile[i].value)
  }

  /** The portrait in closed form: octant j is the rounded area between its two axes. */
  function Portrait(profile: seq<Tendency>): (p: seq<Octant>)
    requires |profile| == 8
    ensures |p| == 8
  {
    var v := AxisValues(profile);
    seq(8, j requires 0 <= j < 8 => Octant(CodeList[j], j, Round(OctantArea(v, j), 2)))
  }

  /**
   * getPersonPortrait: the axis values are reversed, the areas of neighbouring
   * reversed axes are pushed, the wrap-around area is unshifted in front, the
   * result is rotated by four and rounded to two decimals.
   */
  method GetPersonPortrait(profile: seq<Tendency>) returns (portrait: seq<Octant>)
    requires |profile| == 8
    ensures portrait == Portrait(profile)
  {
    var axisValues := AxisValues(profile);
    var reversed := seq(8, i requires 0 <= i < 8 => axisValues[7 - i]);
    var octantsValues: seq<real> := [];
    var i := 0;
    while i < |reversed|
      invariant 0 <= i <= 7
      invariant |octantsValues| == i
      invariant forall k :: 0 <= k < i ==> octantsValues[k] == Area(reversed[k], reversed[k + 1])
    {
      if i == |axisValues| - 1 {
        octantsValues := [Area(reversed[i], reversed[0])] + octantsValues;
        break;
      }
      octantsValues := octantsValues + [Area(reversed[i], reversed[i + 1])];
      i := i + 1;
    }
    assert |octantsValues| == 8 && octantsValues[0] == Area(reversed[7], reversed[0]);
    assert forall k :: 1 <= k < 8 ==> octantsValues[k] == Area(reversed[k - 1], reversed[k]);
    var swappedValues := octantsValues[4..] + octantsValues[..4];
    portrait := seq(8, j requires 0 <= j < 8 => Octant(CodeList[j], j, Round(swappedValues[j], 2)));
    AreaCommutes();
    assert octantsValues[4] == Area(reversed[3], reversed[4]);
    assert octantsValues[5] == Area(reversed[4], reversed[5]);
    assert octantsValues[6] == Area(reversed[5], reversed[6]);
    assert swappedValues[0] == OctantArea(axisValues, 0);
    assert swappedValues[1] == OctantArea(axisValues, 1);
    assert swappedValues[2] == OctantArea(axisValues, 2);
    assert swappedValues[3] == OctantArea(axisValues, 3);
    assert swappedValues[4] == OctantArea(axisValues, 4);
    assert swappedValues[5] == OctantArea(axisValues, 5);
    assert swappedValues[6] == OctantArea(axisValues, 6);
    assert swappedValues[7] == OctantArea(axisValues, 7);
  }

  lemma AreaCommutes()
    ensures forall a, b :: Area(a, b) == Area(b, a)
  {
  }

  lemma AreaNonNeg(a: real, b: real)
    requires a >= 0.0 && b >= 0.0
    ensures Area(a, b) >= 0.0
  {
    assert a * b >= 0.0;
  }

  /** A non-negative profile gives a well-formed portrait: code and index by position, no negative octant. */
  lemma PortraitWellFormed(profile: seq<Tendency>)
    requires IsProfile(profile)
    ensures IsPortrait(Portrait(profile))
  {
    var v := AxisValues(profile);
    forall j | 0 <= j < 8 ensures Portrait(profile)[j].value >= 0.0 {
      AreaNonNeg(v[(12 - j) % 8], v[(11 - j) % 8]);
      RoundProperties(OctantArea(v, j), 2);
    }
  }

  /** A zero axis zeroes both octants it bounds. */
  lemma PortraitZeroAxis(profile: seq<Tendency>, a: nat)
    requires |profile| == 8 && a < 8 && profile[a].value == 0.0
    ensures Portrait(profile)[(12 - a) % 8].value == 0.0
    ensures Portrait(profile)[(11 - a) % 8].value == 0.0
  {
    var v := AxisValues(profile);
    assert v[a] == 0.0;
    RoundZeroIff(0.0, 2);
    assert OctantArea(v, (12 - a) % 8) == 0.0;
    assert OctantArea(v, (11 - a) % 8) == 0.0;
  }

  lemma ProductAtLeastOne(a: real, b: real)
    requires a >= 1.0 && b >= 1.0
    ensures a * b >= 1.0
  {
    assert a * b >= 1.0 * b;
  }

  /** Two positive whole axis values span an area that survives rounding to two decimals. */
  lemma AreaRoundZeroIff(x: nat, y: nat)
    ensures (Round(Area(x as real, y as real), 2) == 0.0) == (x == 0 || y == 0)
  {
    var a, b := x as real, y as real;
    AreaNonNeg(a, b);
    RoundZeroIff(Area(a, b), 2);
    assert Pow10(2) == 100.0 by {
      assert Pow10(0) == 1.0;
      assert Pow10(1) == 10.0;
    }
    if x != 0 && y != 0 {
      ProductAtLeastOne(a, b);
      assert Area(a, b) * 100.0 >= 0.5;
    } else {
      assert a * b == 0.0;
    }
  }

  /**
   * For the profile of a test result (whole, non-negative values) an octant is
   * zero exactly when one of its two axes is zero.
   */
  lemma PortraitZeroIff(m: Matrix, j: nat)
    requires |m| >= 5 && j < 8
    ensures (Portrait(Profile(m))[j].value == 0.0) ==
      (Profile(m)[(12 - j) % 8].value == 0.0 || Profile(m)[(11 - j) % 8].value == 0.0)
  {
    var p := Profile(m);
    var x := ProfileWhole(m, (12 - j) % 8);
    var y := ProfileWhole(m, (11 - j) % 8);
    AreaRoundZeroIff(x, y);
    assert Portrait(p)[j].value == Round(Area(x as real, y as real), 2);
  }

  /** Every profile value is a whole number. */
  lemma ProfileWhole(m: Matrix, i: nat) returns (n: nat)
    requires |m| >= 5 && i < 8
    ensures Profile(m)[i].value == n as real
  {
    var r := [NegSum(m[1]), NegSum(m[4]), NegSum(m[0]), PosSum(m[2]),
              PosSum(m[1]), PosSum(m[4]), PosSum(m[0]), NegSum(m[2])];
    n := r[i];
  }

  // ---------------------------------------------------------- band look-ups

  /** IDescWithRange: a description valid for values in (range[0], range[1]]. */
  datatype DescOption = DescOption(desc: string, lo: real, hi: real)

  datatype DescList = DescList(title: string, options: seq<DescOption>)

  datatype DescWithStatus = DescWithStatus(title: string, desc: string, status: int)

  predicate InBand(value: real, o: DescOption)
  {
    value > o.lo && value <= o.hi
  }

  /** The first option whose band holds the value, or -1. */
  function FirstInBand(value: real, options: seq<DescOption>): (r: int)
    ensures -1 <= r < |options|
    ensures r >= 0 ==> InBand(value, options[r]) && forall k :: 0 <= k < r ==> !InBand(value, options[k])
    ensures r == -1 <==> forall k :: 0 <= k < |options| ==> !InBand(value, options[k])
  {
    if options == [] then -1
    else if InBand(value, options[0]) then 0
    else
      var t := FirstInBand(value, options[1..]);
      assert forall k :: 1 <= k < |options| ==> options[k] == options[1..][k - 1];
      if t == -1 then -1 else t + 1
  }

  /** getIndexByRange: a loop that returns at the first matching band. */
  method GetIndexByRange(value: real, descList: seq<DescOption>) returns (r: int)
    ensures -1 <= r < |descList|
    ensures r >= 0 ==> InBand(value, descList[r]) && forall k :: 0 <= k < r ==> !InBand(value, descList[k])
    ensures r == -1 <==> forall k :: 0 <= k < |descList| ==> !InBand(value, descList[k])
  {
    for i := 0 to |descList|
      invariant forall k :: 0 <= k < i ==> !InBand(value, descList[k])
    {
      if value > descList[i].lo && value <= descList[i].hi {
        return i;
      }
    }
    return -1;
  }

  /**
   * getDescByRange: the description of the first matching band (empty when none
   * matches); the status is 0 when that band is the first option and 1 otherwise,
   * the status 2 branch can never be taken.
   */
  method GetDescByRange(value: real, descList: DescList) returns (res: DescWithStatus)
    ensures res.title == descList.title
    ensures res.status == 0 <==> |descList.options| > 0 && InBand(value, descList.options[0])
    ensures res.status == 0 || res.status == 1
    ensures res.desc == (var f := FirstInBand(value, descList.options); if f >= 0 then descList.options[f].desc else "")
  {
    var desc := "";
    var index: Option<int> := None;
    for i := 0 to |descList.options|
      invariant index == None && desc == ""
      invariant forall k :: 0 <= k < i ==> !InBand(value, descList.options[k])
    {
      if value > descList.options[i].lo && value <= descList.options[i].hi {
        desc := descList.options[i].desc;
        index := Some(i);
        break;
      }
    }
    var status := if index == Some(0) then 0 else if index == Some(|descList.options|) then 2 else 1;
    res := DescWithStatus(descList.title, desc, status);
  }

  /** The default break-points of getKeyResult: 20%, 50%, 80%. */
  const DefaultKeyRange: seq<real> := [0.2, 0.5, 0.8]

  /** Which of the four results getKeyResult picks. */
  function KeyTier(value: real, range: seq<real>): nat
    requires |range| >= 3
  {
    if value < range[0] then 0
    else if value >= range[0] && value < range[1] then 1
    else if value >= range[1] && value < range[2] then 2
    else 3
  }

  function GetKeyResult(value: real, results: seq<string>, range: seq<real>): string
    requires |range| >= 3 && |results| >= 4
  {
    results[KeyTier(value, range)]
  }

  /**
   * With ordered break-points r0 <= r1 <= r2 the four results cover the half-open
   * bands (-inf, r0), [r0, r1), [r1, r2), [r2, +inf), and a larger value never
   * selects an earlier result.
   */
  lemma KeyTierBands(value: real, other: real, range: seq<real>)
    requires |range| >= 3 && range[0] <= range[1] <= range[2]
    ensures KeyTier(value, range) == 0 <==> value < range[0]
    ensures KeyTier(value, range) == 1 <==> range[0] <= value < range[1]
    ensures KeyTier(value, range) == 2 <==> range[1] <= value < range[2]
    ensures KeyTier(value, range) == 3 <==> range[2] <= value
    ensures value <= other ==> KeyTier(value, range) <= KeyTier(other, range)
  {
  }

  /** IFamous */
  datatype Famous = Famous(person: string, picture: string)

  /** The default break-points of getFamous. */
  const DefaultFamousRange: seq<real> := [0.0, 42.35, 140.0, 1000.0]

  /** The tier getFamous picks, or None for a value outside [range[0], range[3]]. */
  function FamousTier(value: real, range: seq<real>): Option<nat>
    requires |range| >= 4
  {
    if value < range[0] || value > range[3] then None
    else if value >= range[0] && value < range[1] then Some(0)
    else if value >= range[1] && value < range[2] then Some(1)
    else Some(2)
  }

  /** famousList[index][tier][sex] exists for every tier the value can select. */
  ghost predicate FamousListCovers(famousList: seq<seq<seq<string>>>, index: int, sex: nat)
  {
    0 <= index < |famousList| && |famousList[index]| >= 3
    && forall t :: 0 <= t < 3 ==> sex < |famousList[index][t]|
  }

  function Picture(index: nat, tier: nat, sex: nat): string
  {
    NatToString(index) + "_" + NatToString(tier) + "_" + NatToString(sex)
  }

  function GetFamous(octant: Octant, famousList: seq<seq<seq<string>>>, sex: nat, range: seq<real>): (r: Option<Famous>)
    requires |range| >= 4
    requires FamousTier(octant.value, range).Some? ==> FamousListCovers(famousList, octant.index, sex)
  {
    match FamousTier(octant.value, range)
    case None => None
    case Some(tier) =>
      Some(Famous(famousList[octant.index][tier][sex], Picture(octant.index, tier, sex)))
  }

  /**
   * getFamous answers null exactly outside [range[0], range[3]]; otherwise, for
   * ordered break-points, the tier is 0 on [r0, r1), 1 on [r1, r2) and 2 on
   * [r2, r3], and the picture is "<index>_<tier>_<sex>".
   */
  lemma GetFamousBands(octant: Octant, famousList: seq<seq<seq<string>>>, sex: nat, range: seq<real>)
    requires |range| >= 4 && range[0] <= range[1] <= range[2] <= range[3]
    requires FamousListCovers(famousList, octant.index, sex)
    ensures GetFamous(octant, famousList, sex, range).None? <==> octant.value < range[0] || octant.value > range[3]
    ensures range[0] <= octant.value < range[1] ==>
      GetFamous(octant, famousList, sex, range) == Some(Famous(famousList[octant.index][0][sex], Picture(octant.index, 0, sex)))
    ensures range[1] <= octant.value < range[2] ==>
      GetFamous(octant, famousList, sex, range) == Some(Famous(famousList[octant.index][1][sex], Picture(octant.index, 1, sex)))
    ensures range[2] <= octant.value <= range[3] ==>
      GetFamous(octant, famousList, sex, range) == Some(Famous(famousList[octant.index][2][sex], Picture(octant.index, 2, sex)))
  {
  }

  /** The picture name determines the octant index, the tier and the sex. */
  lemma PictureInjective(i1: nat, t1: nat, s1: nat, i2: nat, t2: nat, s2: nat)
    requires Picture(i1, t1, s1) == Picture(i2, t2, s2)
    ensures i1 == i2 && t1 == t2 && s1 == s2
  {
    var a1, b1, c1 := NatToString(i1), NatToString(t1), NatToString(s1);
    var a2, b2, c2 := NatToString(i2), NatToString(t2), NatToString(s2);
    assert a1 + "_" + b1 + "_" + c1 == a1 + "_" + (b1 + "_" + c1);
    assert a2 + "_" + b2 + "_" + c2 == a2 + "_" + (b2 + "_" + c2);
    SplitAtUnderscore(a1, b1 + "_" + c1, a2, b2 + "_" + c2);
    SplitAtUnderscore(b1, c1, b2, c2);
    NatToStringRoundTrip(i1);
    NatToStringRoundTrip(i2);
    NatToStringRoundTrip(t1);
    NatToStringRoundTrip(t2);
    NatToStringRoundTrip(s1);
    NatToStringRoundTrip(s2);
  }

  /** A run of digits followed by "_" is recovered from the joined string. */
  lemma SplitAtUnderscore(d1: string, r1: string, d2: string, r2: string)
    requires forall i :: 0 <= i < |d1| ==> IsDigit(d1[i])
    requires forall i :: 0 <= i < |d2| ==> IsDigit(d2[i])
    requires d1 + "_" + r1 == d2 + "_" + r2
    ensures d1 == d2 && r1 == r2
  {
    var s := d1 + "_" + r1;
    assert |d1| == |d2| by {
      UnderscoreAfterDigits(d1, r1);
      UnderscoreAfterDigits(d2, r2);
    }
    assert d1 == s[..|d1|] && d2 == s[..|d2|];
    assert r1 == s[|d1| + 1..] && r2 == (d2 + "_" + r2)[|d2| + 1..];
  }

  lemma UnderscoreAfterDigits(d: string, r: string)
    requires forall i :: 0 <= i < |d| ==> IsDigit(d[i])
    ensures (d + "_" + r)[|d|] == '_'
    ensures forall i :: 0 <= i < |d| ==> (d + "_" + r)[i] != '_'
  {
  }
}
