/** Value types shared by the scoring library (shapes of types.d.ts). */
module Types {

  datatype Option<T> = None | Some(value: T)

  /** baseTestResultType: rows of signed category sums; a test result has 5 rows of 5. */
  type Matrix = seq<seq<int>>

  predicate IsMatrix(m: Matrix)
  {
    |m| == 5 && forall i :: 0 <= i < 5 ==> |m[i]| == 5
  }

  /** ITendency: one half-axis of the profile. */
  datatype Tendency = Tendency(index: int, value: real)

  /** IOctant: one sector of the portrait. */
  datatype Octant = Octant(code: string, index: int, value: real)

  /** octantCodeList, exported by UserResult.js. */
  const CodeList: seq<string> := ["A1", "A2", "B1", "B2", "a1", "a2", "b1", "b2"]

  /** DecodedDataType: personal information followed by the 5x5 test result. */
  datatype DecodedData = DecodedData(info: seq<int>, result: Matrix)

  /** IMember: a team member or pool candidate. */
  datatype Member = Member(id: string, name: string, position: string, decData: DecodedData, baseID: int)

  function TendencyValue(t: Tendency): real { t.value }
  function TendencyIndex(t: Tendency): int { t.index }
  function OctantValue(o: Octant): real { o.value }
  function OctantIndex(o: Octant): int { o.index }

  /** A profile as getPersonProfile builds it: 8 tendencies, tendency i at position i, none negative. */
  ghost predicate IsProfile(p: seq<Tendency>)
  {
    |p| == 8 && forall i :: 0 <= i < 8 ==> p[i].index == i && p[i].value >= 0.0
  }

  /** A portrait as getPersonPortrait builds it: octant i carries code CodeList[i] and index i, none negative. */
  ghost predicate IsPortrait(p: seq<Octant>)
  {
    |p| == 8 && forall i :: 0 <= i < 8 ==> p[i].code == CodeList[i] && p[i].index == i && p[i].value >= 0.0
  }

  /** The index of the first occurrence of x in s, or -1 (Array.prototype.indexOf). */
  function IndexOf<T(==)>(s: seq<T>, x: T): (r: int)
    ensures -1 <= r < |s|
    ensures r == -1 <==> x !in s
    ensures r >= 0 ==> s[r] == x && forall k :: 0 <= k < r ==> s[k] != x
  {
    if s == [] then -1
    else if s[0] == x then 0
    else var t := IndexOf(s[1..], x); if t == -1 then -1 else t + 1
  }

  lemma CodeListDistinct()
    ensures forall i, j :: 0 <= i < j < 8 ==> CodeList[i] != CodeList[j]
    ensures forall i :: 0 <= i < 8 ==> IndexOf(CodeList, CodeList[i]) == i
  {
  }
}
