/**
 * Pair.js: compatibility figures for two people, computed from their two
 * UserResult records (built with the default margin).
 */
module Pairs {
  import opened Types
  import opened Seqs
  import opened Numeric
  import opened UserResults

  datatype Pair = Pair(partner1: UserResult, partner2: UserResult)

  ghost predicate WellFormed(p: Pair)
  {
    Consistent(p.partner1) && Consistent(p.partner2)
  }

  /** Pair([data1, data2]). */
  function MakePair(data1: Matrix, data2: Matrix): (p: Pair)
    requires |data1| >= 5 && |data2| >= 5
    ensures WellFormed(p)
    ensures p.partner1 == MakeUserResult(data1, DefaultDiff) && p.partner2 == MakeUserResult(data2, DefaultDiff)
  {
    MakeUserResultConsistent(data1, DefaultDiff);
    MakeUserResultConsistent(data2, DefaultDiff);
    Pair(MakeUserResult(data1, DefaultDiff), MakeUserResult(data2, DefaultDiff))
  }

  /** The same two people in the other order. */
  function Swap(p: Pair): Pair
  {
    Pair(p.partner2, p.partner1)
  }

  /** The octants of the left hemisphere (the first four codes) and of the right one. */
  const LeftHemisphere: seq<string> := CodeList[..4]
  const RightHemisphere: seq<string> := CodeList[4..]

  function Min(a: real, b: real): real { if a <= b then a else b }
  function Max(a: real, b: real): real { if a <= b then b else a }

  /** Ratio of the smaller value to the larger one, the way the source writes it. */
  function Ratio(a: real, b: real): real
    requires a >= 0.0 && b >= 0.0 && (a != 0.0 || b != 0.0)
  {
    if a < b then a / b else b / a
  }

  lemma RatioIsMinOverMax(a: real, b: real)
    requires a >= 0.0 && b >= 0.0 && (a != 0.0 || b != 0.0)
    ensures Ratio(a, b) == Min(a, b) / Max(a, b)
    ensures 0.0 <= Ratio(a, b) <= 1.0
    ensures (Ratio(a, b) == 1.0) == (a == b)
    ensures Ratio(a, b) == Ratio(b, a)
  {
    FractionBounds(Min(a, b), Max(a, b));
  }

  lemma FractionBounds(x: real, y: real)
    requires 0.0 <= x <= y && y > 0.0
    ensures 0.0 <= x / y <= 1.0
    ensures (x / y == 1.0) == (x == y)
  {
    DivMono(x, y, y);
    assert y / y == 1.0;
    if x != y {
      DivMono(x, y, y);
      assert x / y != y / y;
    }
  }

  // ------------------------------------------------------ partner acceptance

  /** The value of a person's leading tendency. */
  function MaxTendencyValue(u: UserResult): real
    requires Consistent(u)
  {
    u.profile[u.mainTendencyList[0]].value
  }

  /** getPartnerAcceptance: 0 when either leading tendency is empty, else smaller over larger. */
  function PartnerAcceptance(p: Pair): real
    requires WellFormed(p)
  {
    var maxVal1 := MaxTendencyValue(p.partner1);
    var maxVal2 := MaxTendencyValue(p.partner2);
    if maxVal1 == 0.0 || maxVal2 == 0.0 then 0.0
    else if maxVal1 < maxVal2 then maxVal1 / maxVal2 else maxVal2 / maxVal1
  }

  /**
   * Acceptance is the ratio of the two leading tendency values, smaller over
   * larger (0 when either is 0), so it lies in [0, 1], equals 1 exactly for two
   * equal non-zero values, and does not depend on the order of the partners.
   */
  lemma PartnerAcceptanceSpec(p: Pair)
    requires WellFormed(p)
    ensures var a, b := MaxTendencyValue(p.partner1), MaxTendencyValue(p.partner2);
      (if a == 0.0 || b == 0.0 then PartnerAcceptance(p) == 0.0
       else PartnerAcceptance(p) == Min(a, b) / Max(a, b))
      && 0.0 <= PartnerAcceptance(p) <= 1.0
      && ((PartnerAcceptance(p) == 1.0) == (a == b && a != 0.0))
      && (PartnerAcceptance(p) > 0.0 <==> a != 0.0 && b != 0.0)
    ensures PartnerAcceptance(Swap(p)) == PartnerAcceptance(p)
  {
    var a, b := MaxTendencyValue(p.partner1), MaxTendencyValue(p.partner2);
    assert a >= 0.0 && b >= 0.0;
    if a != 0.0 && b != 0.0 {
      RatioIsMinOverMax(a, b);
      assert PartnerAcceptance(p) == Ratio(a, b);
    }
  }

  // ----------------------------------------------------------- understanding

  const Fraction: real := 0.125

  /** One octant is empty for one partner and not for the other. */
  predicate Mismatch(x: Octant, y: Octant)
  {
    (x.value == 0.0 && y.value != 0.0) || (x.value != 0.0 && y.value == 0.0)
  }

  /** Number of positions where exactly one of the two portraits is empty. */
  function Mismatches(a: seq<Octant>, b: seq<Octant>): nat
    requires |a| <= |b|
  {
    if a == [] then 0
    else (if Mismatch(a[0], b[0]) then 1 else 0) + Mismatches(a[1..], b[1..])
  }

  /** getUnderstanding: start at 1 and take off an eighth for every mismatching octant. */
  method GetUnderstanding(p: Pair) returns (result: real)
    requires WellFormed(p)
    ensures result == 1.0 - Fraction * Mismatches(p.partner1.portrait, p.partner2.portrait) as real
  {
    var portrait1, portrait2 := p.partner1.portrait, p.partner2.portrait;
    result := 1.0;
    for i := 0 to |portrait1|
      invariant result == 1.0 - Fraction * (Mismatches(portrait1, portrait2) - Mismatches(portrait1[i..], portrait2[i..])) as real
    {
      assert portrait1[i..][1..] == portrait1[i + 1..] && portrait2[i..][1..] == portrait2[i + 1..];
      if (portrait1[i].value == 0.0 && portrait2[i].value != 0.0)
        || (portrait1[i].value != 0.0 && portrait2[i].value == 0.0)
      {
        result := result - Fraction;
      }
    }
  }

  lemma {:induction false} MismatchesSymmetric(a: seq<Octant>, b: seq<Octant>)
    requires |a| == |b|
    ensures Mismatches(a, b) == Mismatches(b, a)
    ensures Mismatches(a, b) <= |a|
    ensures (Mismatches(a, b) == 0) == (forall i :: 0 <= i < |a| ==> (a[i].value == 0.0) == (b[i].value == 0.0))
  {
    if a != [] {
      MismatchesSymmetric(a[1..], b[1..]);
      assert forall i :: 1 <= i < |a| ==> a[1..][i - 1] == a[i] && b[1..][i - 1] == b[i];
    }
  }

  /**
   * Understanding is symmetric, lies in [0, 1], and is 1 exactly when the two
   * portraits have their empty octants in the same places.
   */
  lemma UnderstandingSpec(p: Pair)
    requires WellFormed(p)
    ensures var u := 1.0 - Fraction * Mismatches(p.partner1.portrait, p.partner2.portrait) as real;
      u == 1.0 - Fraction * Mismatches(p.partner2.portrait, p.partner1.portrait) as real
      && 0.0 <= u <= 1.0
      && ((u == 1.0) == (forall i :: 0 <= i < 8 ==>
            (p.partner1.portrait[i].value == 0.0) == (p.partner2.portrait[i].value == 0.0)))
  {
    MismatchesSymmetric(p.partner1.portrait, p.partner2.portrait);
  }

  // -------------------------------------------------------------- attraction

  /** getOppositeSegmentIndex: the octant across the circle, four places on. */
  function OppositeSegmentIndex(code: string): (r: int)
    ensures 0 <= r < 8
  {
    var commonIndex := IndexOf(CodeList, code);
    if commonIndex < 4 then commonIndex + 4 else commonIndex - 4
  }

  /**
   * For a known code the opposite octant is four places on around the circle,
   * and the octant opposite to that one is the code itself; a code outside the
   * list is treated as index -1 and answers 3.
   */
  lemma OppositeSegmentSpec(i: nat, code: string)
    requires i < 8
    ensures OppositeSegmentIndex(CodeList[i]) == (i + 4) % 8
    ensures OppositeSegmentIndex(CodeList[(i + 4) % 8]) == i
    ensures code !in CodeList ==> OppositeSegmentIndex(code) == 3
  {
    OppositeOfCode(i);
    var o := (i + 4) % 8;
    OppositeOfCode(o);
    FourTwice(i, o);
    OppositeOfUnknown(code);
  }

  lemma OppositeOfCode(i: nat)
    requires i < 8
    ensures OppositeSegmentIndex(CodeList[i]) == (i + 4) % 8
  {
    CodeListDistinct();
    FourOn(i, IndexOf(CodeList, CodeList[i]));
  }

  lemma OppositeOfUnknown(code: string)
    ensures code !in CodeList ==> OppositeSegmentIndex(code) == 3
  {
  }

  lemma FourOn(i: nat, k: int)
    requires i < 8 && k == i
    ensures (if k < 4 then k + 4 else k - 4) == (i + 4) % 8
  {
  }

  lemma FourTwice(i: nat, o: nat)
    requires i < 8 && o == (i + 4) % 8
    ensures (o + 4) % 8 == i
  {
  }

  /**
   * The guarded ratios of getAttraction on the four values it reads: the
   * partner's opposite octant and the own leading octant, for each partner.
   */
  function AttractionOf(opp1: real, lead1: real, opp2: real, lead2: real): (real, real)
    requires opp1 >= 0.0 && lead1 >= 0.0 && opp2 >= 0.0 && lead2 >= 0.0
  {
    if (opp1 == 0.0 && lead1 == 0.0) || (opp2 == 0.0 && lead2 == 0.0) then (0.0, 0.0)
    else (Ratio(opp1, lead1), Ratio(opp2, lead2))
  }

  /** getAttraction: for each partner, how the other's opposite octant compares with the own leading one. */
  function Attraction(p: Pair): (real, real)
    requires WellFormed(p)
  {
    var lead1, lead2 := p.partner1.mainOctant, p.partner2.mainOctant;
    var opp1 := p.partner2.portrait[OppositeSegmentIndex(lead1.code)];
    var opp2 := p.partner1.portrait[OppositeSegmentIndex(lead2.code)];
    AttractionOf(opp1.value, lead1.value, opp2.value, lead2.value)
  }

  /**
   * Both figures are 0 when either comparison has nothing on both sides;
   * otherwise each is the smaller value over the larger, so it lies in [0, 1];
   * exchanging the two comparisons exchanges the figures.
   */
  lemma AttractionOfSpec(opp1: real, lead1: real, opp2: real, lead2: real)
    requires opp1 >= 0.0 && lead1 >= 0.0 && opp2 >= 0.0 && lead2 >= 0.0
    ensures var r := AttractionOf(opp1, lead1, opp2, lead2);
      (if (opp1 == 0.0 && lead1 == 0.0) || (opp2 == 0.0 && lead2 == 0.0) then r == (0.0, 0.0)
       else r == (Min(opp1, lead1) / Max(opp1, lead1), Min(opp2, lead2) / Max(opp2, lead2)))
      && 0.0 <= r.0 <= 1.0 && 0.0 <= r.1 <= 1.0
    ensures AttractionOf(opp2, lead2, opp1, lead1) == (AttractionOf(opp1, lead1, opp2, lead2).1, AttractionOf(opp1, lead1, opp2, lead2).0)
  {
    if !((opp1 == 0.0 && lead1 == 0.0) || (opp2 == 0.0 && lead2 == 0.0)) {
      RatioIsMinOverMax(opp1, lead1);
      RatioIsMinOverMax(opp2, lead2);
    }
  }

  /**
   * Each figure compares a partner's leading octant with the octant four places
   * on in the other partner's portrait; swapping the partners swaps the figures.
   */
  lemma AttractionSpec(p: Pair)
    requires WellFormed(p)
    ensures var lead1, lead2 := p.partner1.mainOctant, p.partner2.mainOctant;
      Attraction(p) == AttractionOf(p.partner2.portrait[(lead1.index + 4) % 8].value, lead1.value,
                                    p.partner1.portrait[(lead2.index + 4) % 8].value, lead2.value)
    ensures Attraction(Swap(p)) == (Attraction(p).1, Attraction(p).0)
  {
    AttractionValue(p);
    AttractionValue(Swap(p));
    var lead1, lead2 := p.partner1.mainOctant, p.partner2.mainOctant;
    AttractionOfSpec(p.partner2.portrait[(lead1.index + 4) % 8].value, lead1.value,
                     p.partner1.portrait[(lead2.index + 4) % 8].value, lead2.value);
  }

  /** Each leading octant is compared with the octant four places on in the other portrait. */
  lemma AttractionValue(p: Pair)
    requires WellFormed(p)
    ensures var lead1, lead2 := p.partner1.mainOctant, p.partner2.mainOctant;
      && p.partner2.portrait[(lead1.index + 4) % 8].value >= 0.0 && lead1.value >= 0.0
      && p.partner1.portrait[(lead2.index + 4) % 8].value >= 0.0 && lead2.value >= 0.0
      && Attraction(p) == AttractionOf(p.partner2.portrait[(lead1.index + 4) % 8].value, lead1.value,
                                       p.partner1.portrait[(lead2.index + 4) % 8].value, lead2.value)
  {
    OppositeOfLead(p.partner1, p.partner2);
    OppositeOfLead(p.partner2, p.partner1);
  }

  /** The octant across from a consistent result's leading one, read in another consistent result. */
  lemma OppositeOfLead(u: UserResult, other: UserResult)
    requires Consistent(u) && Consistent(other)
    ensures OppositeSegmentIndex(u.mainOctant.code) == (u.mainOctant.index + 4) % 8
    ensures other.portrait[(u.mainOctant.index + 4) % 8].value >= 0.0 && u.mainOctant.value >= 0.0
  {
    assert u.mainOctant.code == CodeList[u.mainOctant.index];
    OppositeOfCode(u.mainOctant.index);
  }

  // ------------------------------------------ life attitudes, similar thinking

  /**
   * How close two octants sit: 3 the same octant, 2 the same quarter (codes
   * sharing their letter), 1 the same hemisphere, 0 otherwise.
   */
  function Closeness(i: nat, j: nat): nat
  {
    if i == j then 3 else if i / 2 == j / 2 then 2 else if i / 4 == j / 4 then 1 else 0
  }

  /** Codes in one quarter share their letter; codes in different quarters do not. */
  lemma CodeLetters()
    ensures forall i :: 0 <= i < 8 ==> |CodeList[i]| == 2 && CodeList[i][0] == "ABab"[i / 2]
    ensures forall k, l :: 0 <= k < 4 && 0 <= l < 4 ==> (("ABab"[k] == "ABab"[l]) == (k == l))
  {
  }

  lemma CodeFacts()
    ensures forall i :: 0 <= i < 8 ==> |CodeList[i]| == 2
    ensures forall i, j :: 0 <= i < 8 && 0 <= j < 8 ==> ((CodeList[i][0] == CodeList[j][0]) == (i / 2 == j / 2))
    ensures forall i :: 0 <= i < 8 ==> ((CodeList[i] in LeftHemisphere) == (i < 4))
    ensures forall i :: 0 <= i < 8 ==> ((CodeList[i] in RightHemisphere) == (i >= 4))
  {
    CodeListDistinct();
    CodeLetters();
    forall i | 0 <= i < 8 ensures (CodeList[i] in LeftHemisphere) == (i < 4) {
      if i < 4 {
        assert LeftHemisphere[i] == CodeList[i];
      }
    }
    forall i | 0 <= i < 8 ensures (CodeList[i] in RightHemisphere) == (i >= 4) {
      if i >= 4 {
        assert RightHemisphere[i - 4] == CodeList[i];
      }
    }
  }

  /** getLifeAttitudes on the two leading codes: 1, 0.5, 0.25 or 0 for the same octant, quarter, hemisphere or none. */
  function LifeAttitudesOf(code1: string, code2: string): real
    requires |code1| > 0 && |code2| > 0
  {
    if code1 == code2 then 1.0
    else if code1[0] == code2[0] then 0.5
    else if (code1 in LeftHemisphere && code2 in LeftHemisphere)
      || (code1 in RightHemisphere && code2 in RightHemisphere) then 0.25
    else 0.0
  }

  /** getSimilarityThinking on the two leading codes: 1 for the same octant or quarter, 0.5 for the same hemisphere, else 0. */
  function SimilarityThinkingOf(code1: string, code2: string): real
    requires |code1| > 0 && |code2| > 0
  {
    if code1 == code2 || code1[0] == code2[0] then 1.0
    else if (code1 in LeftHemisphere && code2 in LeftHemisphere)
      || (code1 in RightHemisphere && code2 in RightHemisphere) then 0.5
    else 0.0
  }

  function LifeAttitudes(p: Pair): real
    requires WellFormed(p)
  {
    CodeFacts();
    LifeAttitudesOf(p.partner1.mainOctant.code, p.partner2.mainOctant.code)
  }

  function SimilarityThinking(p: Pair): real
    requires WellFormed(p)
  {
    CodeFacts();
    SimilarityThinkingOf(p.partner1.mainOctant.code, p.partner2.mainOctant.code)
  }

  /**
   * On two octant codes both figures depend only on how close the octants sit;
   * so they are symmetric, and similar thinking is never below similar life
   * attitudes.
   */
  lemma CodeScores(i: nat, j: nat)
    requires i < 8 && j < 8
    ensures LifeAttitudesOf(CodeList[i], CodeList[j]) == [0.0, 0.25, 0.5, 1.0][Closeness(i, j)]
    ensures SimilarityThinkingOf(CodeList[i], CodeList[j]) == [0.0, 0.5, 1.0, 1.0][Closeness(i, j)]
  {
    var c1, c2 := CodeList[i], CodeList[j];
    CodeFacts();
    CodeListDistinct();
    assert (c1 == c2) == (i == j);
    assert (c1[0] == c2[0]) == (i / 2 == j / 2);
    assert (c1 in LeftHemisphere) == (i < 4) && (c2 in LeftHemisphere) == (j < 4);
    assert (c1 in RightHemisphere) == (i >= 4) && (c2 in RightHemisphere) == (j >= 4);
    ScoresFromFacts(c1, c2, i, j);
  }

  lemma ScoresFromFacts(c1: string, c2: string, i: nat, j: nat)
    requires i < 8 && j < 8 && |c1| > 0 && |c2| > 0
    requires (c1 == c2) == (i == j)
    requires (c1[0] == c2[0]) == (i / 2 == j / 2)
    requires (c1 in LeftHemisphere) == (i < 4) && (c2 in LeftHemisphere) == (j < 4)
    requires (c1 in RightHemisphere) == (i >= 4) && (c2 in RightHemisphere) == (j >= 4)
    ensures LifeAttitudesOf(c1, c2) == [0.0, 0.25, 0.5, 1.0][Closeness(i, j)]
    ensures SimilarityThinkingOf(c1, c2) == [0.0, 0.5, 1.0, 1.0][Closeness(i, j)]
  {
    HemisphereByQuotient(i, j);
  }

  lemma HemisphereByQuotient(i: nat, j: nat)
    requires i < 8 && j < 8
    ensures (i / 4 == j / 4) == ((i < 4 && j < 4) || (i >= 4 && j >= 4))
    ensures i / 2 == j / 2 ==> i / 4 == j / 4
  {
  }

  /**
   * For a pair, both figures depend only on how close the two leading octants
   * sit, do not depend on the order of the partners, and similar thinking is
   * never below similar life attitudes.
   */
  lemma LeadSegmentsSpec(p: Pair)
    requires WellFormed(p)
    ensures var c := Closeness(p.partner1.mainOctant.index, p.partner2.mainOctant.index);
      LifeAttitudes(p) == [0.0, 0.25, 0.5, 1.0][c] && SimilarityThinking(p) == [0.0, 0.5, 1.0, 1.0][c]
    ensures LifeAttitudes(Swap(p)) == LifeAttitudes(p) && SimilarityThinking(Swap(p)) == SimilarityThinking(p)
    ensures LifeAttitudes(p) <= SimilarityThinking(p)
  {
    var i, j := p.partner1.mainOctant.index, p.partner2.mainOctant.index;
    CodeScores(i, j);
    CodeScores(j, i);
  }

  // ------------------------------------------- maturity and complementarity

  predicate IsNonZero(o: Octant)
  {
    o.value != 0.0
  }

  /** getPsyMaturity: the share of non-empty octants of each partner. */
  function PsyMaturity(p: Pair): (real, real)
  {
    (|Filter(p.partner1.portrait, IsNonZero)| as real / 8.0, |Filter(p.partner2.portrait, IsNonZero)| as real / 8.0)
  }

  /** The numbers of non-empty octants differ by at most the number of mismatching positions. */
  lemma {:induction false} NonZeroCountsBound(a: seq<Octant>, b: seq<Octant>)
    requires |a| == |b|
    ensures -(Mismatches(a, b) as int) <= |Filter(a, IsNonZero)| - |Filter(b, IsNonZero)| <= Mismatches(a, b)
  {
    if a != [] {
      NonZeroCountsBound(a[1..], b[1..]);
    }
  }

  /** A portrait has no non-empty octant exactly when every octant is empty. */
  lemma NoNonZeroIff(a: seq<Octant>)
    requires |a| == 8
    ensures (|Filter(a, IsNonZero)| == 0) == (forall i :: 0 <= i < 8 ==> a[i].value == 0.0)
  {
    FilterAllOrNone(a, IsNonZero);
    if |Filter(a, IsNonZero)| == 0 {
      forall i | 0 <= i < 8 ensures a[i].value == 0.0 {
        assert a[i] in a;
      }
    }
  }

  /**
   * Maturity lies in [0, 1], is 0 exactly for an empty portrait, and understanding
   * can never exceed 1 minus the gap between the two maturities.
   */
  lemma PsyMaturitySpec(p: Pair)
    requires WellFormed(p)
    ensures var m := PsyMaturity(p);
      0.0 <= m.0 <= 1.0 && 0.0 <= m.1 <= 1.0
      && ((m.0 == 0.0) == (forall i :: 0 <= i < 8 ==> p.partner1.portrait[i].value == 0.0))
      && ((m.1 == 0.0) == (forall i :: 0 <= i < 8 ==> p.partner2.portrait[i].value == 0.0))
      && var u := 1.0 - Fraction * Mismatches(p.partner1.portrait, p.partner2.portrait) as real;
         u <= 1.0 - (m.0 - m.1) && u <= 1.0 - (m.1 - m.0)
  {
    NonZeroCountsBound(p.partner1.portrait, p.partner2.portrait);
    NoNonZeroIff(p.partner1.portrait);
    NoNonZeroIff(p.partner2.portrait);
    FilterAllOrNone(p.partner1.portrait, IsNonZero);
    FilterAllOrNone(p.partner2.portrait, IsNonZero);
  }

  /** getComplementarity: the leading octant indexes, once when both lead with the same octant. */
  function Complementarity(p: Pair): seq<int>
  {
    if p.partner1.mainOctant.code == p.partner2.mainOctant.code then [p.partner1.mainOctant.index]
    else [p.partner1.mainOctant.index, p.partner2.mainOctant.index]
  }

  /**
   * The list holds both leading octants, without repetition, in either order
   * of the partners; it has one entry exactly when both lead with the same octant.
   */
  lemma ComplementaritySpec(p: Pair)
    requires WellFormed(p)
    ensures var c := Complementarity(p);
      c[0] == p.partner1.mainOctant.index
      && (forall i, j :: 0 <= i < j < |c| ==> c[i] != c[j])
      && (set x | x in c) == {p.partner1.mainOctant.index, p.partner2.mainOctant.index}
      && (set x | x in Complementarity(Swap(p))) == (set x | x in c)
      && (|c| == 1 <==> p.partner1.mainOctant.index == p.partner2.mainOctant.index)
  {
    var a, b := p.partner1.mainOctant, p.partner2.mainOctant;
    assert a.code == CodeList[a.index] && b.code == CodeList[b.index];
    if a.code == b.code {
      CodeListDistinct();
      assert a.index == b.index;
      assert Complementarity(p) == [a.index] && Complementarity(Swap(p)) == [b.index];
      assert (set x | x in [a.index]) == {a.index};
    } else {
      assert a.index != b.index;
      assert Complementarity(p) == [a.index, b.index] && Complementarity(Swap(p)) == [b.index, a.index];
      assert (set x | x in [a.index, b.index]) == {a.index, b.index};
      assert (set x | x in [b.index, a.index]) == {a.index, b.index};
    }
  }
}
