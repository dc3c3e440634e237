# Psychometric scoring library — a Dafny model

This project models the scoring core of a web application that runs a
psychological questionnaire and interprets it. It covers:

- **Reduction of answers** (`test_results.dfy`): 75 or more answers become the
  5×5 result matrix. Each cell sums three answers taken five positions apart.
- **Person profile and portrait** (`psy_utils.dfy`):
  - each matrix row is split into its negative and positive mass, and these
    become the eight *tendencies* (the profile);
  - the eight *octants* (the portrait) are areas between neighbouring profile
    axes, rounded to two decimals;
  - banded descriptions, key results and the "famous person" lookup.
- **User result** (`user_result.dfy`, `stable_sort.dfy`): the portrait sorted by
  value with a stable sort, the main octant, and the main psycho-type and
  tendency lists, where a runner-up joins when it is within the difference
  margin.
- **Pair** (`pair.dfy`): the compatibility scores of two partners:
  - acceptance;
  - understanding;
  - attraction via the opposite segment;
  - life attitudes;
  - similarity of thinking;
  - psychological maturity;
  - complementarity.
- **Team** (`team.dfy`):
  - the averaged team profile and portrait;
  - the major, needful and descriptive octant lists;
  - cross-functionality, interaction, emotional compatibility, loyalty,
    leading member and commitment;
  - the intensity check, the need for a specialist, candidate selection and the
    unwanted members.
- **Encoded data parser** (`data_parser.dfy`): the shape check on a decoded
  answer payload `[[info…],[[row]…5 rows]]`, with a renderer that inverts
  the parser; how `JSON.parse` reads the rows of an accepted payload; and the
  fetch-decode-validate pipeline, both as written and with the check
  corrected to demand a comma between items (see Findings).
- **Application helpers** (`helper.dfy`): boolean parsing of strings, query-string
  parsing, answer checking, URL query lookup, HTML sanitising and the
  pass/fail test on a result.

Shared definitions live in `types.dfy` (matrix, tendency, octant, code list),
`numeric.dfy` (sums, decimal rounding), `seqs.dfy` (filtering) and
`strings.dfy` (search, replace, split/join, trim, ASCII lower-case).

Numbers that JavaScript keeps as doubles are `real` here. Answers and matrix
cells are `int`. `Number(x.toFixed(n))` is exact rounding half away from zero
to `n` decimals. The built JavaScript exists twice, as `build/main` and
`build/module`, with the same logic; the table cites `build/main`.

## Model

| member | source | states |
|---|---|---|
| TestResults.CalculateResults | src/libs/psychology/build/main/lib/calculate-test-results.js:10-23 | the loop fills a 5×5 matrix whose cell (i, j) is the sum of answers i+15j, i+15j+5 and i+15j+10, equal to the reference reduction |
| TestResults.PicksComplete | src/libs/psychology/build/main/lib/calculate-test-results.js:12-20 | the three-step accumulation of the inner loop yields exactly that three-answer cell sum |
| TestResults.ReduceConservation | src/libs/psychology/build/main/lib/calculate-test-results.js:12-20 | the sum of all 25 cells equals the sum of the first 75 answers (every answer is counted once) |
| TestResults.ReduceCoverage | src/libs/psychology/build/main/lib/calculate-test-results.js:13-18 | answer n < 75 lands in exactly one cell: row n mod 5, column n div 15, step (n div 5) mod 3 |
| TestResults.ReduceRowResidue | src/libs/psychology/build/main/lib/calculate-test-results.js:12-20 | matrix row i depends only on the answers whose position is i mod 5 |
| TestResults.ReduceReadsFirst75 | src/libs/psychology/build/main/lib/calculate-test-results.js:11-20 | answers beyond the 75th never matter; all-zero answers give the zero matrix |
| PsyUtils.SplitRow | src/libs/psychology/build/main/lib/utils.js:69-81 | the loop returns the negative mass (absolute values of non-positive cells) and the positive mass of a row |
| PsyUtils.PosNegSplit | src/libs/psychology/build/main/lib/utils.js:72-79 | positive mass minus negative mass is the row sum |
| PsyUtils.GetPersonProfile | src/libs/psychology/build/main/lib/utils.js:68-92 | the profile is the eight (index, value) tendencies taken from rows 1, 4, 0 and 2 in the source's order; it is well formed (index i at position i, no negative value) |
| PsyUtils.ProfileRowSums | src/libs/psychology/build/main/lib/utils.js:82-91 | opposite tendencies differ by the row sum of the matrix row they both come from |
| PsyUtils.ProfileIgnoresRow3 | src/libs/psychology/build/main/lib/utils.js:82-91 | the profile does not depend on matrix row 3 |
| PsyUtils.GetPersonPortrait | src/libs/psychology/build/main/lib/utils.js:100-122 | the push/unshift loop over reversed axes, followed by the half swap, builds the reference portrait of 8 octants |
| PsyUtils.PortraitWellFormed | src/libs/psychology/build/main/lib/utils.js:119-121 | the portrait of a well-formed profile has code i and index i at position i and no negative value |
| PsyUtils.PortraitZeroAxis | src/libs/psychology/build/main/lib/utils.js:108-118 | a zero tendency zeroes the two octants that border its axis |
| PsyUtils.PortraitZeroIff | src/libs/psychology/build/main/lib/utils.js:100-122 | for a profile from a matrix, an octant is zero exactly when one of its two bordering tendencies is zero (rounding never erases a non-zero area) |
| PsyUtils.FirstInBand | src/libs/psychology/build/main/lib/utils.js:30-38 | the first option whose range (lo, hi] holds the value, or -1 exactly when none does |
| PsyUtils.GetIndexByRange | src/libs/psychology/build/main/lib/utils.js:30-38 | the loop returns the first band index holding the value, or -1 exactly when no band does |
| PsyUtils.GetDescByRange | src/libs/psychology/build/main/lib/utils.js:10-23 | keeps the title; desc is the first matching option's text or ""; status is 0 exactly when the first option matches and 1 otherwise (status 2 cannot occur) |
| PsyUtils.KeyTierBands | src/libs/psychology/build/main/lib/utils.js:46-59 | for ordered breakpoints, result k is chosen exactly when the value lies in the k-th half-open band, and the choice is monotone in the value |
| PsyUtils.GetFamousBands | src/libs/psychology/build/main/lib/utils.js:131-153 | no famous person outside [range0, range3]; otherwise the person and picture of tier 0, 1 or 2 by band |
| PsyUtils.PictureInjective | src/libs/psychology/build/main/lib/utils.js:139-151 | distinct (octant, tier, sex) triples get distinct picture names |
| UserResults.UserResultWellFormed | src/libs/psychology/build/main/lib/UserResult.js:23-28 | profile and portrait are well formed; the sorted octants are a permutation of the portrait in stable descending order |
| UserResults.MainOctantIsFirstMax | src/libs/psychology/build/main/lib/UserResult.js:26-53 | the main octant is the portrait's first octant of maximum value |
| UserResults.MainPsychoTypeSpec | src/libs/psychology/build/main/lib/UserResult.js:30-35 | the list holds the leader and holds the runner-up exactly when the gap is below diff times the leader's value; the runner-up is a largest octant other than the leader |
| UserResults.MainPsychoTypeSingle | src/libs/psychology/build/main/lib/UserResult.js:30-35 | with a zero leader or no margin, only the main octant is listed |
| UserResults.MainTendencyListSpec | src/libs/psychology/build/main/lib/UserResult.js:39-48 | the list starts with the first maximal tendency and adds the runner-up exactly when the gap is below diff |
| UserResults.SortedOctantsUnique | src/libs/psychology/build/main/lib/UserResult.js:26 | any stable descending permutation of the portrait is the stored sorted list |
| UserResults.MakeUserResultConsistent | src/libs/psychology/build/main/lib/UserResult.js:23-57 | every field of a user result agrees with the others and with the matrix it was built from |
| StableSort.SortDescCorrect | src/libs/psychology/build/main/lib/UserResult.js:26 | the sort returns a permutation, ordered by descending value with ties kept in original order |
| StableSort.SortDescHead | src/libs/psychology/build/main/lib/UserResult.js:26 | the head of the sorted list is an element of largest value |
| StableSort.SortedStableUnique | src/libs/psychology/build/main/lib/UserResult.js:26 | two stable descending permutations of the same list are equal |
| Pairs.MakePair | src/libs/psychology/build/main/lib/Pair.js:32-42 | both partners are the user results of their matrices with the default margin 0.2 |
| Pairs.PartnerAcceptanceSpec | src/libs/psychology/build/main/lib/Pair.js:46-53 | 0 when a partner's top tendency is 0, otherwise smaller over larger top tendency; in [0, 1], 1 exactly for equal non-zero tops; symmetric in the partners |
| Pairs.GetUnderstanding | src/libs/psychology/build/main/lib/Pair.js:57-68 | the loop returns 1 minus 1/8 for each octant that is zero for one partner only |
| Pairs.MismatchesSymmetric | src/libs/psychology/build/main/lib/Pair.js:57-68 | the mismatch count is symmetric, at most the length, and 0 exactly when the zero patterns agree |
| Pairs.UnderstandingSpec | src/libs/psychology/build/main/lib/Pair.js:57-68 | understanding is symmetric, lies in [0, 1] and is 1 exactly when the partners' zero octants coincide |
| Pairs.OppositeSegmentSpec | src/libs/psychology/build/main/lib/Pair.js:88-95 | the opposite of code i is (i+4) mod 8, applying it twice returns i, and an unknown code gives 3 |
| Pairs.AttractionOfSpec | src/libs/psychology/build/main/lib/Pair.js:72-83 | both scores are 0 when a partner's pair of values is all zero, otherwise each is smaller over larger; scores are in [0, 1] and swap with the partners |
| Pairs.AttractionSpec | src/libs/psychology/build/main/lib/Pair.js:72-83 | each partner's lead octant is compared with the other partner's opposite octant; swapping partners swaps the scores |
| Pairs.CodeFacts | src/libs/psychology/build/main/lib/Pair.js:41-42 | octant codes share a letter exactly when their indexes share a quadrant pair; the hemispheres are indexes 0-3 and 4-7 |
| Pairs.CodeScores | src/libs/psychology/build/main/lib/Pair.js:99-131 | life attitudes and similarity of thinking depend only on how close the two lead octants are (same, same letter, same hemisphere, other) |
| Pairs.LeadSegmentsSpec | src/libs/psychology/build/main/lib/Pair.js:99-131 | the two scores follow the closeness tables, are symmetric in the partners, and life attitudes never exceed similarity of thinking |
| Pairs.PsyMaturitySpec | src/libs/psychology/build/main/lib/Pair.js:135-139 | each partner's maturity (non-empty octants over 8) is in [0, 1] and is 0 exactly when that partner's portrait is all zero; the gap between the two is bounded by the understanding loss |
| Pairs.ComplementaritySpec | src/libs/psychology/build/main/lib/Pair.js:143-150 | the list starts with partner 1's main octant, has no repeats, holds exactly both main octants, is independent of order as a set and has one entry exactly when they coincide |
| Teams.GetAvgValues | src/libs/psychology/build/main/lib/Team.js:61-70 | the nested loops yield, per column, the members' mean rounded to one decimal |
| Teams.AvgValuesBounds | src/libs/psychology/build/main/lib/Team.js:61-70 | an average stays within the members' range up to rounding, and equals the rounded common value for a uniform column |
| Teams.AvgNonNeg | src/libs/psychology/build/main/lib/Team.js:61-70 | averages of non-negative columns are non-negative |
| Teams.MakeTeam | src/libs/psychology/build/main/lib/Team.js:31-39 | the constructor computes the member results, team profile and team portrait from the data list, from which the major octants follow |
| Teams.TeamOfValid | src/libs/psychology/build/main/lib/Team.js:31-39 | a constructed team has consistent member results and a well-formed averaged profile and portrait |
| Teams.MaxSectorSpec | src/libs/psychology/build/main/lib/Team.js:84-87 | the maximum sector is attained by some octant, bounds all of them, and is non-negative |
| Teams.OctantSetsSpec | src/libs/psychology/build/main/lib/Team.js:154-165 | an octant is major exactly when it reaches 30% of the maximum sector, needful exactly when below it, descriptive exactly when it reaches half; descriptive implies major, and the maximum is always descriptive |
| Teams.OctantListsAscending | src/libs/psychology/build/main/lib/Team.js:154-165 | the needful and descriptive index lists are strictly ascending |
| Teams.CrossFuncSpec | src/libs/psychology/build/main/lib/Team.js:91-98 | -1 exactly for an all-zero portrait; otherwise the portrait's total over 8 times the largest sector, which lies in [1/8, 1] |
| Teams.InteractionSpec | src/libs/psychology/build/main/lib/Team.js:102-107 | undefined (0/0) exactly when every member portrait is zero; otherwise in [0, 1] and 1 exactly when all members' top values are equal |
| Teams.TopValuesSpec | src/libs/psychology/build/main/lib/Team.js:102-107 | each member's top value is non-negative and zero exactly for an all-zero portrait |
| Teams.EmotionalCompSpec | src/libs/psychology/build/main/lib/Team.js:111-122 | -1 exactly when a half of the portrait sums to 0; otherwise in (0, 1] and 1 exactly for equal halves |
| Teams.LoyaltySpec | src/libs/psychology/build/main/lib/Team.js:126-134 | loyalty is non-negative, 0 exactly when the top sum is 0, ten times the top sum over a zero bottom sum, and the ratio of top to bottom sums otherwise |
| Teams.LeadingMemberSpec | src/libs/psychology/build/main/lib/Team.js:138-142 | the leading member is the first member with the largest value in the given octant |
| Teams.CommitmentAdditive | src/libs/psychology/build/main/lib/Team.js:146-150 | commitment sums each member's matrix cell (3, 0) and adds up over joined teams |
| Teams.TeamMaxIntensitySpec | src/libs/psychology/build/main/lib/Team.js:74-80 | the team intensity lies between the smallest and largest member peak tendency and is non-negative |
| Teams.CheckIntensitySpec | src/libs/psychology/build/main/lib/Team.js:205-209 | a profile whose peak equals the team intensity passes; with zero team intensity only all-zero profiles pass; a zero peak passes only a zero-intensity team |
| Teams.UniformTeamPasses | src/libs/psychology/build/main/lib/Team.js:205-209 | in a team whose members share one peak, every member passes the intensity check |
| Teams.SpecOctantsPair | src/libs/psychology/build/main/lib/Team.js:181-186 | when both codes of a specialisation are major, the filtered list is exactly those two portrait octants, in order |
| Teams.IsSmbNeededSpec | src/libs/psychology/build/main/lib/Team.js:215-225 | a specialist is needed unless both of its octants are major and differ by less than 30% of the larger |
| Teams.CandidatesSpec | src/libs/psychology/build/main/lib/Team.js:180-200 | no list when no one is needed or all octants are major; otherwise an order-keeping sub-list of exactly the matching candidates, none of whom is unwanted |
| Teams.AllMajorIff | src/libs/psychology/build/main/lib/Team.js:186 | all eight octants are major exactly when each reaches 30% of the maximum sector |
| Teams.UnwantedSpec | src/libs/psychology/build/main/lib/Team.js:230-232 | exactly the members failing the intensity check, in order; filtering again changes nothing |
| Teams.AllCandidatesSpec | src/libs/psychology/build/main/lib/Team.js:171-174 | exactly the pool entries whose base id is not in the team, in order; idempotent; an empty team keeps the pool and the team itself yields nothing |
| DataParser.ParseRender | src/libs/psychology/build/main/lib/encoded-data-parser.js:62-65 | a well-formed payload rendered to text passes validation and parses back to itself |
| DataParser.ParseSound | src/libs/psychology/build/main/lib/encoded-data-parser.js:62-65 | every text that passes validation is the rendering of the well-formed payload parsed from it |
| DataParser.ValidateSpec | src/libs/psychology/build/main/lib/encoded-data-parser.js:62-65 | validation accepts exactly the renderings of well-formed payloads |
| DataParser.MatrixPartSpec | src/libs/psychology/build/main/lib/encoded-data-parser.js:63 | an accepted text carries exactly 25 digit characters in its matrix part, five signed-digit items per bracketed row; read item by item they form a 5×5 matrix of values in [-9, 9], which is how JSON.parse reads it only when the items are comma-separated (see Findings) |
| DataParser.CommaLessRowAccepted | src/libs/psychology/build/main/lib/encoded-data-parser.js:63 | the pattern as written accepts a payload whose first row renders as "12,3,4,5"; JSON.parse reads that row as the four numbers 12, 3, 4, 5 |
| DataParser.ValidateSeparatedSpec | src/libs/psychology/build/main/lib/encoded-data-parser.js:59-64 | the corrected check accepts exactly the renderings of well-formed payloads in which every item but the last of a list carries its comma |
| DataParser.SeparatedItemsRead | src/libs/psychology/build/main/lib/encoded-data-parser.js:41 | JSON.parse of comma-separated items yields one element per item: its signed digit, or a parse failure for a '+' sign |
| DataParser.SeparatedMatrixRead | src/libs/psychology/build/main/lib/encoded-data-parser.js:41 | a text the corrected check accepts reads, row by row through JSON.parse, as five arrays of five elements equal to the 5×5 matrix of signed digits (a '+' item fails to parse) |
| DataParser.GetAndDecodeDataSpec | src/libs/psychology/build/main/lib/encoded-data-parser.js:20-43 | the trimmed argument, or else the URL value, is decoded; all three fields are present exactly when it is non-empty, passes validateDecodedData and is JSON, and then hold the value, its decoding (a rendering of a well-formed payload) and the parsed data |
| DataParser.GetAndDecodeDataSeparatedSpec | src/libs/psychology/build/main/lib/encoded-data-parser.js:20-43 | the same for the pipeline with the corrected check: the fields are present exactly when the decoding also has a comma between any two items, and then it renders a well-formed, comma-separated payload |
| DataParser.SeparatedAgrees | src/libs/psychology/build/main/lib/encoded-data-parser.js:31 | whatever the corrected pipeline returns, the one as written returns too; they differ exactly when the source accepts a decoded text whose items are not all comma-separated |
| Helper.StringToBooleanSpec | src/helper/helper.ts:7-21 | false exactly for the empty string or a false word after lower-casing and trimming; every true word gives true |
| Helper.ParseQueryString | src/helper/helper.ts:25-46 | the loop builds the map that the reference fold over the '&'-separated parts builds |
| Helper.QueryMapKeys | src/helper/helper.ts:40-43 | the keys are exactly the text before the first '=' of some part |
| Helper.QueryMapValues | src/helper/helper.ts:40-43 | the last part with a given key decides its value: the text between the first and the second '=' ("b" for "a=b=c"), or undefined without '=' |
| Helper.ParseQueryStringSpec | src/helper/helper.ts:25-46 | the parsed map has exactly the parts' keys, each with its last part's value, and no key holds '=' or '&' |
| Helper.GetDesiredData | src/helper/helper.ts:56-61 | false exactly when the first row's third cell is falsy; otherwise each row's third cell read as a number |
| Helper.CheckAnswers | src/helper/helper.ts:84-92 | -1 exactly when every answer is truthy, otherwise the index of the first falsy answer |
| Helper.GetQueryFromURLSpec | src/helper/helper.ts:100-106 | empty search or no part holding the key gives ""; a single part key=v gives v; the result never holds '&' |
| Helper.CollapseFirstRun | src/helper/helper.ts:108-120 | the first run of two or more spaces becomes one space and the rest is untouched |
| Helper.UnescapeEscape | src/helper/helper.ts:108-120 | unescaping the HTML entities undoes the escaping of & < > " ' / |
| Helper.SanitizeSpec | src/helper/helper.ts:108-120 | the sanitised text holds none of < > " ' /, and for text without double spaces unescaping gives the input back |
| Helper.IsTestPassedSpec | src/helper/helper.ts:141-147 | no result fails; a result passes exactly when some portrait octant exceeds the threshold (3.75 as the pages pass it) |

## Left out

- A team with no members is not modelled: the averages would divide by zero.
  `Teams.MakeTeam` and the team functions require at least one member.
- IEEE doubles are left out: NaN, infinities and binary rounding. `toFixed`
  is exact decimal rounding, half away from zero.
- Teams.Interaction: the source's 0/0 is NaN; the model returns None in that
  case instead of a number.
- Helper.GetQueryFromURLSpec: the key is matched as literal text. The
  source builds a regular expression from it, so a key holding metacharacters
  is not modelled.
- Helper.StringToBooleanSpec: lower-casing covers ASCII letters only, with no
  other Unicode case mapping. The `null` case label is unreachable for a
  string and is dropped.
- Inputs on which the source throws or yields `undefined` are excluded by
  `requires` instead of being modelled as errors. Every call site in the core
  meets these requirements.
  - `PsyUtils.Profile` / `PsyUtils.GetPersonProfile` need at least 5 matrix
    rows; utils.js throws on fewer.
  - `PsyUtils.GetKeyResult` needs at least 4 results; the source returns
    `undefined` for a missing one.
  - `PsyUtils.GetFamous` needs the famous list to cover the octant, tier and
    sex; the source throws or gives `person: undefined` otherwise.
  - `Teams.LeadingMemberByType` needs an octant index in 0..7. The source
    throws at 8, although its doc comment says 1 to 8.
  - `Teams.SpecPair`, `Teams.IsSmbNeeded` and `Teams.Candidates` need a
    specialisation index below 5; the source throws above that.
  - `Helper.IsTestPassed` needs a result with at least 5 rows. An empty array
    is truthy, so the source passes it to `UserResult`, which throws.
- Helper.GetDesiredData: requires a non-empty result. The source throws on an
  empty array, and the model does not model exceptions.
- Helper.GetDesiredData: how the unary plus reads a string as a number is a
  parameter (`textToNumber`), not JavaScript's number grammar.
- Answers are JavaScript values (number, string or undefined) checked for
  truthiness. Objects and booleans are not modelled.
- Base64 decoding, `JSON.parse`, the JSON test, `window.location` and
  `URLSearchParams` are parameters of `DataParser.DecodeWith` and of the two
  pipelines built on it.
  - `DataParser.ReadArray` reads one bracketed row the way `JSON.parse`
    does, but only for what the checked shape can hold: signed decimal
    integers and commas, with no whitespace, fractions or exponents.
  - `parseUrl` and `isBase64Browser` are not part of this model: they read
    the browser.
  - Beyond the checked shape, the JSON content of the payload is not
    interpreted.
- `getChartLabels`, `getRealData`, `encodeBase64`, `decodeBase64` and
  `encodeDataForURL` are not modelled: they are one-line conversions through
  `toString`, `btoa`/`atob` and `encodeURIComponent`, which the model has no
  definition of.
- `fetchPageContent` (network), `getRandomIntInclusive` (randomness) and
  `scrollToElement` (the DOM) are not part of this model.
- A query key named `__proto__` is an ordinary map key here. In JavaScript
  it would hit the object prototype.
- Localised descriptions and the text tables fetched from the content API are
  not modelled. They are parameters: options, results and the famous list.

## Findings

| source | as written | input that shows it | evidently intended | confidence | as-written member | corrected member |
|---|---|---|---|---|---|---|
| src/libs/psychology/build/main/lib/encoded-data-parser.js:63 | each item of the pattern is `[+-]?\d,?`, so the comma between items is optional and two digits may run together | `[[1],[[12,3,4,5],[1,2,3,4,5],[1,2,3,4,5],[1,2,3,4,5],[1,2,3,4,5]]]` passes the check and is valid JSON; its first row parses as four numbers, one of them 12 | a 5×5 array of single signed digits (the doc comment at lines 59-60), that is a comma between any two items; `DataParser.ValidateSeparated` checks this, and `DataParser.GetAndDecodeDataSeparated` uses it | not executed | DataParser.CommaLessRowAccepted | DataParser.SeparatedMatrixRead |
