/**
 * helper.ts: the string and answer helpers the pages use around the scoring
 * library, and the pass/fail test on a finished questionnaire.
 */
module Helper {
  import opened Types
  import opened Seqs
  import opened Strings
  import opened UserResults

  /** A JavaScript value as these helpers meet it: a number, a string or undefined. */
  datatype JsValue = Num(n: real) | Text(s: string) | Undefined

  /** JavaScript truthiness on those values (NaN is not modelled). */
  predicate Truthy(v: JsValue)
  {
    match v
    case Num(n) => n != 0.0
    case Text(s) => s != ""
    case Undefined => false
  }

  // -------------------------------------------------------- stringToBoolean

  predicate IsTrueWord(w: string) { w == "true" || w == "yes" || w == "1" }

  predicate IsFalseWord(w: string) { w == "false" || w == "no" || w == "0" }

  /** The lower-cased, trimmed text the switch compares. */
  function Normalised(s: string): string
  {
    Trim(ToLowerAscii(s))
  }

  function StringToBoolean(s: string): bool
  {
    var w := Normalised(s);
    if IsTrueWord(w) then true
    else if IsFalseWord(w) then false
    else s != ""
  }

  lemma TrimShorter(s: string)
    ensures |Trim(s)| <= |s|
  {
  }

  /**
   * The answer is false exactly for the empty string and for the three false
   * words in any letter case and with any surrounding white space; the three
   * true words give true.
   */
  lemma StringToBooleanSpec(s: string)
    ensures !StringToBoolean(s) <==> s == "" || IsFalseWord(Normalised(s))
    ensures IsTrueWord(Normalised(s)) ==> StringToBoolean(s)
  {
    TrimShorter(ToLowerAscii(s));
  }

  // ------------------------------------------------------- parseQueryString

  /** The '&'-separated parts, after "%20" becomes a space and the first double space a single one. */
  function Queries(queryString: string): (parts: seq<string>)
    ensures |parts| >= 1 && forall i :: 0 <= i < |parts| ==> '&' !in parts[i]
  {
    Split(ReplaceFirst(ReplaceAll(queryString, "%20", " "), "  ", " "), '&')
  }

  /** The text before the first '=' of a part. */
  function Key(part: string): (k: string)
    ensures '=' !in k
  {
    Split(part, '=')[0]
  }

  /** The text between the first and the second '=', undefined when the part has no '='. */
  function Value(part: string): (v: Option<string>)
    ensures v.Some? ==> '=' !in v.value
    ensures v.None? <==> '=' !in part
  {
    SplitOne(part);
    var pieces := Split(part, '=');
    if |pieces| >= 2 then Some(pieces[1]) else None
  }

  /** A string splits into a single piece exactly when it holds no separator. */
  lemma {:induction false} SplitOne(s: string)
    ensures |Split(s, '=')| == 1 <==> '=' !in s
  {
    if s != [] {
      SplitOne(s[1..]);
      assert s == [s[0]] + s[1..];
    }
  }

  /** The object the loop builds from the parts seen so far: later keys overwrite earlier ones. */
  function QueryMap(parts: seq<string>): map<string, Option<string>>
  {
    if parts == [] then map[]
    else
      var last := parts[|parts| - 1];
      QueryMap(parts[..|parts| - 1])[Key(last) := Value(last)]
  }

  method ParseQueryString(queryString: string) returns (params: map<string, Option<string>>)
    ensures params == QueryMap(Queries(queryString))
  {
    var queries := Queries(queryString);
    params := map[];
    var i := 0;
    while i < |queries|
      invariant 0 <= i <= |queries|
      invariant params == QueryMap(queries[..i])
    {
      assert queries[..i + 1][..i] == queries[..i];
      params := params[Key(queries[i]) := Value(queries[i])];
      i := i + 1;
    }
    assert queries[..|queries|] == queries;
  }

  /** The part is the last one carrying its key. */
  predicate LastWithKey(parts: seq<string>, i: int)
  {
    0 <= i < |parts| && forall j :: i < j < |parts| ==> Key(parts[j]) != Key(parts[i])
  }

  /** Every key of a part is a key of the object, and nothing else is. */
  lemma {:induction false} QueryMapKeys(parts: seq<string>)
    ensures forall k :: k in QueryMap(parts) <==> exists i :: 0 <= i < |parts| && Key(parts[i]) == k
  {
    if parts != [] {
      var n := |parts| - 1;
      var init := parts[..n];
      QueryMapKeys(init);
      forall k ensures k in QueryMap(parts) <==> exists i :: 0 <= i < |parts| && Key(parts[i]) == k {
        if k in QueryMap(init) {
          var i :| 0 <= i < |init| && Key(init[i]) == k;
          assert Key(parts[i]) == k;
        }
        if exists i :: 0 <= i < |parts| && Key(parts[i]) == k {
          var i :| 0 <= i < |parts| && Key(parts[i]) == k;
          if i < n { assert Key(init[i]) == k; }
        }
      }
    }
  }

  /** Each key holds the value of the last part that carries it. */
  lemma {:induction false} QueryMapValues(parts: seq<string>)
    ensures forall i :: LastWithKey(parts, i) ==>
      Key(parts[i]) in QueryMap(parts) && QueryMap(parts)[Key(parts[i])] == Value(parts[i])
  {
    if parts != [] {
      var n := |parts| - 1;
      var init := parts[..n];
      QueryMapValues(init);
      forall i | LastWithKey(parts, i)
        ensures Key(parts[i]) in QueryMap(parts) && QueryMap(parts)[Key(parts[i])] == Value(parts[i])
      {
        if i < n {
          assert init[i] == parts[i];
          assert LastWithKey(init, i) by {
            forall j | i < j < n ensures Key(init[j]) != Key(init[i]) {
              assert init[j] == parts[j];
            }
          }
        }
      }
    }
  }

  /** What parseQueryString returns, described part by part. */
  lemma ParseQueryStringSpec(queryString: string, params: map<string, Option<string>>)
    requires params == QueryMap(Queries(queryString))
    ensures forall k :: k in params <==> exists i :: 0 <= i < |Queries(queryString)| && Key(Queries(queryString)[i]) == k
    ensures forall i :: LastWithKey(Queries(queryString), i) ==> params[Key(Queries(queryString)[i])] == Value(Queries(queryString)[i])
    ensures forall k :: k in params ==> '=' !in k && '&' !in k
  {
    var parts := Queries(queryString);
    QueryMapKeys(parts);
    QueryMapValues(parts);
    forall k | k in params ensures '=' !in k && '&' !in k {
      var i :| 0 <= i < |parts| && Key(parts[i]) == k;
      KeyInPart(parts[i]);
    }
  }

  /** A key is a prefix of its part. */
  lemma {:induction false} KeyInPart(part: string)
    ensures forall c :: c in Key(part) ==> c in part
  {
    if part != [] && part[0] != '=' {
      KeyInPart(part[1..]);
      assert Key(part) == [part[0]] + Key(part[1..]);
    }
  }

  // --------------------------------------------------------- getDesiredData

  /** false, or the third column read as numbers (None standing for NaN). */
  datatype Desired = NotGiven | Numbers(values: seq<Option<real>>)

  /** The third cell of a row, undefined when the row is shorter. */
  function Third(row: seq<JsValue>): JsValue
  {
    if |row| >= 3 then row[2] else Undefined
  }

  /**
   * The unary plus on a cell. Numbers pass through, undefined is NaN; how a
   * string reads as a number is the parameter textToNumber.
   */
  function ToNumber(v: JsValue, textToNumber: string -> Option<real>): Option<real>
  {
    match v
    case Num(n) => Some(n)
    case Text(s) => textToNumber(s)
    case Undefined => None
  }

  function GetDesiredData(result: seq<seq<JsValue>>, textToNumber: string -> Option<real>): (r: Desired)
    requires |result| >= 1
    ensures r.NotGiven? <==> !Truthy(Third(result[0]))
    ensures r.Numbers? ==> (|r.values| == |result|
      && forall i :: 0 <= i < |result| ==> r.values[i] == ToNumber(Third(result[i]), textToNumber))
    ensures r.Numbers? && Third(result[0]).Num? ==> r.values[0] == Some(Third(result[0]).n) && Third(result[0]).n != 0.0
  {
    if Truthy(Third(result[0]))
    then Numbers(seq(|result|, i requires 0 <= i < |result| => ToNumber(Third(result[i]), textToNumber)))
    else NotGiven
  }

  // ----------------------------------------------------------- checkAnswers

  /** The index of the first answer without a truthy value, or -1 when every answer has one. */
  method CheckAnswers(answers: seq<JsValue>) returns (r: int)
    ensures r == -1 <==> forall i :: 0 <= i < |answers| ==> Truthy(answers[i])
    ensures r != -1 ==> (0 <= r < |answers| && !Truthy(answers[r])
      && forall i :: 0 <= i < r ==> Truthy(answers[i]))
  {
    var i := 0;
    while i < |answers|
      invariant 0 <= i <= |answers|
      invariant forall j :: 0 <= j < i ==> Truthy(answers[j])
    {
      if !Truthy(answers[i]) {
        return i;
      }
      i := i + 1;
    }
    return -1;
  }

  // -------------------------------------------------------- getQueryFromURL

  /** `item.match(new RegExp(key))` for a key without pattern characters. */
  function Matches(key: string): string -> bool
  {
    (item: string) => Contains(item, key)
  }

  function GetQueryFromURL(searchStr: string, key: string): string
  {
    if searchStr == "" then ""
    else ValueOfKey(Split(ReplaceFirst(searchStr, "?", ""), '&'), key)
  }

  /** The parts mentioning the key, joined by commas, with the first `key=` removed. */
  function ValueOfKey(queries: seq<string>, key: string): string
  {
    var needList := Join(Filter(queries, Matches(key)), ",");
    if needList == "" then "" else ReplaceFirst(needList, key + "=", "")
  }

  /** No separator char in the parts or the glue: none in the joined text. */
  lemma {:induction false} JoinWithout(parts: seq<string>, sep: string, c: char)
    requires c !in sep && forall i :: 0 <= i < |parts| ==> c !in parts[i]
    ensures c !in Join(parts, sep)
  {
    if |parts| > 1 {
      JoinWithout(parts[1..], sep, c);
    }
  }

  /** Removing an occurrence adds no character. */
  lemma RemoveFirstWithout(s: string, pat: string, c: char)
    requires c !in s
    ensures c !in ReplaceFirst(s, pat, "")
  {
    var i := IndexOfSub(s, pat);
    if i >= 0 {
      assert ReplaceFirst(s, pat, "") == s[..i] + s[i + |pat|..];
    }
  }

  /** A part that is exactly key=value gives back its value. */
  lemma RemoveKeyPrefix(key: string, v: string)
    ensures ReplaceFirst(key + "=" + v, key + "=", "") == v
  {
    var s := key + "=" + v;
    assert OccursAt(s, key + "=", 0);
    assert s[|key + "="|..] == v;
  }

  /** No '&'-part mentions the key. */
  predicate NoneMatches(queries: seq<string>, key: string)
  {
    forall i :: 0 <= i < |queries| ==> !Contains(queries[i], key)
  }

  /**
   * An empty search string, or one where no '&'-part mentions the key, gives
   * ''; a single part `key=value` mentioning the key gives value; the answer
   * never holds a '&'.
   */
  lemma GetQueryFromURLSpec(searchStr: string, key: string)
    ensures searchStr == "" ==> GetQueryFromURL(searchStr, key) == ""
    ensures var queries := Split(ReplaceFirst(searchStr, "?", ""), '&');
      NoneMatches(queries, key) ==> GetQueryFromURL(searchStr, key) == ""
    ensures var queries := Split(ReplaceFirst(searchStr, "?", ""), '&');
      forall v :: searchStr != "" && Filter(queries, Matches(key)) == [key + "=" + v] ==> GetQueryFromURL(searchStr, key) == v
    ensures '&' !in GetQueryFromURL(searchStr, key)
  {
    var queries := Split(ReplaceFirst(searchStr, "?", ""), '&');
    if NoneMatches(queries, key) {
      ValueOfKeyNone(queries, key);
    }
    forall v | searchStr != "" && Filter(queries, Matches(key)) == [key + "=" + v] ensures GetQueryFromURL(searchStr, key) == v {
      RemoveKeyPrefix(key, v);
    }
    ValueOfKeyWithout(queries, key);
  }

  lemma ValueOfKeyNone(queries: seq<string>, key: string)
    requires NoneMatches(queries, key)
    ensures ValueOfKey(queries, key) == ""
  {
    assert forall i :: 0 <= i < |queries| ==> !Matches(key)(queries[i]);
    FilterAllOrNone(queries, Matches(key));
  }

  lemma ValueOfKeyWithout(queries: seq<string>, key: string)
    requires forall i :: 0 <= i < |queries| ==> '&' !in queries[i]
    ensures '&' !in ValueOfKey(queries, key)
  {
    var kept := Filter(queries, Matches(key));
    forall i | 0 <= i < |kept| ensures '&' !in kept[i] {
      assert kept[i] in queries;
    }
    JoinWithout(kept, ",", '&');
    RemoveFirstWithout(Join(kept, ","), key + "=", '&');
  }

  // --------------------------------------------------------------- sanitize

  /** The characters sanitize escapes, other than '&'. */
  predicate Special(c: char) { c == '<' || c == '>' || c == '"' || c == '\'' || c == '/' }

  /** The entity each escaped character becomes. */
  function Entity(c: char): (e: string)
    ensures |e| >= 1 && (e[0] == ' ' <==> c == ' ')
    ensures forall k :: 0 <= k < |e| ==> !Special(e[k])
    ensures forall k :: 0 <= k < |e| ==> (e[k] == ' ' <==> c == ' ')
  {
    if c == '&' then "&amp;"
    else if c == '<' then "&lt;"
    else if c == '>' then "&gt;"
    else if c == '"' then "&quot;"
    else if c == '\'' then "&#x27;"
    else if c == '/' then "&#x2F;"
    else [c]
  }

  /** The replace with the /[&<>"'/]/g pattern and the entity map. */
  function Escape(s: string): string
  {
    if s == [] then "" else Entity(s[0]) + Escape(s[1..])
  }

  /** The inverse of Escape: each entity back to its character. */
  function Unescape(s: string): string
    decreases |s|
  {
    if s == [] then ""
    else if |s| >= 5 && s[..5] == "&amp;" then "&" + Unescape(s[5..])
    else if |s| >= 4 && s[..4] == "&lt;" then "<" + Unescape(s[4..])
    else if |s| >= 4 && s[..4] == "&gt;" then ">" + Unescape(s[4..])
    else if |s| >= 6 && s[..6] == "&quot;" then "\"" + Unescape(s[6..])
    else if |s| >= 6 && s[..6] == "&#x27;" then "'" + Unescape(s[6..])
    else if |s| >= 6 && s[..6] == "&#x2F;" then "/" + Unescape(s[6..])
    else [s[0]] + Unescape(s[1..])
  }

  /** Each entity, followed by any text, unescapes to its character. */
  lemma UnescapeEntity(c: char, t: string)
    ensures Unescape(Entity(c) + t) == [c] + Unescape(t)
  {
    var s := Entity(c) + t;
    if c == '&' {
      SplitAt("&amp;", t);
      assert Unescape(s) == "&" + Unescape(s[5..]);
    } else if c == '<' {
      SplitAt("&lt;", t);
      assert s[1] == 'l';
      assert Unescape(s) == "<" + Unescape(s[4..]);
    } else if c == '>' {
      SplitAt("&gt;", t);
      assert s[1] == 'g' && s[..4][1] == 'g';
      assert Unescape(s) == ">" + Unescape(s[4..]);
    } else if c == '"' {
      SplitAt("&quot;", t);
      assert s[..5][1] == 'q' && s[..4][1] == 'q';
      assert Unescape(s) == "\"" + Unescape(s[6..]);
    } else if c == '\'' {
      SplitAt("&#x27;", t);
      assert s[..5][1] == '#' && s[..4][1] == '#' && s[..6][1] == '#';
      assert Unescape(s) == "'" + Unescape(s[6..]);
    } else if c == '/' {
      SplitAt("&#x2F;", t);
      assert s[..5][1] == '#' && s[..4][1] == '#' && s[..6][1] == '#' && s[..6][4] == 'F';
      assert Unescape(s) == "/" + Unescape(s[6..]);
    } else {
      UnescapePlain(c, t);
    }
  }

  /** A character other than '&' starts no entity. */
  lemma UnescapePlain(c: char, t: string)
    requires c != '&'
    ensures Unescape([c] + t) == [c] + Unescape(t)
  {
    var s := [c] + t;
    assert s[1..] == t;
    assert forall n :: 1 <= n <= |s| ==> s[..n][0] == c;
  }

  /** Escaping loses nothing: unescaping gives the original text back. */
  lemma {:induction false} UnescapeEscape(s: string)
    ensures Unescape(Escape(s)) == s
  {
    if s != [] {
      UnescapeEntity(s[0], Escape(s[1..]));
      UnescapeEscape(s[1..]);
      assert [s[0]] + s[1..] == s;
    }
  }

  /** None of < > " ' / appears. */
  predicate HtmlSafe(s: string)
  {
    forall k :: 0 <= k < |s| ==> !Special(s[k])
  }

  /** Two spaces side by side start at position k. */
  predicate DoubleSpaceAt(s: string, k: int)
  {
    0 <= k && k + 1 < |s| && s[k] == ' ' && s[k + 1] == ' '
  }

  /** The leftmost position where two spaces meet, or -1. */
  function FirstDoubleSpace(s: string): (k: int)
    ensures -1 <= k < |s|
    ensures k >= 0 ==> DoubleSpaceAt(s, k)
    ensures forall j :: 0 <= j && (k < 0 || j < k) ==> !DoubleSpaceAt(s, j)
    decreases |s|
  {
    if |s| < 2 then -1
    else if s[0] == ' ' && s[1] == ' ' then 0
    else
      var k := FirstDoubleSpace(s[1..]);
      assert forall j :: 1 <= j ==> (DoubleSpaceAt(s, j) <==> DoubleSpaceAt(s[1..], j - 1));
      if k < 0 then -1 else k + 1
  }

  /** The end of the run of spaces that starts at k. */
  function RunEnd(s: string, k: nat): (e: nat)
    requires k <= |s|
    ensures k <= e <= |s| && (e == |s| || s[e] != ' ')
    ensures forall m :: k <= m < e ==> s[m] == ' '
    decreases |s| - k
  {
    if k < |s| && s[k] == ' ' then RunEnd(s, k + 1) else k
  }

  /**
   * The replace with /( {2,})/: the leftmost run of two or more spaces, taken
   * whole, becomes one space; the rest of the text is left alone.
   */
  function CollapseFirstRun(s: string): (r: string)
    ensures FirstDoubleSpace(s) < 0 ==> r == s
    ensures var k := FirstDoubleSpace(s);
      k >= 0 ==> var e := RunEnd(s, k);
        e >= k + 2 && r == s[..k] + " " + s[e..] && |r| < |s|
        && (k + 1 == |r| || r[k + 1] != ' ')
    ensures forall c :: c in r ==> c in s
  {
    var k := FirstDoubleSpace(s);
    if k < 0 then s
    else
      var e := RunEnd(s, k);
      var r := s[..k] + " " + s[e..];
      assert forall c :: c in r ==> c in s by {
        forall c | c in r ensures c in s {
          if c in s[..k] { } else if c in s[e..] { } else { assert s[k] == ' '; }
        }
      }
      r
  }

  function Sanitize(s: string): string
  {
    CollapseFirstRun(Escape(s))
  }

  lemma {:induction false} EscapeSafe(s: string)
    ensures HtmlSafe(Escape(s))
  {
    if s != [] {
      EscapeSafe(s[1..]);
      var e, t := Entity(s[0]), Escape(s[1..]);
      assert forall k :: |e| <= k < |e + t| ==> (e + t)[k] == t[k - |e|];
    }
  }

  /** No two spaces meet anywhere in s. */
  predicate NoDoubleSpace(s: string)
  {
    forall k :: 0 <= k < |s| ==> !DoubleSpaceAt(s, k)
  }

  lemma {:induction false} EscapeNoDoubleSpace(s: string)
    requires NoDoubleSpace(s)
    ensures NoDoubleSpace(Escape(s))
    ensures s != [] ==> Escape(s) != [] && (Escape(s)[0] == ' ' <==> s[0] == ' ')
  {
    if s != [] {
      var e, t := Entity(s[0]), Escape(s[1..]);
      assert NoDoubleSpace(s[1..]) by {
        forall k | 0 <= k < |s| - 1 ensures !DoubleSpaceAt(s[1..], k) {
          assert !DoubleSpaceAt(s, k + 1);
        }
      }
      EscapeNoDoubleSpace(s[1..]);
      forall k | 0 <= k < |e + t| ensures !DoubleSpaceAt(e + t, k) {
        if k + 1 < |e| {
        } else if k + 1 == |e| {
          if s[0] == ' ' && |s| > 1 {
            assert !DoubleSpaceAt(s, 0);
          }
        } else {
          assert !DoubleSpaceAt(t, k - |e|);
        }
      }
    }
  }

  /**
   * sanitize leaves none of < > " ' / in its answer; on a text where no two
   * spaces meet it only escapes, so unescaping gives the text back.
   */
  lemma SanitizeSpec(s: string)
    ensures HtmlSafe(Sanitize(s))
    ensures NoDoubleSpace(s) ==> Unescape(Sanitize(s)) == s
  {
    EscapeSafe(s);
    var r := Sanitize(s);
    forall k | 0 <= k < |r| ensures !Special(r[k]) {
      assert r[k] in Escape(s);
    }
    if NoDoubleSpace(s) {
      EscapeNoDoubleSpace(s);
      UnescapeEscape(s);
    }
  }

  // ----------------------------------------------------------- isTestPassed

  /** No result fails; otherwise the main octant's value must exceed the threshold. */
  function IsTestPassed(testResult: Option<Matrix>, threshold: real): bool
    requires testResult.Some? ==> |testResult.value| >= 5
  {
    testResult.Some? && MakeUserResult(testResult.value, DefaultDiff).mainOctant.value > threshold
  }

  /** A result passes exactly when some octant of its portrait exceeds the threshold. */
  lemma IsTestPassedSpec(testResult: Option<Matrix>, threshold: real)
    requires testResult.Some? ==> |testResult.value| >= 5
    ensures testResult.None? ==> !IsTestPassed(testResult, threshold)
    ensures testResult.Some? ==>
      var u := MakeUserResult(testResult.value, DefaultDiff);
      (IsTestPassed(testResult, threshold) <==> exists i :: 0 <= i < 8 && u.portrait[i].value > threshold)
  {
    if testResult.Some? {
      MainOctantIsFirstMax(testResult.value, DefaultDiff);
    }
  }
}
