/**
 * encoded-data-parser.js: the shape check on a decoded payload string and the
 * all-or-nothing result of getAndDecodeData.
 *
 * The pattern accepted by validateDecodedData is
 *   "[[" item+ "],[" ( "[" item{5} "]" ","? ){5} "]]"
 * where an item is an optional sign, one decimal digit and an optional comma.
 * A Payload is such a string broken into its parts; Render writes one back.
 * Because the comma is optional, two digits may run together into one JSON
 * number; ValidateSeparated is the corrected check. getAndDecodeData is
 * modelled as written (GetAndDecodeData) and with the corrected check
 * (GetAndDecodeDataSeparated).
 */
module DataParser {
  import opened Types
  import opened Strings

  datatype Sign = NoSign | Plus | Minus

  /** One `[+-]?\d,?` group of the pattern. */
  datatype Item = Item(sign: Sign, digit: char, comma: bool)

  /** One bracketed row of the matrix part and the optional comma after it. */
  datatype Row = Row(items: seq<Item>, comma: bool)

  /** The personal-information part and the rows of the matrix part. */
  datatype Payload = Payload(info: seq<Item>, rows: seq<Row>)

  predicate ItemsOk(items: seq<Item>)
  {
    forall k :: 0 <= k < |items| ==> IsDigit(items[k].digit)
  }

  /** The shape the pattern demands: at least one information item, five rows of five items. */
  predicate WellFormed(p: Payload)
  {
    |p.info| >= 1 && ItemsOk(p.info) && |p.rows| == 5
    && forall i :: 0 <= i < 5 ==> |p.rows[i].items| == 5 && ItemsOk(p.rows[i].items)
  }

  function SignText(s: Sign): string
  {
    match s
    case NoSign => ""
    case Plus => "+"
    case Minus => "-"
  }

  function RenderItem(it: Item): string
  {
    SignText(it.sign) + [it.digit] + (if it.comma then "," else "")
  }

  function RenderItems(items: seq<Item>): string
  {
    if items == [] then "" else RenderItem(items[0]) + RenderItems(items[1..])
  }

  function RenderRow(r: Row): string
  {
    "[" + RenderItems(r.items) + "]" + (if r.comma then "," else "")
  }

  function RenderRows(rows: seq<Row>): string
  {
    if rows == [] then "" else RenderRow(rows[0]) + RenderRows(rows[1..])
  }

  function Render(p: Payload): string
  {
    "[[" + (RenderItems(p.info) + ("],[" + (RenderRows(p.rows) + "]]")))
  }

  // ----------------------------------------------------------------- parser

  /** One item at the head of s, taking the comma after the digit when there is one. */
  function ParseItem(s: string): (r: Option<(Item, string)>)
    ensures r.Some? ==> |r.value.1| < |s|
  {
    if s == [] then None
    else
      var sign := if s[0] == '+' then Plus else if s[0] == '-' then Minus else NoSign;
      var t := if sign == NoSign then s else s[1..];
      if t == [] || !IsDigit(t[0]) then None
      else if |t| >= 2 && t[1] == ',' then Some((Item(sign, t[0], true), t[2..]))
      else Some((Item(sign, t[0], false), t[1..]))
  }

  /** As many items as stand at the head of s, and what follows them. */
  function ParseItems(s: string): (r: (seq<Item>, string))
    ensures |r.1| <= |s|
    decreases |s|
  {
    var head := ParseItem(s);
    if head.None? then ([], s)
    else
      var tail := ParseItems(head.value.1);
      ([head.value.0] + tail.0, tail.1)
  }

  function ParseRow(s: string): (r: Option<(Row, string)>)
    ensures r.Some? ==> |r.value.1| < |s|
  {
    if s == [] || s[0] != '[' then None
    else
      var (items, t) := ParseItems(s[1..]);
      if |items| != 5 || t == [] || t[0] != ']' then None
      else if |t| >= 2 && t[1] == ',' then Some((Row(items, true), t[2..]))
      else Some((Row(items, false), t[1..]))
  }

  function ParseRows(s: string, n: nat): Option<(seq<Row>, string)>
    decreases n
  {
    if n == 0 then Some(([], s))
    else
      var head := ParseRow(s);
      if head.None? then None
      else
        var tail := ParseRows(head.value.1, n - 1);
        if tail.None? then None
        else Some(([head.value.0] + tail.value.0, tail.value.1))
  }

  /** The whole string as a payload, or None when it does not have the shape. */
  function Parse(s: string): Option<Payload>
  {
    if |s| < 2 || s[..2] != "[[" then None
    else
      var info := ParseItems(s[2..]);
      if |info.0| == 0 || |info.1| < 3 || info.1[..3] != "],[" then None
      else
        var rows := ParseRows(info.1[3..], 5);
        if rows.None? || rows.value.1 != "]]" then None
        else Some(Payload(info.0, rows.value.0))
  }

  /** validateDecodedData: the anchored pattern matches the whole string. */
  predicate ValidateDecodedData(s: string)
  {
    Parse(s).Some?
  }

  // ---------------------------------------------------- parse after render

  /** Text that cannot continue the item before it: no item starts there and it is not a comma. */
  predicate EndsItems(t: string)
  {
    t == [] || (t[0] != ',' && t[0] != '+' && t[0] != '-' && !IsDigit(t[0]))
  }

  lemma ParseItemRender(it: Item, t: string)
    requires IsDigit(it.digit)
    requires !it.comma ==> t == [] || t[0] != ','
    ensures ParseItem(RenderItem(it) + t) == Some((it, t))
  {
    var s := RenderItem(it) + t;
    match it.sign
    case NoSign =>
      assert s == [it.digit] + (if it.comma then "," else "") + t;
      if it.comma { assert s[2..] == t; } else { assert s[1..] == t; }
    case Plus =>
      assert s[1..] == [it.digit] + (if it.comma then "," else "") + t;
      if it.comma { assert s[1..][2..] == t; } else { assert s[1..][1..] == t; }
    case Minus =>
      assert s[1..] == [it.digit] + (if it.comma then "," else "") + t;
      if it.comma { assert s[1..][2..] == t; } else { assert s[1..][1..] == t; }
  }

  /** What follows an item inside rendered items is never a comma. */
  lemma NextNotComma(items: seq<Item>, t: string)
    requires ItemsOk(items) && EndsItems(t)
    ensures RenderItems(items) + t == [] || (RenderItems(items) + t)[0] != ','
  {
    if items != [] {
      RenderItemsUnfold(items, t);
      assert IsDigit(items[0].digit);
      ItemOpensWithoutComma(items[0]);
      var r := RenderItem(items[0]);
      var rest := RenderItems(items[1..]) + t;
      assert (r + rest)[0] == r[0];
    }
  }

  lemma ItemOpensWithoutComma(it: Item)
    requires IsDigit(it.digit)
    ensures |RenderItem(it)| > 0 && RenderItem(it)[0] != ','
  {
    var x := SignText(it.sign) + [it.digit];
    assert x[0] == (if it.sign.NoSign? then it.digit else SignText(it.sign)[0]);
    assert RenderItem(it) == x + (if it.comma then "," else "");
  }

  /** Items followed by text that ends them parse back to the same items. */
  lemma {:induction false} ParseItemsRender(items: seq<Item>, t: string)
    requires ItemsOk(items) && EndsItems(t)
    ensures ParseItems(RenderItems(items) + t) == (items, t)
  {
    if items == [] {
      assert RenderItems(items) + t == t;
      assert ParseItem(t).None?;
    } else {
      var rest := items[1..];
      var u := RenderItems(rest) + t;
      RenderItemsUnfold(items, t);
      NextNotComma(rest, t);
      ParseItemRender(items[0], u);
      ParseItemsRender(rest, t);
      ParseItemsCons(RenderItems(items) + t, items, u, t);
    }
  }

  lemma RenderItemsUnfold(items: seq<Item>, t: string)
    requires items != []
    ensures RenderItems(items) + t == RenderItem(items[0]) + (RenderItems(items[1..]) + t)
  {
  }

  /** One item, then the items after it. */
  lemma ParseItemsCons(s: string, items: seq<Item>, u: string, t: string)
    requires items != []
    requires ParseItem(s) == Some((items[0], u))
    requires ParseItems(u) == (items[1..], t)
    ensures ParseItems(s) == (items, t)
  {
    assert [items[0]] + items[1..] == items;
  }

  lemma ParseRowRender(row: Row, t: string)
    requires |row.items| == 5 && ItemsOk(row.items)
    requires !row.comma ==> t == [] || t[0] != ','
    ensures ParseRow(RenderRow(row) + t) == Some((row, t))
  {
    var c := if row.comma then "," else "";
    var u := "]" + c + t;
    var s := RenderRow(row) + t;
    assert s == "[" + (RenderItems(row.items) + u);
    SplitAt("[", RenderItems(row.items) + u);
    ParseItemsRender(row.items, u);
    RowFrame(s, row, t);
  }

  /** The brackets and the optional comma around five accepted items. */
  lemma RowFrame(s: string, row: Row, t: string)
    requires !row.comma ==> t == [] || t[0] != ','
    requires s != [] && s[0] == '['
    requires ParseItems(s[1..]) == (row.items, "]" + (if row.comma then "," else "") + t)
    requires |row.items| == 5
    ensures ParseRow(s) == Some((row, t))
  {
    var u := "]" + (if row.comma then "," else "") + t;
    if row.comma { assert u[2..] == t; } else { assert u[1..] == t; }
  }

  /** Five well-formed rows followed by text that is not a comma parse back to the same rows. */
  lemma {:induction false} ParseRowsRender(rows: seq<Row>, t: string)
    requires forall i :: 0 <= i < |rows| ==> |rows[i].items| == 5 && ItemsOk(rows[i].items)
    requires t == [] || t[0] != ','
    ensures ParseRows(RenderRows(rows) + t, |rows|) == Some((rows, t))
  {
    if rows == [] {
      assert RenderRows(rows) + t == t;
    } else {
      var rest := rows[1..];
      var u := RenderRows(rest) + t;
      var s := RenderRows(rows) + t;
      RenderRowsUnfold(rows, t);
      RenderRowsHead(rest, t);
      ParseRowRender(rows[0], u);
      ParseRowsRender(rest, t);
      ParseRowsCons(s, rows, u, t);
    }
  }

  lemma RenderRowsUnfold(rows: seq<Row>, t: string)
    requires rows != []
    ensures RenderRows(rows) + t == RenderRow(rows[0]) + (RenderRows(rows[1..]) + t)
  {
  }

  /** One row, then n - 1 more, make n rows. */
  lemma ParseRowsCons(s: string, rows: seq<Row>, u: string, t: string)
    requires rows != []
    requires ParseRow(s) == Some((rows[0], u))
    requires ParseRows(u, |rows| - 1) == Some((rows[1..], t))
    ensures ParseRows(s, |rows|) == Some((rows, t))
  {
    assert [rows[0]] + rows[1..] == rows;
  }

  lemma RenderRowsHead(rows: seq<Row>, t: string)
    requires t == [] || t[0] != ','
    ensures var u := RenderRows(rows) + t; u == [] || u[0] != ','
  {
    if rows != [] {
      RenderRowsUnfold(rows, t);
      RowOpensBracket(rows[0]);
      var r := RenderRow(rows[0]);
      var rest := RenderRows(rows[1..]) + t;
      assert (r + rest)[0] == r[0];
    }
  }

  lemma RowOpensBracket(row: Row)
    ensures |RenderRow(row)| > 0 && RenderRow(row)[0] == '['
  {
    var x := "[" + RenderItems(row.items);
    var y := x + "]";
    assert x[0] == '[';
    assert y[0] == x[0];
    assert RenderRow(row) == y + (if row.comma then "," else "");
  }

  /** Every well-formed payload is accepted, and parses back to itself. */
  lemma ParseRender(p: Payload)
    requires WellFormed(p)
    ensures Parse(Render(p)) == Some(p)
    ensures ValidateDecodedData(Render(p))
  {
    var t := "],[" + (RenderRows(p.rows) + "]]");
    RenderInfoPart(p.info, p.rows);
    RenderRowsPart(p.rows);
    ParseItemsRender(p.info, t);
    ParseRowsRender(p.rows, "]]");
    ParseFrame(Render(p), p.info, t, p.rows);
  }

  /** Where the information part sits in a rendered payload. */
  lemma RenderInfoPart(info: seq<Item>, rows: seq<Row>)
    ensures var s := Render(Payload(info, rows));
      |s| >= 2 && s[..2] == "[[" && s[2..] == RenderItems(info) + ("],[" + (RenderRows(rows) + "]]"))
  {
    SplitAt("[[", RenderItems(info) + ("],[" + (RenderRows(rows) + "]]")));
  }

  /** Where the rows sit in what follows the information part. */
  lemma RenderRowsPart(rows: seq<Row>)
    ensures var t := "],[" + (RenderRows(rows) + "]]");
      |t| >= 3 && t[..3] == "],[" && t[3..] == RenderRows(rows) + "]]" && EndsItems(t)
  {
    SplitAt("],[", RenderRows(rows) + "]]");
  }

  /** The outer brackets around an accepted information part and five accepted rows. */
  lemma ParseFrame(s: string, info: seq<Item>, t: string, rows: seq<Row>)
    requires |s| >= 2 && s[..2] == "[[" && ParseItems(s[2..]) == (info, t) && |info| > 0
    requires |t| >= 3 && t[..3] == "],[" && ParseRows(t[3..], 5) == Some((rows, "]]"))
    ensures Parse(s) == Some(Payload(info, rows))
  {
  }

  // ----------------------------------------------------- render after parse

  lemma ParseItemSound(s: string)
    requires ParseItem(s).Some?
    ensures IsDigit(ParseItem(s).value.0.digit)
    ensures RenderItem(ParseItem(s).value.0) + ParseItem(s).value.1 == s
  {
    var it := ParseItem(s).value.0;
    if it.sign == NoSign {
      if it.comma { assert s == s[..2] + s[2..]; } else { assert s == s[..1] + s[1..]; }
    } else {
      var t := s[1..];
      if it.comma { assert s == [s[0]] + t[..2] + t[2..]; } else { assert s == [s[0]] + t[..1] + t[1..]; }
    }
  }

  lemma {:induction false} ParseItemsSound(s: string)
    ensures ItemsOk(ParseItems(s).0)
    ensures RenderItems(ParseItems(s).0) + ParseItems(s).1 == s
    decreases |s|
  {
    var pi := ParseItem(s);
    if pi.Some? {
      var it, rest := pi.value.0, pi.value.1;
      ParseItemSound(s);
      ParseItemsSound(rest);
      var items, r := ParseItems(rest).0, ParseItems(rest).1;
      assert ParseItems(s) == ([it] + items, r);
      assert ([it] + items)[1..] == items;
      assert RenderItems([it] + items) == RenderItem(it) + RenderItems(items);
    }
  }

  lemma ParseRowSound(s: string)
    requires ParseRow(s).Some?
    ensures |ParseRow(s).value.0.items| == 5 && ItemsOk(ParseRow(s).value.0.items)
    ensures RenderRow(ParseRow(s).value.0) + ParseRow(s).value.1 == s
  {
    ParseRowParts(s);
    ParseItemsSound(s[1..]);
    var row, rest := ParseRow(s).value.0, ParseRow(s).value.1;
    var c := if row.comma then "," else "";
    var body := RenderItems(row.items);
    assert body + ("]" + c + rest) == s[1..];
    assert RenderRow(row) + rest == "[" + (body + ("]" + c + rest));
  }

  /** An accepted row: an opening bracket, the items, the closing bracket, the optional comma, the rest. */
  lemma ParseRowParts(s: string)
    requires ParseRow(s).Some?
    ensures s == "[" + s[1..]
    ensures ParseRow(s).value.0.items == ParseItems(s[1..]).0 && |ParseItems(s[1..]).0| == 5
    ensures ParseItems(s[1..]).1 == "]" + (if ParseRow(s).value.0.comma then "," else "") + ParseRow(s).value.1
  {
    var t := ParseItems(s[1..]).1;
    if ParseRow(s).value.0.comma { assert t == t[..2] + t[2..]; } else { assert t == t[..1] + t[1..]; }
  }

  lemma {:induction false} ParseRowsSound(s: string, n: nat)
    requires ParseRows(s, n).Some?
    ensures |ParseRows(s, n).value.0| == n
    ensures forall i :: 0 <= i < n ==>
      |ParseRows(s, n).value.0[i].items| == 5 && ItemsOk(ParseRows(s, n).value.0[i].items)
    ensures RenderRows(ParseRows(s, n).value.0) + ParseRows(s, n).value.1 == s
    decreases n
  {
    if n > 0 {
      ParseRowsStep(s, n);
      var row, rest := ParseRow(s).value.0, ParseRow(s).value.1;
      ParseRowSound(s);
      ParseRowsSound(rest, n - 1);
      var rows, r := ParseRows(rest, n - 1).value.0, ParseRows(rest, n - 1).value.1;
      RenderRowsCons(row, rows);
      assert RenderRows([row] + rows) + r == RenderRow(row) + (RenderRows(rows) + r);
      forall i | 0 <= i < n
        ensures |([row] + rows)[i].items| == 5 && ItemsOk(([row] + rows)[i].items)
      {
        if i > 0 { assert ([row] + rows)[i] == rows[i - 1]; }
      }
    }
  }

  /** n accepted rows are one accepted row and n - 1 more. */
  lemma ParseRowsStep(s: string, n: nat)
    requires n > 0 && ParseRows(s, n).Some?
    ensures ParseRow(s).Some? && ParseRows(ParseRow(s).value.1, n - 1).Some?
    ensures ParseRows(s, n).value
      == ([ParseRow(s).value.0] + ParseRows(ParseRow(s).value.1, n - 1).value.0,
          ParseRows(ParseRow(s).value.1, n - 1).value.1)
  {
  }

  lemma RenderRowsCons(row: Row, rows: seq<Row>)
    ensures RenderRows([row] + rows) == RenderRow(row) + RenderRows(rows)
  {
    assert ([row] + rows)[1..] == rows;
  }

  /** Every accepted string is the rendering of the well-formed payload it parses to. */
  lemma ParseSound(s: string)
    requires ValidateDecodedData(s)
    ensures WellFormed(Parse(s).value) && Render(Parse(s).value) == s
  {
    var info := ParseItems(s[2..]);
    var t := info.1;
    var rows := ParseRows(t[3..], 5);
    assert Parse(s) == Some(Payload(info.0, rows.value.0));
    ParseItemsSound(s[2..]);
    ParseRowsSound(t[3..], 5);
    Reassemble(s, RenderItems(info.0), t, RenderRows(rows.value.0));
  }

  /** The bracket frame around the two parts puts the string back together. */
  lemma Reassemble(s: string, a: string, t: string, b: string)
    requires |s| >= 2 && s[..2] == "[[" && a + t == s[2..]
    requires |t| >= 3 && t[..3] == "],[" && b + "]]" == t[3..]
    ensures "[[" + (a + ("],[" + (b + "]]"))) == s
  {
    assert t == t[..3] + t[3..];
    assert s == s[..2] + s[2..];
  }

  /**
   * The pattern accepts a string exactly when it renders a well-formed
   * payload: at least one information item, then five rows of five items.
   */
  lemma ValidateSpec(s: string)
    ensures ValidateDecodedData(s) <==> exists p :: WellFormed(p) && Render(p) == s
  {
    if ValidateDecodedData(s) {
      ParseSound(s);
    }
    if exists p :: WellFormed(p) && Render(p) == s {
      var p :| WellFormed(p) && Render(p) == s;
      ParseRender(p);
    }
  }

  // ---------------------------------------------------- the matrix digits

  function CountDigits(s: string): nat
  {
    if s == [] then 0 else (if IsDigit(s[0]) then 1 else 0) + CountDigits(s[1..])
  }

  lemma {:induction false} CountDigitsAppend(a: string, b: string)
    ensures CountDigits(a + b) == CountDigits(a) + CountDigits(b)
  {
    if a == [] {
      assert a + b == b;
    } else {
      assert (a + b)[1..] == a[1..] + b;
      CountDigitsAppend(a[1..], b);
    }
  }

  lemma CountDigitsPunctuation(c: char)
    requires !IsDigit(c)
    ensures CountDigits([c]) == 0
  {
    assert [c][1..] == [];
  }

  lemma CountDigitsItem(it: Item)
    requires IsDigit(it.digit)
    ensures CountDigits(RenderItem(it)) == 1
  {
    var c := if it.comma then "," else "";
    CountDigitsAppend(SignText(it.sign) + [it.digit], c);
    CountDigitsAppend(SignText(it.sign), [it.digit]);
    assert [it.digit][1..] == [];
    if it.comma { CountDigitsPunctuation(','); }
    match it.sign
    case NoSign =>
    case Plus => CountDigitsPunctuation('+');
    case Minus => CountDigitsPunctuation('-');
  }

  lemma {:induction false} CountDigitsItems(items: seq<Item>)
    requires ItemsOk(items)
    ensures CountDigits(RenderItems(items)) == |items|
  {
    if items != [] {
      CountDigitsAppend(RenderItem(items[0]), RenderItems(items[1..]));
      CountDigitsItem(items[0]);
      CountDigitsItems(items[1..]);
    }
  }

  lemma {:induction false} CountDigitsRows(rows: seq<Row>)
    requires forall i :: 0 <= i < |rows| ==> |rows[i].items| == 5 && ItemsOk(rows[i].items)
    ensures CountDigits(RenderRows(rows)) == 5 * |rows|
  {
    if rows != [] {
      var row := rows[0];
      var c := if row.comma then "," else "";
      CountDigitsAppend(RenderRow(row), RenderRows(rows[1..]));
      CountDigitsAppend("[" + RenderItems(row.items) + "]", c);
      CountDigitsAppend("[" + RenderItems(row.items), "]");
      CountDigitsAppend("[", RenderItems(row.items));
      CountDigitsPunctuation('[');
      CountDigitsPunctuation(']');
      if row.comma { CountDigitsPunctuation(','); }
      CountDigitsItems(row.items);
      CountDigitsRows(rows[1..]);
    }
  }

  /** The value of one item: its digit with its sign. */
  function ItemValue(it: Item): (v: int)
    requires IsDigit(it.digit)
    ensures -9 <= v <= 9
  {
    if it.sign == Minus then -(DigitValue(it.digit) as int) else DigitValue(it.digit) as int
  }

  /** The matrix part read item by item. */
  function Cells(p: Payload): (m: Matrix)
    requires WellFormed(p)
  {
    seq(5, i requires 0 <= i < 5 => seq(5, j requires 0 <= j < 5 => ItemValue(p.rows[i].items[j])))
  }

  /**
   * The matrix part of an accepted string holds exactly 25 digit characters,
   * one per cell of a 5x5 matrix whose cells are single signed digits.
   */
  lemma MatrixPartSpec(s: string)
    requires ValidateDecodedData(s)
    ensures WellFormed(Parse(s).value)
    ensures var p := Parse(s).value;
      CountDigits(RenderRows(p.rows)) == 25
      && IsMatrix(Cells(p))
      && forall i, j :: 0 <= i < 5 && 0 <= j < 5 ==> -9 <= Cells(p)[i][j] <= 9
  {
    ParseSound(s);
    CountDigitsRows(Parse(s).value.rows);
  }

  // ------------------------------------------- the matrix as JSON reads it

  predicate AllDigits(d: string)
  {
    forall k :: 0 <= k < |d| ==> IsDigit(d[k])
  }

  /** The int production of JSON (section 6 of RFC 8259): digits, no leading zero unless alone. */
  predicate JsonInt(d: string)
  {
    |d| >= 1 && AllDigits(d) && (d[0] == '0' ==> |d| == 1)
  }

  /** One element of a JSON array of integers: an optional '-' and an int; None where JSON.parse fails. */
  function ReadInteger(t: string): Option<int>
  {
    if |t| >= 1 && t[0] == '-' && JsonInt(t[1..]) then Some(-(DigitsValue(t[1..]) as int))
    else if JsonInt(t) then Some(DigitsValue(t) as int)
    else None
  }

  /** The elements JSON.parse reads between the brackets of a non-empty integer array. */
  function ReadArray(inner: string): (r: seq<Option<int>>)
    ensures |r| == |Split(inner, ',')|
  {
    var parts := Split(inner, ',');
    seq(|parts|, k requires 0 <= k < |parts| => ReadInteger(parts[k]))
  }

  /** Every item but the last carries its comma, and the last carries none. */
  predicate Separated(items: seq<Item>)
  {
    forall k :: 0 <= k < |items| ==> items[k].comma == (k < |items| - 1)
  }

  predicate SeparatedPayload(p: Payload)
  {
    Separated(p.info) && forall i :: 0 <= i < |p.rows| ==> Separated(p.rows[i].items)
  }

  /**
   * The check the pattern evidently means: its shape, with a comma between
   * any two items, so that no two digits run together into one number.
   */
  predicate ValidateSeparated(s: string)
  {
    ValidateDecodedData(s) && SeparatedPayload(Parse(s).value)
  }

  /** The corrected check accepts exactly the renderings of well-formed, comma-separated payloads. */
  lemma ValidateSeparatedSpec(s: string)
    ensures ValidateSeparated(s) <==> exists p :: WellFormed(p) && SeparatedPayload(p) && Render(p) == s
  {
    if ValidateSeparated(s) {
      ParseSound(s);
    }
    if exists p :: WellFormed(p) && SeparatedPayload(p) && Render(p) == s {
      var p :| WellFormed(p) && SeparatedPayload(p) && Render(p) == s;
      ParseRender(p);
    }
  }

  /** An item without its comma. */
  function Bare(it: Item): string
  {
    SignText(it.sign) + [it.digit]
  }

  /** A bare item reads as its signed digit; JSON has no '+' sign. */
  lemma ReadBare(it: Item)
    requires IsDigit(it.digit)
    ensures ReadInteger(Bare(it)) == if it.sign == Plus then None else Some(ItemValue(it))
  {
    var t := Bare(it);
    assert [it.digit][1..] == [];
    assert DigitsValue([it.digit]) == DigitValue(it.digit) by {
      assert [it.digit][..0] == [];
    }
    match it.sign
    case NoSign =>
      assert t == [it.digit] && t[0] != '-';
    case Minus =>
      assert t[1..] == [it.digit];
    case Plus =>
      assert t[0] == '+';
  }

  /** Separated items split at their commas into the bare items. */
  lemma {:induction false} SplitSeparated(items: seq<Item>)
    requires |items| >= 1 && Separated(items) && ItemsOk(items)
    ensures Split(RenderItems(items), ',') == seq(|items|, k requires 0 <= k < |items| => Bare(items[k]))
  {
    var it := items[0];
    assert IsDigit(it.digit);
    assert ',' !in Bare(it) by {
      match it.sign
      case NoSign => assert Bare(it) == [it.digit];
      case Plus => assert Bare(it) == ['+', it.digit];
      case Minus => assert Bare(it) == ['-', it.digit];
    }
    if |items| == 1 {
      assert RenderItems(items) == Bare(it) + "";
      assert Bare(it) + "" == Bare(it);
      SplitWithout(Bare(it), ',');
    } else {
      var rest := items[1..];
      assert Separated(rest) by {
        forall k | 0 <= k < |rest| ensures rest[k].comma == (k < |rest| - 1) {
          assert rest[k] == items[k + 1];
        }
      }
      SplitSeparated(rest);
      assert RenderItems(items) == Bare(it) + [','] + RenderItems(rest);
      SplitAtSeparator(Bare(it), RenderItems(rest), ',');
    }
  }

  /** JSON.parse reads one field per separated item, holding the item's value. */
  lemma SeparatedItemsRead(items: seq<Item>)
    requires |items| >= 1 && Separated(items) && ItemsOk(items)
    ensures |ReadArray(RenderItems(items))| == |items|
    ensures forall k :: 0 <= k < |items| ==>
      ReadArray(RenderItems(items))[k] == if items[k].sign == Plus then None else Some(ItemValue(items[k]))
  {
    SplitSeparated(items);
    forall k | 0 <= k < |items|
      ensures ReadArray(RenderItems(items))[k] == if items[k].sign == Plus then None else Some(ItemValue(items[k]))
    {
      ReadBare(items[k]);
    }
  }

  /**
   * With the corrected check, each accepted row reads as exactly five JSON
   * fields, and field j is cell j of the item-by-item matrix (a '+' sign,
   * which JSON refuses, makes JSON.parse fail instead).
   */
  lemma SeparatedMatrixRead(s: string)
    requires ValidateSeparated(s)
    ensures WellFormed(Parse(s).value)
    ensures var p := Parse(s).value;
      forall i :: 0 <= i < 5 ==>
        |ReadArray(RenderItems(p.rows[i].items))| == 5
        && forall j :: 0 <= j < 5 ==>
          ReadArray(RenderItems(p.rows[i].items))[j]
            == if p.rows[i].items[j].sign == Plus then None else Some(Cells(p)[i][j])
  {
    ParseSound(s);
    var p := Parse(s).value;
    forall i | 0 <= i < 5
      ensures |ReadArray(RenderItems(p.rows[i].items))| == 5
      ensures forall j :: 0 <= j < 5 ==>
          ReadArray(RenderItems(p.rows[i].items))[j]
            == if p.rows[i].items[j].sign == Plus then None else Some(Cells(p)[i][j])
    {
      SeparatedItemsRead(p.rows[i].items);
    }
  }

  function Digit(d: char, comma: bool): Item { Item(NoSign, d, comma) }

  /** A matrix row whose first two items carry no comma between them. */
  function CommaLessRow(): Row
  {
    Row([Digit('1', false), Digit('2', true), Digit('3', true), Digit('4', true), Digit('5', false)], true)
  }

  /** A payload with CommaLessRow as its first row and separated rows after it. */
  function CommaLessPayload(): Payload
  {
    var full := [Digit('1', true), Digit('2', true), Digit('3', true), Digit('4', true), Digit('5', false)];
    Payload([Digit('1', false)], [CommaLessRow(), Row(full, true), Row(full, true), Row(full, true), Row(full, false)])
  }

  lemma CommaLessRowText()
    ensures RenderItems(CommaLessRow().items) == "12,3,4,5"
  {
    var items := CommaLessRow().items;
    assert RenderItems(items[4..]) == "5" by {
      assert items[4..][1..] == [];
    }
    assert RenderItems(items[3..]) == "4," + "5" by {
      assert items[3..][1..] == items[4..];
    }
    assert RenderItems(items[2..]) == "3," + "4,5" by {
      assert items[2..][1..] == items[3..];
    }
    assert RenderItems(items[1..]) == "2," + "3,4,5" by {
      assert items[1..][1..] == items[2..];
    }
  }

  lemma SplitFour(a: string, b: string, c: string, d: string)
    requires ',' !in a && ',' !in b && ',' !in c && ',' !in d
    ensures Split(a + [','] + (b + [','] + (c + [','] + d)), ',') == [a, b, c, d]
  {
    SplitWithout(d, ',');
    SplitAtSeparator(c, d, ',');
    SplitAtSeparator(b, c + [','] + d, ',');
    SplitAtSeparator(a, b + [','] + (c + [','] + d), ',');
  }

  lemma SplitCommaLessText()
    ensures Split("12,3,4,5", ',') == ["12", "3", "4", "5"]
  {
    SplitFour("12", "3", "4", "5");
    assert "12" + [','] + ("3" + [','] + ("4" + [','] + "5")) == "12,3,4,5";
  }

  lemma ReadOneDigit(c: char)
    requires IsDigit(c)
    ensures ReadInteger([c]) == Some(DigitValue(c) as int)
  {
    var t := [c];
    assert t[0] == c && t[..0] == [] && t[|t| - 1] == c;
    assert DigitsValue(t[..0]) == 0;
    assert DigitsValue(t) == DigitValue(c);
    assert JsonInt(t) && t[0] != '-';
  }

  lemma ReadTwelve()
    ensures ReadInteger("12") == Some(12)
  {
    assert "12"[..1] == "1" && "1"[..0] == "";
  }

  lemma ReadCommaLessText()
    ensures ReadArray("12,3,4,5") == [Some(12), Some(3), Some(4), Some(5)]
  {
    SplitCommaLessText();
    ReadTwelve();
    ReadOneDigit('3');
    ReadOneDigit('4');
    ReadOneDigit('5');
    ReadFourParts("12,3,4,5", "12", "3", "4", "5");
  }

  lemma ReadFourParts(inner: string, a: string, b: string, c: string, d: string)
    requires Split(inner, ',') == [a, b, c, d]
    ensures ReadArray(inner) == [ReadInteger(a), ReadInteger(b), ReadInteger(c), ReadInteger(d)]
  {
  }

  /**
   * The pattern as written: items "1" and "2" without a comma between them
   * pass the check, and JSON.parse then reads the row "[12,3,4,5]" as four
   * numbers, one of them 12.
   */
  lemma CommaLessRowAccepted()
    ensures ValidateDecodedData(Render(CommaLessPayload()))
    ensures !SeparatedPayload(CommaLessPayload())
    ensures RenderItems(CommaLessPayload().rows[0].items) == "12,3,4,5"
    ensures ReadArray(RenderItems(CommaLessPayload().rows[0].items)) == [Some(12), Some(3), Some(4), Some(5)]
  {
    var p := CommaLessPayload();
    assert WellFormed(p);
    ParseRender(p);
    assert !Separated(p.rows[0].items) by {
      assert !p.rows[0].items[0].comma;
    }
    CommaLessRowText();
    ReadCommaLessText();
  }

  // ------------------------------------------------------ getAndDecodeData

  /** The { encoded, decoded, data } result; null is None. */
  datatype Decoded<D> = Decoded(encoded: Option<string>, decoded: Option<string>, data: Option<D>)

  /** The value getAndDecodeData decodes: the trimmed argument when it is non-empty, else the URL value. */
  function InputValue(encodedValue: Option<string>, urlValue: Option<string>): Option<string>
  {
    if encodedValue.Some? && encodedValue.value != "" then Some(Trim(encodedValue.value)) else urlValue
  }

  /**
   * The body of getAndDecodeData with its shape check as a parameter. The
   * query-string look-up, the base64 decoding, the JSON check and JSON.parse
   * are foreign and come in as parameters: urlValue is what parseUrl
   * returned, decode the base64-to-ASCII step, isJson the JSON.parse
   * try/catch and jsonParse its value.
   */
  function DecodeWith<D>(validate: string -> bool, encodedValue: Option<string>, urlValue: Option<string>,
                         decode: string -> string, isJson: string -> bool,
                         jsonParse: string -> D): Decoded<D>
  {
    var value := InputValue(encodedValue, urlValue);
    if value.None? || value.value == "" then Decoded(None, None, None)
    else
      var decoded := decode(value.value);
      if !validate(decoded) || !isJson(decoded) then Decoded(None, None, None)
      else Decoded(Some(value.value), Some(decoded), Some(jsonParse(decoded)))
  }

  /** getAndDecodeData as written, with the pattern validateDecodedData. */
  function GetAndDecodeData<D>(encodedValue: Option<string>, urlValue: Option<string>,
                               decode: string -> string, isJson: string -> bool,
                               jsonParse: string -> D): Decoded<D>
  {
    DecodeWith(ValidateDecodedData, encodedValue, urlValue, decode, isJson, jsonParse)
  }

  /**
   * getAndDecodeData with the corrected check ValidateSeparated, which does
   * not let two digits run together (CommaLessRowAccepted).
   */
  function GetAndDecodeDataSeparated<D>(encodedValue: Option<string>, urlValue: Option<string>,
                                        decode: string -> string, isJson: string -> bool,
                                        jsonParse: string -> D): Decoded<D>
  {
    DecodeWith(ValidateSeparated, encodedValue, urlValue, decode, isJson, jsonParse)
  }

  /**
   * The three fields are all null or all present; they are present exactly
   * when the input is non-empty and its decoding passes both checks, and then
   * encoded is the trimmed input (or the query value) and decoded renders a
   * well-formed payload.
   */
  lemma GetAndDecodeDataSpec<D>(encodedValue: Option<string>, urlValue: Option<string>,
                                decode: string -> string, isJson: string -> bool,
                                jsonParse: string -> D)
    ensures var r := GetAndDecodeData(encodedValue, urlValue, decode, isJson, jsonParse);
      var value := InputValue(encodedValue, urlValue);
      && r.encoded.Some? == r.decoded.Some? && r.decoded.Some? == r.data.Some?
      && (r.encoded.Some? <==>
            value.Some? && value.value != "" && ValidateDecodedData(decode(value.value)) && isJson(decode(value.value)))
      && (r.encoded.Some? ==>
            r.encoded.value == value.value && r.decoded.value == decode(value.value)
            && r.data.value == jsonParse(r.decoded.value)
            && exists p :: WellFormed(p) && Render(p) == r.decoded.value)
  {
    var r := GetAndDecodeData(encodedValue, urlValue, decode, isJson, jsonParse);
    if r.decoded.Some? {
      ValidateSpec(r.decoded.value);
    }
  }

  /** The same for the corrected pipeline, whose decoded payload is also comma-separated. */
  lemma GetAndDecodeDataSeparatedSpec<D>(encodedValue: Option<string>, urlValue: Option<string>,
                                         decode: string -> string, isJson: string -> bool,
                                         jsonParse: string -> D)
    ensures var r := GetAndDecodeDataSeparated(encodedValue, urlValue, decode, isJson, jsonParse);
      var value := InputValue(encodedValue, urlValue);
      && r.encoded.Some? == r.decoded.Some? && r.decoded.Some? == r.data.Some?
      && (r.encoded.Some? <==>
            value.Some? && value.value != "" && ValidateSeparated(decode(value.value)) && isJson(decode(value.value)))
      && (r.encoded.Some? ==>
            r.encoded.value == value.value && r.decoded.value == decode(value.value)
            && r.data.value == jsonParse(r.decoded.value)
            && exists p :: WellFormed(p) && SeparatedPayload(p) && Render(p) == r.decoded.value)
  {
    var r := GetAndDecodeDataSeparated(encodedValue, urlValue, decode, isJson, jsonParse);
    if r.decoded.Some? {
      ValidateSeparatedSpec(r.decoded.value);
    }
  }

  /**
   * The corrected pipeline only drops results: whatever it returns, the one
   * as written returns too, and the two differ exactly on decoded texts of
   * the pattern's shape whose items are not all comma-separated.
   */
  lemma SeparatedAgrees<D>(encodedValue: Option<string>, urlValue: Option<string>,
                           decode: string -> string, isJson: string -> bool,
                           jsonParse: string -> D)
    ensures var r := GetAndDecodeData(encodedValue, urlValue, decode, isJson, jsonParse);
      var q := GetAndDecodeDataSeparated(encodedValue, urlValue, decode, isJson, jsonParse);
      && (q.encoded.Some? ==> q == r)
      && (q != r <==> r.decoded.Some? && !SeparatedPayload(Parse(r.decoded.value).value))
  {
  }
}
