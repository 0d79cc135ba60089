/** The failure magnifiers: the extra lines a leaf's failure message carries
    to show why a comparison failed. */
module Magnifiers {
  import opened Wrappers
  import opened Text
  import opened Values
  import opened Expressions
  import opened Failures
  import opened FirstDifference
  import opened Evaluation
  import Printer
  import Resources

  /** The magnifier a leaf carries. The binary one keeps the comparison and
      evaluates its operands only when asked for its text; the other two are
      built from values read when the predicate is decomposed. */
  datatype Magnifier =
    | Empty
    | BinaryMagnifier(tag: NodeType, left: Expr, right: Expr)
    | StringEquality(actualText: Option<string>, expectedText: Option<string>)
    | SameSequence(actualItems: Option<seq<Value>>, expectedItems: Option<seq<Value>>, elementDefault: Value)

  // ---------------------------------------------------------------------
  // String equality.

  /** Strings up to this length are shown whole. */
  const MaxAcceptableLength: nat := 40
  /** The length of the window shown of a longer string. */
  const WindowLength: nat := 40
  /** How far before the difference the window starts, when it can. */
  const WindowMiddle: nat := 20

  /** Where the window over a long string starts: 20 characters before the
      difference, clamped to the start and to the end of the string. */
  function WindowStart(length: nat, pos: int): (start: int)
    requires length > MaxAcceptableLength
    ensures 0 <= start && start + WindowLength <= length
    ensures 0 <= pos < length ==> start <= pos < start + WindowLength
    ensures WindowMiddle <= pos && pos + WindowMiddle <= length ==> pos - start == WindowMiddle
    ensures pos < WindowMiddle ==> start == 0
    ensures WindowMiddle <= pos && pos + WindowMiddle > length ==> start == length - WindowLength
  {
    if pos - WindowMiddle < 0 then 0
    else if pos + WindowMiddle > length then length - WindowLength
    else pos - WindowMiddle
  }

  /** `GetStringToShow`: a short string whole; of a longer one the
      40-character window, with an ellipsis before it when it does not start
      the string and after it when it does not end the string. */
  function GetStringToShow(original: string, pos: int): (r: string)
    ensures |original| <= MaxAcceptableLength ==> r == original
  {
    if |original| <= MaxAcceptableLength then original
    else
      var start := WindowStart(|original|, pos);
      (if start > 0 then Resources.Ellipsis else "")
      + original[start..start + WindowLength]
      + (if start + WindowLength < |original| then Resources.Ellipsis else "")
  }

  /** A longer string is shown as its 40-character window, with an ellipsis
      standing for each end that is cut off; at least one end always is. */
  lemma LongStringShown(original: string, pos: int)
    requires |original| > MaxAcceptableLength
    ensures var start := WindowStart(|original|, pos);
      var lead := if start > 0 then |Resources.Ellipsis| else 0;
      var trail := if start + WindowLength < |original| then |Resources.Ellipsis| else 0;
      var r := GetStringToShow(original, pos);
      && |r| == lead + WindowLength + trail
      && r[lead..lead + WindowLength] == original[start..start + WindowLength]
      && r[..lead] == (if start > 0 then Resources.Ellipsis else "")
      && r[lead + WindowLength..] == (if trail > 0 then Resources.Ellipsis else "")
      && lead + trail > 0
  {
    var start := WindowStart(|original|, pos);
    var lead := if start > 0 then Resources.Ellipsis else "";
    var tail := if start + WindowLength < |original| then Resources.Ellipsis else "";
    WindowParts(lead, original[start..start + WindowLength], tail);
  }

  lemma WindowParts(lead: string, window: string, tail: string)
    ensures var r := lead + window + tail;
      && |r| == |lead| + |window| + |tail|
      && r[..|lead|] == lead
      && r[|lead|..|lead| + |window|] == window
      && r[|lead| + |window|..] == tail
  {
  }

  /** The index at which the character at `pos` appears in the text shown of
      a string of `length` characters. */
  function ShownIndex(length: nat, pos: int): int
  {
    if length <= MaxAcceptableLength then pos
    else
      var start := WindowStart(length, pos);
      (if start > 0 then |Resources.Ellipsis| else 0) + pos - start
  }

  /** The character at the difference is always on show, at `ShownIndex`. */
  lemma ShownCharacter(original: string, pos: int)
    requires 0 <= pos < |original|
    ensures 0 <= ShownIndex(|original|, pos) < |GetStringToShow(original, pos)|
    ensures GetStringToShow(original, pos)[ShownIndex(|original|, pos)] == original[pos]
  {
    if |original| > MaxAcceptableLength {
      var start := WindowStart(|original|, pos);
      var lead := if start > 0 then Resources.Ellipsis else "";
      var tail := if start + WindowLength < |original| then Resources.Ellipsis else "";
      WindowedCharacter(original, pos, start, lead, original[start..start + WindowLength], tail);
    }
  }

  lemma WindowedCharacter(original: string, pos: int, start: int, lead: string, window: string, tail: string)
    requires MaxAcceptableLength < |original| && 0 <= pos < |original|
    requires 0 <= start <= pos < start + WindowLength <= |original|
    requires window == original[start..start + WindowLength]
    requires GetStringToShow(original, pos) == lead + window + tail
    requires ShownIndex(|original|, pos) == |lead| + (pos - start)
    ensures 0 <= ShownIndex(|original|, pos) < |GetStringToShow(original, pos)|
    ensures GetStringToShow(original, pos)[ShownIndex(|original|, pos)] == original[pos]
  {
    MiddleIndex(lead, window, tail, pos - start);
  }

  lemma MiddleIndex(lead: string, window: string, tail: string, k: int)
    requires 0 <= k < |window|
    ensures |lead + window + tail| == |lead| + |window| + |tail|
    ensures (lead + window + tail)[|lead| + k] == window[k]
  {
  }

  /** The marker line: `length` underscores with a caret at `pos`. */
  function CaretLine(length: nat, pos: nat): (r: string)
    requires pos < length
    ensures |r| == length && r[pos] == '^'
    ensures forall i :: 0 <= i < length && i != pos ==> r[i] == '_'
  {
    seq(length, i requires 0 <= i < length => if i == pos then '^' else '_')
  }

  /** `StringEqualityFailureMagnifier.Message`: nothing when either string
      is null or they are equal; otherwise the 1-based position of the first
      difference, both strings and the marker line, each shown through the
      window around the difference and ended by a line break. The difference
      is always inside the marker line. */
  function StringEqualityMessage(actual: Option<string>, expected: Option<string>): (r: string)
    ensures r == "" <==> actual.None? || expected.None? || actual == expected
    ensures actual.Some? && expected.Some? && actual != expected ==>
      var d := DefaultPositionOfFirstDifference(actual.value, expected.value);
      && 0 <= d < Max(|actual.value|, |expected.value|)
      && r == Line(Resources.StringDiffPos(IntToString(d + 1)))
            + Line(GetStringToShow(actual.value, d))
            + Line(GetStringToShow(expected.value, d))
            + Line(GetStringToShow(CaretLine(Max(|actual.value|, |expected.value|), d), d))
  {
    if actual.None? || expected.None? then ""
    else
      var a := actual.value;
      var e := expected.value;
      var d := DefaultPositionOfFirstDifference(a, e);
      if d < 0 then ""
      else
        var caret := CaretLine(Max(|a|, |e|), d);
        Line(Resources.StringDiffPos(IntToString(d + 1)))
        + Line(GetStringToShow(a, d))
        + Line(GetStringToShow(e, d))
        + Line(GetStringToShow(caret, d))
  }

  /** For two strings of the same length the shown texts line up: the caret
      stands where the shown strings differ. */
  lemma CaretPointsAtDifference(actual: string, expected: string)
    requires |actual| == |expected| && actual != expected
    ensures var d := DefaultPositionOfFirstDifference(actual, expected);
      var k := ShownIndex(|actual|, d);
      var caret := CaretLine(|actual|, d);
      && 0 <= d < |actual|
      && 0 <= k < |GetStringToShow(actual, d)|
      && 0 <= k < |GetStringToShow(expected, d)|
      && 0 <= k < |GetStringToShow(caret, d)|
      && GetStringToShow(caret, d)[k] == '^'
      && GetStringToShow(actual, d)[k] != GetStringToShow(expected, d)[k]
  {
    var d := DefaultPositionOfFirstDifference(actual, expected);
    ShownCharacter(actual, d);
    ShownCharacter(expected, d);
    ShownCharacter(CaretLine(|actual|, d), d);
  }

  /** Strings of at most 40 characters are shown whole, and so is their
      marker line. */
  lemma ShortStringsShownWhole(actual: string, expected: string)
    requires |actual| <= MaxAcceptableLength && |expected| <= MaxAcceptableLength
    requires actual != expected
    ensures var d := DefaultPositionOfFirstDifference(actual, expected);
      && 0 <= d < Max(|actual|, |expected|)
      && StringEqualityMessage(Some(actual), Some(expected))
         == Line(Resources.StringDiffPos(IntToString(d + 1)))
          + Line(actual) + Line(expected) + Line(CaretLine(Max(|actual|, |expected|), d))
  {
  }

  /** "hello world" and "hello earth" first differ at index 6. */
  lemma HelloWorldDifference()
    ensures DefaultPositionOfFirstDifference("hello world", "hello earth") == 6
  {
    assert "hello world"[..6] == "hello earth"[..6];
    DefaultDifferenceAt("hello world", "hello earth", 6);
  }

  /** The string scenario: "hello world" against "hello earth" is reported
      at position 7 with the caret under the 'w' and the 'e'. */
  lemma HelloWorldMessage()
    ensures StringEqualityMessage(Some("hello world"), Some("hello earth"))
         == Line("Strings differ at position 7.") + Line("hello world") + Line("hello earth") + Line("______^____")
  {
    HelloWorldDifference();
    ShortStringsShownWhole("hello world", "hello earth");
    HelloWorldLines(IntToString(7), CaretLine(11, 6));
  }

  lemma HelloWorldLines(position: string, caret: string)
    requires position == IntToString(7) && caret == CaretLine(11, 6)
    ensures Resources.StringDiffPos(position) == "Strings differ at position 7."
    ensures caret == "______^____"
  {
    assert position == "7";
  }

  // ---------------------------------------------------------------------
  // Sequence equality.

  /** The position text: "0" at the start, "<d> (zero based)" after it. */
  function IndexText(d: nat): (r: string)
    ensures d == 0 ==> r == "0"
    ensures d > 0 ==>
      && |r| > |IntToString(d)|
      && ParseInt(r[..|IntToString(d)|]) == Some(d)
      && r[|IntToString(d)|..] == " (zero based)"
  {
    if d == 0 then IntToString(d)
    else
      IntToStringRoundTrip(d);
      IntToString(d) + " (zero based)"
  }

  /** `ElementAtOrDefault`. */
  function ElementAtOrDefault(s: seq<Value>, i: int, default: Value): (r: Value)
    ensures 0 <= i < |s| ==> r == s[i]
    ensures !(0 <= i < |s|) ==> r == default
  {
    if 0 <= i < |s| then s[i] else default
  }

  /** `SameSequenceAsFailureMagnifier.Message`: nothing when either sequence
      is null or they are equal; otherwise the position of the first
      difference and the expected and found elements there (the element
      type's default where a sequence has ended), each line ended by a line
      break. */
  function SameSequenceMessage(actual: Option<seq<Value>>, expected: Option<seq<Value>>, elementDefault: Value): (r: string)
    ensures r == "" <==> actual.None? || expected.None? || actual == expected
    ensures actual.Some? && expected.Some? && actual != expected ==>
      var d := DefaultPositionOfFirstDifference(actual.value, expected.value);
      && d >= 0
      && r == Line(Resources.EnumerableDiffPos(IndexText(d)))
            + Line(Resources.Expected(FormatValue(ElementAtOrDefault(expected.value, d, elementDefault))))
            + Line(Resources.Found(FormatValue(ElementAtOrDefault(actual.value, d, elementDefault))))
  {
    if actual.None? || expected.None? then ""
    else
      var d := DefaultPositionOfFirstDifference(actual.value, expected.value);
      if d < 0 then ""
      else
        Line(Resources.EnumerableDiffPos(IndexText(d)))
        + Line(Resources.Expected(FormatValue(ElementAtOrDefault(expected.value, d, elementDefault))))
        + Line(Resources.Found(FormatValue(ElementAtOrDefault(actual.value, d, elementDefault))))
  }

  /** A sequence that stops short of the other is reported at its length,
      with the element type's default standing for the missing element. */
  lemma PrefixSequenceMessage(shorter: seq<Value>, longer: seq<Value>, elementDefault: Value)
    requires |shorter| < |longer| && shorter == longer[..|shorter|]
    ensures SameSequenceMessage(Some(shorter), Some(longer), elementDefault)
         == Line(Resources.EnumerableDiffPos(IndexText(|shorter|)))
          + Line(Resources.Expected(FormatValue(longer[|shorter|])))
          + Line(Resources.Found(FormatValue(elementDefault)))
  {
    PrefixDifference(shorter, longer);
  }

  /** The sequence scenario: [1, 2, 3] found where [1, 2, 4] was expected. */
  lemma SmallSequenceMessage()
    ensures SameSequenceMessage(Some(IntValues([1, 2, 3])), Some(IntValues([1, 2, 4])), Int(0))
         == Line("Values differ at position 2 (zero based).") + Line("Expected: 4") + Line("Found   : 3")
  {
    var a := IntValues([1, 2, 3]);
    var e := IntValues([1, 2, 4]);
    assert a == [Int(1), Int(2), Int(3)] && e == [Int(1), Int(2), Int(4)];
    assert a[..2] == e[..2];
    DefaultDifferenceAt(a, e, 2);
    SmallSequenceLines(IndexText(2), FormatValue(Int(4)), FormatValue(Int(3)));
  }

  lemma SmallSequenceLines(position: string, expected: string, found: string)
    requires position == IndexText(2) && expected == FormatValue(Int(4)) && found == FormatValue(Int(3))
    ensures Resources.EnumerableDiffPos(position) == "Values differ at position 2 (zero based)."
    ensures Resources.Expected(expected) == "Expected: 4"
    ensures Resources.Found(found) == "Found   : 3"
  {
    assert IntToString(2) == "2" && IntToString(3) == "3" && IntToString(4) == "4";
    assert position == "2 (zero based)" && expected == "4" && found == "3";
  }

  // ---------------------------------------------------------------------
  // Comparisons of primitive values.

  /** `BinaryFailureMagnifier.Message`: both operands read through the value
      getter, left first, and written with their plain `ToString()` around
      the operator's symbol. */
  function BinaryMessage(host: Host, subject: Value, tag: NodeType, left: Expr, right: Expr): (r: Result<string, Failure>)
    ensures r.Success? <==> GetAsValue(host, subject, left).Success? && GetAsValue(host, subject, right).Success?
    ensures GetAsValue(host, subject, left).Failure? ==> r == Failure(GetAsValue(host, subject, left).error)
    ensures r.Success? ==>
      r.value == Resources.Binary(
        ClrToString(GetAsValue(host, subject, left).value),
        Printer.ToStringOperator(tag),
        ClrToString(GetAsValue(host, subject, right).value))
  {
    var l :- GetAsValue(host, subject, left);
    var r :- GetAsValue(host, subject, right);
    Success(Resources.Binary(ClrToString(l), Printer.ToStringOperator(tag), ClrToString(r)))
  }

  /** `IFailureMagnifier.Message`; the empty magnifier's null counts as no
      text. Only the binary magnifier can fail, when an operand is of a kind
      the value getter rejects. */
  function MagnifierMessage(m: Magnifier, host: Host, subject: Value): (r: Result<string, Failure>)
    ensures !m.BinaryMagnifier? ==> r.Success?
    ensures m.Empty? ==> r.value == ""
  {
    match m
    case Empty => Success("")
    case BinaryMagnifier(tag, left, right) => BinaryMessage(host, subject, tag, left, right)
    case StringEquality(actual, expected) => Success(StringEqualityMessage(actual, expected))
    case SameSequence(actual, expected, elementDefault) => Success(SameSequenceMessage(actual, expected, elementDefault))
  }
}
