/** Runtime values as the engine sees them, and the value formatter
    (`Messages.FormatValue` / `Messages.FormatEnumerable`). */
module Values {
  import opened Wrappers
  import opened Text
  import Resources

  /** A boxed runtime value. `Sequence` is any non-string enumerable and
      `Other` any other object; both carry the full name of their runtime
      type, and `Other` carries the text its `ToString()` returns. */
  datatype Value =
    | Null
    | Str(s: string)
    | Int(i: int)
    | Bool(b: bool)
    | Char(c: char)
    | Sequence(items: seq<Value>, clrType: string)
    | Other(text: string, clrType: string)

  /** `GetType().ToString()` of a non-null value. */
  function RuntimeTypeName(v: Value): string
    requires !v.Null?
  {
    match v
    case Str(_) => "System.String"
    case Int(_) => "System.Int32"
    case Bool(_) => "System.Boolean"
    case Char(_) => "System.Char"
    case Sequence(_, t) => t
    case Other(_, t) => t
  }

  /** The text `string.Format` writes for an argument: `ToString()` of the
      value, nothing for `null`. Collections do not override `ToString()`,
      so theirs is the name of their runtime type. */
  function ClrToString(v: Value): (r: string)
    ensures v.Null? ==> r == ""
    ensures v.Str? ==> r == v.s
    ensures v.Int? ==> ParseInt(r) == Some(v.i)
    ensures v.Bool? ==> (r == "True" || r == "False") && (r == "True" <==> v.b)
    ensures v.Sequence? ==> r == RuntimeTypeName(v)
  {
    match v
    case Null => ""
    case Str(s) => s
    case Int(i) => IntToStringRoundTrip(i); IntToString(i)
    case Bool(b) => if b then "True" else "False"
    case Char(c) => [c]
    case Sequence(_, t) => t
    case Other(text, _) => text
  }

  /** `value as string`. */
  function AsString(v: Value): (r: Option<string>)
    ensures r.Some? <==> v.Str?
  {
    if v.Str? then Some(v.s) else None
  }

  /** `Messages.FormatValue`: `null` as "(null)", a string in double quotes,
      any other enumerable through `FormatEnumerable`, everything else as
      its `ToString()`. */
  function FormatValue(v: Value): (r: string)
    ensures v.Null? ==> r == Resources.NullValue
    ensures v.Str? ==> |r| == |v.s| + 2 && r[0] == '"' && r[|r| - 1] == '"' && r[1..|r| - 1] == v.s
    ensures v.Sequence? ==> |r| >= 2 && r[0] == '[' && r[|r| - 1] == ']'
    ensures v.Int? ==> ParseInt(r) == Some(v.i)
    decreases v, 2
  {
    match v
    case Null => Resources.NullValue
    case Str(s) => "\"" + s + "\""
    case Sequence(items, _) => FormatEnumerable(items)
    case _ => ClrToString(v)
  }

  /** `Messages.FormatEnumerable`: the formatted elements, ", " between them,
      in square brackets; "[<Empty>]" when there is no element. */
  function FormatEnumerable(items: seq<Value>): (r: string)
    ensures |r| >= 2 && r[0] == '[' && r[|r| - 1] == ']'
    ensures |items| == 0 ==> r[1..|r| - 1] == Resources.EmptyEnumerable
    ensures |items| > 0 ==> r[1..|r| - 1] == Join(FormatAll(items), CommaSeparator)
    decreases items, 1
  {
    "[" + (if |items| == 0 then Resources.EmptyEnumerable else Join(FormatAll(items), CommaSeparator)) + "]"
  }

  /** Every element formatted on its own. */
  function FormatAll(items: seq<Value>): (r: seq<string>)
    ensures |r| == |items|
    ensures forall i :: 0 <= i < |items| ==> r[i] == FormatValue(items[i])
    decreases items, 0
  {
    seq(|items|, i requires 0 <= i < |items| => FormatValue(items[i]))
  }

  // ---------------------------------------------------------------------
  // A reader for formatted integer lists, the partner of `FormatEnumerable`.

  function IntValues(ns: seq<int>): (r: seq<Value>)
    ensures |r| == |ns|
    ensures forall i :: 0 <= i < |ns| ==> r[i] == Int(ns[i])
  {
    seq(|ns|, i requires 0 <= i < |ns| => Int(ns[i]))
  }

  /** Drops the space that follows a comma; a piece without it is malformed. */
  function Unpad(piece: string): string
  {
    if |piece| > 0 && piece[0] == ' ' then piece[1..] else ""
  }

  /** Reads "[<Empty>]" or "[n1, n2, ...]" back into the integers. */
  function ParseIntList(s: string): Option<seq<int>>
  {
    if |s| < 2 || s[0] != '[' || s[|s| - 1] != ']' then None
    else
      var inner := s[1..|s| - 1];
      if inner == Resources.EmptyEnumerable then Some([])
      else ParsePieces(Split(inner, ','))
  }

  function ParsePieces(pieces: seq<string>): Option<seq<int>>
    requires |pieces| > 0
  {
    var texts := seq(|pieces|, i requires 0 <= i < |pieces| => if i == 0 then pieces[0] else Unpad(pieces[i]));
    if forall i :: 0 <= i < |texts| ==> ParseInt(texts[i]).Some? then
      Some(seq(|texts|, i requires 0 <= i < |texts| => ParseInt(texts[i]).value))
    else None
  }

  lemma IntTextHasNoComma(n: int)
    ensures ',' !in IntToString(n)
    ensures ' ' !in IntToString(n)
  {
    if n < 0 {
      assert IntToString(n) == "-" + NatToString(-n);
    }
  }

  function IntTexts(ns: seq<int>): (r: seq<string>)
    ensures |r| == |ns|
    ensures forall i :: 0 <= i < |ns| ==> r[i] == IntToString(ns[i])
  {
    seq(|ns|, i requires 0 <= i < |ns| => IntToString(ns[i]))
  }

  /** The pieces between the commas of a formatted integer list read back
      as the integers. */
  lemma ParseIntPieces(ns: seq<int>)
    requires |ns| > 0
    ensures ParsePieces(Padded(IntTexts(ns), " ")) == Some(ns)
  {
    var padded := Padded(IntTexts(ns), " ");
    var texts := seq(|padded|, i requires 0 <= i < |padded| => if i == 0 then padded[0] else Unpad(padded[i]));
    forall i | 0 <= i < |ns|
      ensures texts[i] == IntToString(ns[i])
      ensures ParseInt(texts[i]) == Some(ns[i])
    {
      IntToStringRoundTrip(ns[i]);
      if i > 0 {
        assert Unpad(padded[i]) == IntToString(ns[i]);
      }
    }
    var parsed := seq(|texts|, i requires 0 <= i < |texts| => ParseInt(texts[i]).value);
    assert parsed == ns;
  }

  /** Splitting the inside of a formatted integer list at its commas gives
      the padded numerals. */
  lemma SplitIntTexts(ns: seq<int>)
    requires |ns| > 0
    ensures Split(Join(IntTexts(ns), CommaSeparator), ',') == Padded(IntTexts(ns), " ")
  {
    var texts := IntTexts(ns);
    forall i | 0 <= i < |ns|
      ensures ',' !in texts[i]
    {
      IntTextHasNoComma(ns[i]);
    }
    assert CommaSeparator == [','] + " ";
    SplitPaddedJoin(texts, ',', " ");
  }

  /** Formatting a list of integers loses nothing: the text reads back as
      the same integers, the empty list included. */
  lemma FormatIntListRoundTrip(ns: seq<int>, clrType: string)
    ensures ParseIntList(FormatValue(Sequence(IntValues(ns), clrType))) == Some(ns)
  {
    var r := FormatValue(Sequence(IntValues(ns), clrType));
    if |ns| > 0 {
      var inner := Join(IntTexts(ns), CommaSeparator);
      FormattedIntList(ns, clrType);
      SplitIntTexts(ns);
      ParseIntPieces(ns);
      IntListNotEmptyMarker(ns);
      ReadInner(r, inner, Padded(IntTexts(ns), " "), ns);
    }
  }

  /** The inside of a formatted non-empty integer list is its numerals
      joined by ", ". */
  lemma FormattedIntList(ns: seq<int>, clrType: string)
    requires |ns| > 0
    ensures var r := FormatValue(Sequence(IntValues(ns), clrType));
      |r| >= 2 && r[0] == '[' && r[|r| - 1] == ']' && r[1..|r| - 1] == Join(IntTexts(ns), CommaSeparator)
  {
    assert FormatAll(IntValues(ns)) == IntTexts(ns);
  }

  /** The numerals of a non-empty list do not spell the empty-list marker:
      they start with a digit or a minus sign. */
  lemma IntListNotEmptyMarker(ns: seq<int>)
    requires |ns| > 0
    ensures Join(IntTexts(ns), CommaSeparator) != Resources.EmptyEnumerable
  {
    var texts := IntTexts(ns);
    var inner := Join(texts, CommaSeparator);
    assert |texts| == 1 || inner[..|texts[0]|] == texts[0];
    assert inner[0] == texts[0][0];
    if ns[0] < 0 {
      assert texts[0] == "-" + NatToString(-ns[0]);
    }
  }

  /** The reader's steps on a bracketed text whose inside is `inner`. */
  lemma ReadInner(r: string, inner: string, pieces: seq<string>, ns: seq<int>)
    requires |r| >= 2 && r[0] == '[' && r[|r| - 1] == ']' && r[1..|r| - 1] == inner
    requires inner != Resources.EmptyEnumerable
    requires |pieces| > 0 && Split(inner, ',') == pieces && ParsePieces(pieces) == Some(ns)
    ensures ParseIntList(r) == Some(ns)
  {
  }

  /** The list scenario: [1, 2, 3] formats as "[1, 2, 3]". */
  lemma FormatSmallIntList()
    ensures FormatValue(Sequence(IntValues([1, 2, 3]), "System.Int32[]")) == "[1, 2, 3]"
  {
    var texts := FormatAll(IntValues([1, 2, 3]));
    assert texts == ["1", "2", "3"];
  }
}
