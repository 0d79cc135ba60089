/** Text helpers shared by the formatter, the printer and the magnifiers:
    the fixed line separator, comma-separated joining and decimal rendering
    of integers. */
module Text {
  import opened Wrappers

  /** `Environment.NewLine`, fixed to a line feed. */
  const NewLine: string := "\n"

  /** The separator `AsCommaSeparatedValues` puts between values. */
  const CommaSeparator: string := ", "

  /** `StringBuilder.AppendLine`: the text followed by a line break. */
  function Line(s: string): (r: string)
    ensures |r| == |s| + |NewLine| && r[..|s|] == s
  {
    s + NewLine
  }

  /** Reference definition of joining: the parts in order, `sep` between
      consecutive parts, nothing before the first or after the last. */
  function Join(parts: seq<string>, sep: string): string
  {
    if |parts| == 0 then ""
    else if |parts| == 1 then parts[0]
    else parts[0] + sep + Join(parts[1..], sep)
  }

  /** Appending one more part to a non-empty join adds exactly one separator. */
  lemma {:induction false} JoinSnoc(parts: seq<string>, last: string, sep: string)
    requires |parts| > 0
    ensures Join(parts + [last], sep) == Join(parts, sep) + sep + last
    decreases |parts|
  {
    if |parts| == 1 {
      assert (parts + [last])[1..] == [last];
    } else {
      assert (parts + [last])[1..] == parts[1..] + [last];
      JoinSnoc(parts[1..], last, sep);
    }
  }

  /** The length of a join: every part plus one separator between each pair. */
  lemma {:induction false} JoinLength(parts: seq<string>, sep: string)
    requires |parts| > 0
    ensures |Join(parts, sep)| == TotalLength(parts) + (|parts| - 1) * |sep|
    decreases |parts|
  {
    if |parts| > 1 {
      JoinLength(parts[1..], sep);
    }
  }

  function TotalLength(parts: seq<string>): nat
  {
    if |parts| == 0 then 0 else |parts[0]| + TotalLength(parts[1..])
  }

  /** `AsCommaSeparatedValues`: a `null` source gives the empty text; otherwise
      the values are appended in order, with ", " written before every value
      but the first. */
  method AsCommaSeparatedValues(source: Option<seq<string>>) returns (r: string)
    ensures source.None? ==> r == ""
    ensures source.Some? ==> r == Join(source.value, CommaSeparator)
  {
    if source.None? {
      return "";
    }
    var values := source.value;
    r := "";
    var appendComma := false;
    var i := 0;
    while i < |values|
      invariant 0 <= i <= |values|
      invariant appendComma <==> i > 0
      invariant r == Join(values[..i], CommaSeparator)
    {
      if appendComma {
        r := r + CommaSeparator;
      }
      r := r + values[i];
      assert values[..i + 1] == values[..i] + [values[i]];
      if i > 0 {
        JoinSnoc(values[..i], values[i], CommaSeparator);
      }
      appendComma := true;
      i := i + 1;
    }
    assert values[..i] == values;
  }

  /** Splitting at a separator character: the inverse of joining parts that
      do not contain that character. */
  function Split(s: string, sep: char): (parts: seq<string>)
    ensures |parts| > 0
    decreases |s|
  {
    var k := IndexOf(s, sep);
    if k == |s| then [s] else [s[..k]] + Split(s[k + 1..], sep)
  }

  /** Index of the first `c` in `s`, or `|s|` when there is none. */
  function IndexOf(s: string, c: char): (k: nat)
    ensures k <= |s|
    ensures c !in s[..k]
    ensures k < |s| ==> s[k] == c
  {
    if |s| == 0 then 0
    else if s[0] == c then 0
    else 1 + IndexOf(s[1..], c)
  }

  lemma IndexOfPrefix(a: string, b: string, c: char)
    requires c !in a
    ensures IndexOf(a + [c] + b, c) == |a|
  {
    var s := a + [c] + b;
    assert s[..|a|] == a;
    assert s[|a|] == c;
  }

  lemma IndexOfAbsent(s: string, c: char)
    requires c !in s
    ensures IndexOf(s, c) == |s|
  {
  }

  /** Splitting peels off the text before the first separator. */
  lemma SplitCons(a: string, b: string, sep: char)
    requires sep !in a
    ensures Split(a + [sep] + b, sep) == [a] + Split(b, sep)
  {
    var s := a + [sep] + b;
    IndexOfPrefix(a, b, sep);
    assert s[..|a|] == a;
    assert s[|a| + 1..] == b;
  }

  /** Splitting a join at a separator character that no part contains
      recovers the parts. */
  lemma {:induction false} SplitJoin(parts: seq<string>, sep: char)
    requires |parts| > 0
    requires forall i :: 0 <= i < |parts| ==> sep !in parts[i]
    ensures Split(Join(parts, [sep]), sep) == parts
    decreases |parts|
  {
    if |parts| == 1 {
      IndexOfAbsent(parts[0], sep);
    } else {
      var rest := Join(parts[1..], [sep]);
      assert Join(parts, [sep]) == parts[0] + [sep] + rest;
      SplitCons(parts[0], rest, sep);
      SplitJoin(parts[1..], sep);
      assert parts == [parts[0]] + parts[1..];
    }
  }

  /** The parts as they appear between single-character separators when the
      separator is followed by `pad`: every part but the first carries `pad`. */
  function Padded(parts: seq<string>, pad: string): (r: seq<string>)
    requires |parts| > 0
    ensures |r| == |parts| && r[0] == parts[0]
    ensures forall i :: 0 < i < |parts| ==> r[i] == pad + parts[i]
  {
    [parts[0]] + seq(|parts| - 1, i requires 0 <= i < |parts| - 1 => pad + parts[i + 1])
  }

  /** Joining with a separator `[sep] + pad` is joining the padded parts with `[sep]`. */
  lemma {:induction false} JoinPadded(parts: seq<string>, sep: char, pad: string)
    requires |parts| > 0
    ensures Join(parts, [sep] + pad) == Join(Padded(parts, pad), [sep])
    decreases |parts|
  {
    if |parts| > 1 {
      JoinPadded(parts[1..], sep, pad);
      var q := Padded(parts[1..], pad);
      PaddedTail(parts, pad);
      JoinPadFirst(q, sep, pad);
      var rest := Join(parts[1..], [sep] + pad);
      assert parts[0] + ([sep] + pad) + rest == parts[0] + [sep] + (pad + rest);
    }
  }

  lemma PaddedTail(parts: seq<string>, pad: string)
    requires |parts| > 1
    ensures Padded(parts, pad)[1..] == [pad + Padded(parts[1..], pad)[0]] + Padded(parts[1..], pad)[1..]
  {
  }

  /** Padding the first of the joined parts pads the join. */
  lemma JoinPadFirst(q: seq<string>, sep: char, pad: string)
    requires |q| > 0
    ensures Join([pad + q[0]] + q[1..], [sep]) == pad + Join(q, [sep])
  {
    if |q| == 1 {
      JoinPadSingle(q, sep, pad);
    } else {
      JoinPadMany(q, sep, pad);
    }
  }

  lemma JoinPadSingle(q: seq<string>, sep: char, pad: string)
    requires |q| == 1
    ensures Join([pad + q[0]] + q[1..], [sep]) == pad + Join(q, [sep])
  {
    assert [pad + q[0]] + q[1..] == [pad + q[0]];
  }

  lemma JoinPadMany(q: seq<string>, sep: char, pad: string)
    requires |q| > 1
    ensures Join([pad + q[0]] + q[1..], [sep]) == pad + Join(q, [sep])
  {
    JoinCons(q, [sep]);
    JoinHead(pad + q[0], q[1..], [sep]);
    PadFirst(pad, q[0], [sep], Join(q[1..], [sep]));
  }

  lemma JoinHead(head: string, tail: seq<string>, sep: string)
    requires |tail| > 0
    ensures Join([head] + tail, sep) == head + sep + Join(tail, sep)
  {
    assert ([head] + tail)[1..] == tail;
  }

  lemma PadFirst(pad: string, first: string, sep: string, rest: string)
    ensures pad + first + sep + rest == pad + (first + sep + rest)
  {
  }

  lemma JoinCons(parts: seq<string>, sep: string)
    requires |parts| > 1
    ensures Join(parts, sep) == parts[0] + sep + Join(parts[1..], sep)
  {
  }

  /** Splitting a join whose separator is `[sep] + pad` gives back the padded
      parts, provided neither the parts nor the padding hold `sep`. */
  lemma SplitPaddedJoin(parts: seq<string>, sep: char, pad: string)
    requires |parts| > 0
    requires sep !in pad
    requires forall i :: 0 <= i < |parts| ==> sep !in parts[i]
    ensures Split(Join(parts, [sep] + pad), sep) == Padded(parts, pad)
  {
    JoinPadded(parts, sep, pad);
    var padded := Padded(parts, pad);
    forall i | 0 <= i < |parts|
      ensures sep !in padded[i]
    {
      if i > 0 {
        assert padded[i] == pad + parts[i];
      }
    }
    SplitJoin(padded, sep);
  }

  // ---------------------------------------------------------------------
  // Decimal rendering of integers (the `ToString()` of an `int`).

  predicate IsDigit(c: char) {
    '0' <= c <= '9'
  }

  predicate AllDigits(s: string) {
    forall i :: 0 <= i < |s| ==> IsDigit(s[i])
  }

  function DigitChar(d: nat): (c: char)
    requires d < 10
    ensures IsDigit(c)
    ensures DigitValue(c) == d
  {
    "0123456789"[d]
  }

  function DigitValue(c: char): nat
    requires IsDigit(c)
  {
    (c as int - '0' as int) as nat
  }

  /** Decimal digits of a natural number, most significant first, with no
      leading zero except for zero itself. */
  function NatToString(n: nat): (r: string)
    ensures |r| > 0 && AllDigits(r)
    ensures |r| > 1 ==> r[0] != '0'
    decreases n
  {
    if n < 10 then [DigitChar(n)] else NatToString(n / 10) + [DigitChar(n % 10)]
  }

  /** `int.ToString()`: a minus sign before the digits of a negative number. */
  function IntToString(i: int): (r: string)
    ensures |r| > 0
    ensures i >= 0 <==> IsDigit(r[0])
  {
    if i < 0 then "-" + NatToString(-i) else NatToString(i)
  }

  /** Reads a run of decimal digits back as a number. */
  function ParseNat(s: string): nat
    requires AllDigits(s)
  {
    if |s| == 0 then 0 else ParseNat(s[..|s| - 1]) * 10 + DigitValue(s[|s| - 1])
  }

  /** Reads the output of `IntToString` back. */
  function ParseInt(s: string): Option<int>
  {
    if |s| > 1 && s[0] == '-' && AllDigits(s[1..]) then Some(-(ParseNat(s[1..]) as int))
    else if |s| > 0 && AllDigits(s) then Some(ParseNat(s))
    else None
  }

  lemma {:induction false} NatToStringRoundTrip(n: nat)
    ensures ParseNat(NatToString(n)) == n
    decreases n
  {
    if n >= 10 {
      NatToStringRoundTrip(n / 10);
      var s := NatToString(n);
      assert s[..|s| - 1] == NatToString(n / 10);
    }
  }

  /** Decimal rendering of integers is lossless. */
  lemma IntToStringRoundTrip(i: int)
    ensures ParseInt(IntToString(i)) == Some(i)
  {
    if i < 0 {
      NegativeRoundTrip(i);
    } else {
      NonNegativeRoundTrip(i);
    }
  }

  lemma NegativeRoundTrip(i: int)
    requires i < 0
    ensures ParseInt(IntToString(i)) == Some(i)
  {
    NatToStringRoundTrip(-i);
    ParseSigned(-i);
  }

  lemma ParseSigned(n: nat)
    requires n > 0
    ensures ParseInt("-" + NatToString(n)) == Some(-(ParseNat(NatToString(n)) as int))
  {
    var digits := NatToString(n);
    var s := "-" + digits;
    assert s[1..] == digits;
  }

  lemma NonNegativeRoundTrip(i: int)
    requires i >= 0
    ensures ParseInt(IntToString(i)) == Some(i)
  {
    NatToStringRoundTrip(i);
    ParseUnsigned(NatToString(i));
  }

  lemma ParseUnsigned(digits: string)
    requires |digits| > 0 && AllDigits(digits)
    ensures ParseInt(digits) == Some(ParseNat(digits) as int)
  {
    assert IsDigit(digits[0]);
  }
}
