/** The assertion tree: leaves built from predicate nodes, the `And` and
    `Or` combinations, and negation; how each matches the value under test
    and what its failure message says. */
module Assertions {
  import opened Wrappers
  import opened Text
  import opened Values
  import opened Expressions
  import opened Failures
  import opened Evaluation
  import opened Magnifiers
  import Printer
  import Resources

  /** `ExpressionAssertion` (a leaf: a predicate over the value under test
      and its magnifier), `AndAssertion`, `OrAssertion` and
      `NegateAssertion`. */
  datatype Assertion =
    | ExpressionAssertion(expression: Predicate, magnifier: Magnifier)
    | AndAssertion(left: Assertion, right: Assertion)
    | OrAssertion(left: Assertion, right: Assertion)
    | NegateAssertion(source: Assertion)

  /** The `Matcher` of each node: a leaf's compiled predicate, the
      conjunction and disjunction of the children's matchers, and the
      negation of the source's. */
  predicate Matches(a: Assertion, host: Host, subject: Value)
  {
    match a
    case ExpressionAssertion(p, _) => Holds(host, p.body, subject)
    case AndAssertion(l, r) => Matches(l, host, subject) && Matches(r, host, subject)
    case OrAssertion(l, r) => Matches(l, host, subject) || Matches(r, host, subject)
    case NegateAssertion(s) => !Matches(s, host, subject)
  }

  /** `ExpressionMessageComposer.GetMessage`: "<custom>: " when a custom
      message is given, then the formatted value, "Should", and the rendered
      predicate in "Satisfy (...)"; the magnifier's text, when there is any,
      on a line of its own after that. The predicate is rendered before the
      magnifier is consulted, so a printer failure comes first. */
  function LeafMessage(p: Predicate, magnifier: Magnifier, host: Host, subject: Value, custom: string): (r: Result<string, Failure>)
    ensures r.Success? <==> Printer.RenderPredicate(p).Success? && MagnifierMessage(magnifier, host, subject).Success?
    ensures Printer.RenderPredicate(p).Failure? ==> r == Failure(Printer.RenderPredicate(p).error)
    ensures r.Success? ==>
      r.value == ComposeMessage(Printer.RenderPredicate(p).value, subject, custom, MagnifierMessage(magnifier, host, subject).value)
  {
    var rendered :- Printer.RenderPredicate(p);
    var extra :- MagnifierMessage(magnifier, host, subject);
    Success(ComposeMessage(rendered, subject, custom, extra))
  }

  /** The composed text of a leaf's failure: the first line, then the
      magnifier's text on a line of its own when there is any. */
  function ComposeMessage(rendered: string, subject: Value, custom: string, extra: string): string
  {
    var text := BaseMessage(rendered, subject, custom);
    if extra == "" then text else text + NewLine + extra
  }

  /** The first line of a leaf's message. */
  function BaseMessage(rendered: string, subject: Value, custom: string): (r: string)
    ensures custom != "" ==> |r| > |custom| + 2 && r[..|custom| + 2] == custom + ": "
    ensures var prefix := if custom != "" then custom + ": " else "";
      var head := FormatValue(subject) + " " + Resources.AssertionVerb + " Satisfy (";
      && |r| == |prefix| + |head| + |rendered| + 1
      && r[|prefix|..|prefix| + |head|] == head
      && r[|prefix| + |head|..|r| - 1] == rendered
      && r[|r| - 1] == ')'
  {
    var prefix := if custom != "" then custom + ": " else "";
    var head := FormatValue(subject) + " " + Resources.AssertionVerb + " Satisfy (";
    var r := prefix + head + rendered + ")";
    assert r[|prefix|..|prefix| + |head|] == head;
    assert r[|prefix| + |head|..|r| - 1] == rendered;
    r
  }

  /** The failure message of an assertion for `subject`. A combination asks
      its children for their messages without the custom message; negation
      reports its source's message unchanged. */
  function GetMessage(a: Assertion, host: Host, subject: Value, custom: string): (m: Result<string, Failure>)
    ensures a.ExpressionAssertion? && custom != "" && m.Success? ==>
      |m.value| >= |custom| + 2 && m.value[..|custom| + 2] == custom + ": "
    decreases a, 1
  {
    match a
    case ExpressionAssertion(p, magnifier) =>
      var r := LeafMessage(p, magnifier, host, subject, custom);
      if r.Success? && custom != "" then
        LeafMessageLeadsWithCustom(Printer.RenderPredicate(p).value, subject, custom, MagnifierMessage(magnifier, host, subject).value);
        r
      else r
    case AndAssertion(l, r) => AndMessage(a, Matches(l, host, subject), Matches(r, host, subject), host, subject, custom)
    case OrAssertion(l, r) => BitwiseMessage("Or", l, r, host, subject, custom)
    case NegateAssertion(s) => GetMessage(s, host, subject, custom)
  }

  /** `AndAssertion.GetMessage(leftMatch, rightMatch, ...)`: the left child's
      message when it failed, the line "And" when both failed, the right
      child's message when it failed. The flag guarding the custom message
      holds when there is NO custom message, so the custom message itself is
      never written: a non-empty one only adds a line break after the right
      child's message. */
  function AndMessage(a: Assertion, leftMatch: bool, rightMatch: bool, host: Host, subject: Value, custom: string): (m: Result<string, Failure>)
    requires a.AndAssertion?
    decreases a, 0
  {
    var leftText :- ChildFailure(!leftMatch, a.left, host, subject);
    var rightText :- ChildFailure(!rightMatch, a.right, host, subject);
    var noCustomMessage := custom == "";
    Success(AndText(leftMatch, rightMatch, leftText, rightText, custom) + (if noCustomMessage then custom else ""))
  }

  /** The three parts of an `And` failure: the left child's message exactly
      when the left failed, "And" exactly when both failed, the right
      child's message exactly when the right failed (followed by a line
      break when a custom message is given). */
  function AndText(leftMatch: bool, rightMatch: bool, left: string, right: string, custom: string): string
  {
      (if leftMatch then "" else Line(left))
    + (if !leftMatch && !rightMatch then Line("And") else "")
    + (if rightMatch then "" else if custom == "" then right else Line(right))
  }

  /** A child's message without the custom message, asked for only when
      the child failed. */
  function ChildFailure(failed: bool, child: Assertion, host: Host, subject: Value): (r: Result<string, Failure>)
    ensures !failed ==> r == Success("")
    decreases child, 2
  {
    if failed then GetMessage(child, host, subject, "") else Success("")
  }

  /** `BitwiseAssertion.GetMessage`: the left child's message, the operator
      on its own line, the right child's message, and the custom message on
      a line of its own when there is one. */
  function BitwiseMessage(operator: string, l: Assertion, r: Assertion, host: Host, subject: Value, custom: string): (m: Result<string, Failure>)
    // Only `Or` uses this function, so it is measured as the `Or` node
    // whose children it asks for their messages.
    decreases OrAssertion(l, r), 0
  {
    var left :- GetMessage(l, host, subject, "");
    var right :- GetMessage(r, host, subject, "");
    Success(Line(left) + Line(operator) + (if custom == "" then right else Line(right) + custom))
  }

  /** An `And` message can be composed exactly when every failed child's
      message can; when both children match it is empty, whatever the
      custom message. */
  lemma AndComposable(l: Assertion, r: Assertion, host: Host, subject: Value, custom: string)
    ensures GetMessage(AndAssertion(l, r), host, subject, custom).Success? <==>
      && (Matches(l, host, subject) || GetMessage(l, host, subject, "").Success?)
      && (Matches(r, host, subject) || GetMessage(r, host, subject, "").Success?)
    ensures Matches(l, host, subject) && Matches(r, host, subject) ==>
      GetMessage(AndAssertion(l, r), host, subject, custom) == Success("")
  {
    var a := AndAssertion(l, r);
    var lm, rm := Matches(l, host, subject), Matches(r, host, subject);
    assert GetMessage(a, host, subject, custom) == AndMessage(a, lm, rm, host, subject, custom);
    assert AndMessage(a, lm, rm, host, subject, custom).Success? <==>
      ChildFailure(!lm, l, host, subject).Success? && ChildFailure(!rm, r, host, subject).Success?;
    assert ChildFailure(!lm, l, host, subject).Success? <==> lm || GetMessage(l, host, subject, "").Success?;
    assert ChildFailure(!rm, r, host, subject).Success? <==> rm || GetMessage(r, host, subject, "").Success?;
    if lm && rm {
      assert ChildFailure(!lm, l, host, subject) == Success("");
      assert ChildFailure(!rm, r, host, subject) == Success("");
      assert [] + [] + [] + (if custom == "" then custom else "") == [];
    }
  }

  /** An `Or` message can be composed exactly when both children's
      messages can. */
  lemma OrComposable(l: Assertion, r: Assertion, host: Host, subject: Value, custom: string)
    ensures GetMessage(OrAssertion(l, r), host, subject, custom).Success? <==>
      GetMessage(l, host, subject, "").Success? && GetMessage(r, host, subject, "").Success?
  {
  }

  /** How an assertion call ends: it returns, or it raises. */
  datatype Outcome = Pass | Raised(failure: Failure)

  /** The failure raised for a message that could be composed, or the
      exception met while composing it. */
  function Raise(message: Result<string, Failure>): (o: Outcome)
    ensures o.Raised?
    ensures message.Success? ==> o.failure == AssertionFailed(message.value)
    ensures message.Failure? ==> o.failure == message.error
  {
    match message
    case Success(m) => Raised(AssertionFailed(m))
    case Failure(e) => Raised(e)
  }

  /** `Assert`: nothing happens when the assertion matches; otherwise the
      test framework's failure with the assertion's message. `And` reads both
      children's matchers once, before composing its message. */
  function Assert(a: Assertion, host: Host, subject: Value, custom: string): (o: Outcome)
    ensures o.Pass? <==> Matches(a, host, subject)
    ensures o.Raised? ==> o == Raise(GetMessage(a, host, subject, custom))
  {
    match a
    case AndAssertion(l, r) =>
      var leftMatch := Matches(l, host, subject);
      var rightMatch := Matches(r, host, subject);
      if leftMatch && rightMatch then Pass
      else Raise(AndMessage(a, leftMatch, rightMatch, host, subject, custom))
    case _ =>
      if Matches(a, host, subject) then Pass
      else Raise(GetMessage(a, host, subject, custom))
  }

  // ---------------------------------------------------------------------
  // The operators `!`, `|` and `&` of a single assertion.

  function NotOperator(a: Assertion): (r: Assertion)
    ensures forall host, subject :: Matches(r, host, subject) == !Matches(a, host, subject)
  {
    NegateAssertion(a)
  }

  function OrOperator(x: Assertion, y: Assertion): (r: Assertion)
    ensures forall host, subject :: Matches(r, host, subject) == (Matches(x, host, subject) || Matches(y, host, subject))
  {
    OrAssertion(x, y)
  }

  function AndOperator(x: Assertion, y: Assertion): (r: Assertion)
    ensures forall host, subject :: Matches(r, host, subject) == (Matches(x, host, subject) && Matches(y, host, subject))
  {
    AndAssertion(x, y)
  }

  // ---------------------------------------------------------------------
  // Properties of the messages.

  /** A negation fails exactly when its source passes, and then says what
      the source would have said on failing. */
  lemma NegationReportsSource(a: Assertion, host: Host, subject: Value, custom: string)
    requires Matches(a, host, subject)
    ensures Assert(NegateAssertion(a), host, subject, custom) == Raise(GetMessage(a, host, subject, custom))
  {
  }

  lemma AndMessageParts(l: Assertion, r: Assertion, host: Host, subject: Value, custom: string,
                        left: string, right: string)
    requires GetMessage(l, host, subject, "") == Success(left)
    requires GetMessage(r, host, subject, "") == Success(right)
    ensures GetMessage(AndAssertion(l, r), host, subject, custom)
         == Success(AndText(Matches(l, host, subject), Matches(r, host, subject), left, right, custom))
  {
    var lm := Matches(l, host, subject);
    var rm := Matches(r, host, subject);
    ChildFailureText(!lm, l, host, subject, left);
    ChildFailureText(!rm, r, host, subject, right);
    AndMessageText(AndAssertion(l, r), lm, rm, left, right, host, subject, custom);
  }

  lemma ChildFailureText(failed: bool, child: Assertion, host: Host, subject: Value, text: string)
    requires GetMessage(child, host, subject, "") == Success(text)
    ensures ChildFailure(failed, child, host, subject) == Success(if failed then text else "")
  {
  }

  lemma AndMessageText(a: Assertion, lm: bool, rm: bool, left: string, right: string,
                       host: Host, subject: Value, custom: string)
    requires a.AndAssertion?
    requires ChildFailure(!lm, a.left, host, subject) == Success(if lm then "" else left)
    requires ChildFailure(!rm, a.right, host, subject) == Success(if rm then "" else right)
    ensures AndMessage(a, lm, rm, host, subject, custom) == Success(AndText(lm, rm, left, right, custom))
  {
    var body := AndText(lm, rm, left, right, custom);
    assert body + "" == body;
  }

  /** The custom message never reaches an `And` failure: with one, the text
      is the text without it, plus a line break when the right child failed. */
  lemma AndDropsCustomMessage(l: Assertion, r: Assertion, host: Host, subject: Value, custom: string,
                              left: string, right: string)
    requires GetMessage(l, host, subject, "") == Success(left)
    requires GetMessage(r, host, subject, "") == Success(right)
    requires custom != ""
    ensures GetMessage(AndAssertion(l, r), host, subject, "").Success?
    ensures var without := GetMessage(AndAssertion(l, r), host, subject, "").value;
      GetMessage(AndAssertion(l, r), host, subject, custom)
        == Success(if Matches(r, host, subject) then without else without + NewLine)
  {
    AndMessageParts(l, r, host, subject, custom, left, right);
    AndMessageParts(l, r, host, subject, "", left, right);
    CustomAddsLineBreak(Matches(l, host, subject), Matches(r, host, subject), left, right, custom);
  }

  lemma CustomAddsLineBreak(lm: bool, rm: bool, left: string, right: string, custom: string)
    requires custom != ""
    ensures AndText(lm, rm, left, right, custom)
         == if rm then AndText(lm, rm, left, right, "") else AndText(lm, rm, left, right, "") + NewLine
  {
    var head := (if lm then "" else Line(left)) + (if !lm && !rm then Line("And") else "");
    if !rm {
      assert head + Line(right) == (head + right) + NewLine;
    }
  }

  /** An `Or` failure names both children, with "Or" between them, and ends
      with the custom message when there is one. */
  lemma OrMessageParts(l: Assertion, r: Assertion, host: Host, subject: Value, custom: string,
                       left: string, right: string)
    requires GetMessage(l, host, subject, "") == Success(left)
    requires GetMessage(r, host, subject, "") == Success(right)
    ensures var text := Line(left) + Line("Or") + right;
      GetMessage(OrAssertion(l, r), host, subject, custom)
        == Success(if custom == "" then text else text + NewLine + custom)
  {
    assert GetMessage(OrAssertion(l, r), host, subject, custom)
        == Success(Line(left) + Line("Or") + (if custom == "" then right else Line(right) + custom));
    if custom != "" {
      TrailingCustom(Line(left) + Line("Or"), right, custom);
    }
  }

  lemma TrailingCustom(head: string, right: string, custom: string)
    ensures head + (Line(right) + custom) == head + right + NewLine + custom
  {
    assert Line(right) == right + NewLine;
  }

  /** A leaf's failure leads with the custom message when one is given,
      whatever the magnifier adds. */
  lemma LeafMessageLeadsWithCustom(rendered: string, subject: Value, custom: string, extra: string)
    requires custom != ""
    ensures var m := ComposeMessage(rendered, subject, custom, extra);
      |m| >= |custom| + 2 && m[..|custom| + 2] == custom + ": "
  {
    if extra != "" {
      var text := BaseMessage(rendered, subject, custom);
      PrefixKept(text, NewLine + extra, custom + ": ");
      assert text + NewLine + extra == text + (NewLine + extra);
    }
  }

  lemma PrefixKept(text: string, more: string, prefix: string)
    requires |text| >= |prefix| && text[..|prefix|] == prefix
    ensures |text + more| >= |prefix| && (text + more)[..|prefix|] == prefix
  {
    assert (text + more)[..|prefix|] == text[..|prefix|];
  }
}
