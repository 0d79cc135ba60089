# Satisfyr assertion engine, modelled in Dafny

This project models Satisfyr, the assertion engine of the repository's test project, which lives in one file: `Repository.Linq2SQL.Test/Satisfyr.NUnit.cs`.

A test writes `actual.Satisfies(x => <predicate>)`. The engine works in two steps:

- **Decomposition.** The engine splits the predicate's body at `&&` and `||` into a tree of assertions.
  - Each leaf keeps the predicate node it stands for.
  - A leaf may also carry a *magnifier*: extra text that explains a failed comparison.
    - Two strings compared with `==` get the string magnifier, which shows where they differ.
    - A comparison with a primitive operand gets the binary magnifier, which shows both operand values.
    - A call of `Enumerable.SequenceEqual` gets the sequence magnifier, which shows the first differing element.
  - The decomposer rejects:
    - node kinds it has no case for;
    - a constant body;
    - a body that never refers to the lambda's parameter.
- **Assertion.** The engine asserts the tree against the value under test. When the tree does not match, the test framework's failure carries a message built from these parts:
  - the formatted value;
  - the predicate, rendered back to C#-like text by the pretty printer;
  - the magnifiers' text;
  - "And"/"Or" lines joining the children's messages;
  - the caller's custom message.

The model is functional throughout:

- **Data.**
  - Runtime values are a datatype (`Values.Value`).
  - The expression tree is a closed datatype whose node tags are the members of `ExpressionType` (`Expressions.Expr`).
  - The assertion tree is a datatype (`Assertions.Assertion`).
- **Operations.** Every operation is a pure function from those datatypes to strings, integers, or a `Result` that carries the exception the code would raise.
- **Host.** Compiling and invoking predicate nodes is the .NET runtime's job. The model takes it as a host function, `Evaluation.Host`, and its results are as good as that function. The engine itself only decides which nodes are evaluated, and when.

Modules, one per file: `Wrappers`, `Text`, `Resources`, `Failures`, `FirstDifference`, `Values`, `Expressions`, `Printer`, `Evaluation`, `Magnifiers`, `Assertions`, `Decomposer`.

The model follows the code as written, including behaviour that looks unintended. The contracts below state each quirk:

- `!x.Flag` is not negated by the decomposer. The whole negation becomes one leaf. `NegateAssertion` is reachable only through `operator !`.
- In `AndAssertion`, the flag that guards the custom message is inverted (`hasCustomMessage = IsNullOrEmpty(customMessage)`). As a result:
  - the custom message is never written into an `And` failure;
  - when there is a custom message, the right child's failure gets an extra line break instead.
- The printer's main switch sends `Convert`/`ConvertChecked` to the unary printer, and the unary printer has no case for them, so it writes nothing for a conversion, its operand included. `x => (long)x.Id == 5` renders as `x =>  == 5`.
- `ContainsActualParameter` does not look inside conversions, or inside the node kinds it does not list. A predicate whose only use of the parameter is converted is therefore rejected as "none of the operands includes the value under test" (`Decomposer.ConvertedOperandRejected`).
- The printer writes a conditional's three parts with no separators, and an invocation as its arguments only.

## Model

All source paths below are relative to the repository root.

| member | source | states |
|---|---|---|
| FirstDifference.PositionOfFirstDifference | Repository.Linq2SQL.Test/Satisfyr.NUnit.cs:165-200 | The result is -1 exactly when the sequences have the same length and agree everywhere under the comparer. Otherwise it is an index no larger than the shorter length, before which they agree, and at which the elements differ or the shorter sequence has ended. |
| FirstDifference.ScanFirstDifference | Repository.Linq2SQL.Test/Satisfyr.NUnit.cs:184-199 | The enumerator loop keeps a counter that starts at -1, and returns `0` or `++diffPos` when only the second sequence has more. It always returns the first difference as defined above. |
| FirstDifference.FirstDifferenceUnique | Repository.Linq2SQL.Test/Satisfyr.NUnit.cs:165-200 | The first difference is determined by the two sequences: any index meeting the definition is the one the locator returns. |
| FirstDifference.DefaultPositionOfFirstDifference | Repository.Linq2SQL.Test/Satisfyr.NUnit.cs:160-163 | With the default comparer: -1 exactly when the sequences are equal. Otherwise the prefixes before the result are equal, the elements at the result differ when both exist, and the result is below the longer length. |
| FirstDifference.DefaultDifferenceAt | Repository.Linq2SQL.Test/Satisfyr.NUnit.cs:160-200 | An index before which the sequences are equal and at which both have differing elements is the first difference. |
| FirstDifference.PrefixDifference | Repository.Linq2SQL.Test/Satisfyr.NUnit.cs:189-194 | When one sequence is a proper prefix of the other, in either order, the first difference is the prefix's length. |
| Text.AsCommaSeparatedValues | Repository.Linq2SQL.Test/Satisfyr.NUnit.cs:133-151 | A null source gives the empty text. Otherwise the result is the independent definition of joining: the values in order, with ", " between consecutive values only. |
| Text.JoinLength | Repository.Linq2SQL.Test/Satisfyr.NUnit.cs:133-151 | A join is as long as its parts together plus one separator per gap. |
| Text.SplitJoin | Repository.Linq2SQL.Test/Satisfyr.NUnit.cs:133-151 | Splitting a join at a separator character that no part contains gives back the parts. |
| Text.IntToStringRoundTrip | Repository.Linq2SQL.Test/Satisfyr.NUnit.cs:1437 | The decimal text of an integer, which is what the formatter writes for an `int`, reads back as the same integer. |
| Expressions.BeforeBacktick | Repository.Linq2SQL.Test/Satisfyr.NUnit.cs:118 | The result is the longest backtick-free prefix of the name. It is the whole name, or the name is cut just before a backtick. |
| Expressions.DisplayName | Repository.Linq2SQL.Test/Satisfyr.NUnit.cs:111-126 | A non-generic type shows its name without the arity suffix. A generic one shows that name, then text enclosed in angle brackets. |
| Expressions.DisplayNameArguments | Repository.Linq2SQL.Test/Satisfyr.NUnit.cs:111-126 | The text between the angle brackets lists the generic arguments: when no argument name holds a comma, it splits at its commas into the argument names in order, each after the first behind the space of ", ". |
| Values.ClrToString | Repository.Linq2SQL.Test/Satisfyr.NUnit.cs:1437 | A value's `ToString()`: a string is its own text, an integer's text reads back as that integer, a boolean is "True" or "False" as it holds, and a collection shows its runtime type name. |
| Values.AsString | Repository.Linq2SQL.Test/Satisfyr.NUnit.cs:413 | `value as string` gives a string exactly for string values. |
| Values.FormatValue | Repository.Linq2SQL.Test/Satisfyr.NUnit.cs:1419-1438 | Null is written "(null)". A string is written with its exact contents between double quotes. An enumerable is written in square brackets. An integer's text reads back as that integer. |
| Values.FormatEnumerable | Repository.Linq2SQL.Test/Satisfyr.NUnit.cs:1440-1465 | The text is bracketed. An empty enumerable shows "<Empty>". Otherwise the brackets hold the independently formatted elements joined by ", ". |
| Values.FormatIntListRoundTrip | Repository.Linq2SQL.Test/Satisfyr.NUnit.cs:1419-1465 | Formatting a list of integers loses nothing: a reader for the format recovers the list, the empty list included. |
| Values.FormatSmallIntList | Repository.Linq2SQL.Test/Satisfyr.NUnit.cs:1440-1465 | The list 1, 2, 3 is written "[1, 2, 3]". |
| Magnifiers.WindowStart | Repository.Linq2SQL.Test/Satisfyr.NUnit.cs:793-796 | The 40-character window lies inside the string and contains the difference. It starts 20 characters before the difference whenever the string allows. It starts at 0 when the difference is within the first 20 characters, and 40 characters before the end when it is within the last 20. |
| Magnifiers.GetStringToShow | Repository.Linq2SQL.Test/Satisfyr.NUnit.cs:784-791 | A string of at most 40 characters is shown unchanged. |
| Magnifiers.LongStringShown | Repository.Linq2SQL.Test/Satisfyr.NUnit.cs:784-810 | A longer string is shown as exactly its window. There is an ellipsis before it exactly when the window does not start the string, and one after it exactly when the window does not end the string. At least one ellipsis is always present. |
| Magnifiers.ShownCharacter | Repository.Linq2SQL.Test/Satisfyr.NUnit.cs:784-810 | The character at the difference is always on show, at a computable index of the shown text. |
| Magnifiers.CaretLine | Repository.Linq2SQL.Test/Satisfyr.NUnit.cs:775-776 | The marker line has the longer string's length, a caret at the difference and underscores everywhere else. |
| Magnifiers.StringEqualityMessage | Repository.Linq2SQL.Test/Satisfyr.NUnit.cs:758-780 | The text is empty exactly when a string is null or the strings are equal. Otherwise it has four lines: the 1-based position of the first difference (always in bounds of the marker line), the actual string, the expected string and the marker line, each shown through the window. |
| Magnifiers.CaretPointsAtDifference | Repository.Linq2SQL.Test/Satisfyr.NUnit.cs:758-810 | For strings of equal length, the caret of the shown marker line stands at the same index as the two shown characters that differ. |
| Magnifiers.ShortStringsShownWhole | Repository.Linq2SQL.Test/Satisfyr.NUnit.cs:758-791 | Strings of at most 40 characters, and their marker line, appear whole in the message. |
| Magnifiers.HelloWorldMessage | Repository.Linq2SQL.Test/Satisfyr.NUnit.cs:758-780 | "hello world" against "hello earth" is reported at position 7, with the caret under the first differing character. |
| Magnifiers.IndexText | Repository.Linq2SQL.Test/Satisfyr.NUnit.cs:855-856 | Position 0 is written "0". Any later position is its decimal text, which reads back as the position, followed by " (zero based)". |
| Magnifiers.ElementAtOrDefault | Repository.Linq2SQL.Test/Satisfyr.NUnit.cs:857-860 | An index inside the sequence gives the element there. Any other index gives the element type's default. |
| Magnifiers.SameSequenceMessage | Repository.Linq2SQL.Test/Satisfyr.NUnit.cs:841-862 | The text is empty exactly when a sequence is null or the sequences are equal. Otherwise it has three lines: the position, the expected element and the found element at the first difference, each formatted. |
| Magnifiers.PrefixSequenceMessage | Repository.Linq2SQL.Test/Satisfyr.NUnit.cs:841-862 | A sequence that stops short of the other is reported at its length. The element type's default stands for its missing element. |
| Magnifiers.SmallSequenceMessage | Repository.Linq2SQL.Test/Satisfyr.NUnit.cs:841-862 | 1, 2, 3 found where 1, 2, 4 was expected is reported as "Values differ at position 2 (zero based).", "Expected: 4", "Found   : 3". |
| Magnifiers.BinaryMessage | Repository.Linq2SQL.Test/Satisfyr.NUnit.cs:721-739 | The text can be composed exactly when both operands can be read. It fails with the left operand's error first. When it succeeds it is "Compared <left> <operator> <right>." with the values read. |
| Magnifiers.MagnifierMessage | Repository.Linq2SQL.Test/Satisfyr.NUnit.cs:813-819 | Only the binary magnifier can fail. The empty magnifier contributes no text. |
| Printer.ToStringOperator | Repository.Linq2SQL.Test/Satisfyr.NUnit.cs:1346-1413 | An operator's symbol reads back as the operation it stands for, so operators are told apart by their symbols. The exceptions are that overflow checking is not written and `Power` is written like `ExclusiveOr`. |
| Printer.RenderConstant | Repository.Linq2SQL.Test/Satisfyr.NUnit.cs:1112-1139 | A null constant is written "(null)". A string is written with its exact contents between double quotes. A collection, whose `ToString()` is its type name, is written as nothing. A non-enum integer is written as text that reads back as the integer. Any other non-null, non-string value whose `ToString()` equals its runtime type name is written as nothing. Otherwise an enum-typed constant is written as the type's display name, ".", and its `ToString()`, and any other constant as its `ToString()`. |
| Printer.InvocationTargetNotWritten | Repository.Linq2SQL.Test/Satisfyr.NUnit.cs:1340-1344 | Two invocations that differ only in their target render alike, failure included, so the target is never written. An invocation renders exactly when its arguments do. |
| Printer.RenderSucceedsIffPrintable | Repository.Linq2SQL.Test/Satisfyr.NUnit.cs:915-997 | The printer succeeds exactly on trees whose visited nodes all have a kind it handles. Otherwise it raises only its "Unhandled expression type" exception. |
| Printer.RenderAllSucceedsIffPrintable | Repository.Linq2SQL.Test/Satisfyr.NUnit.cs:1326-1338 | A list of nodes renders exactly when every node in it does. |
| Printer.RenderBindingsSucceedIffPrintable | Repository.Linq2SQL.Test/Satisfyr.NUnit.cs:1228-1241 | A binding list renders exactly when every binding in it does. |
| Printer.ExtensionCallReadsAsInstanceCall | Repository.Linq2SQL.Test/Satisfyr.NUnit.cs:1176-1200 | An extension call is written exactly as an instance call on its first argument with the remaining arguments. |
| Printer.ConnectiveLeftOperandEnclosed | Repository.Linq2SQL.Test/Satisfyr.NUnit.cs:1063-1104 | A left operand that is itself `&&` or `||` is written in parentheses: the rendering opens with "(", its text, ")". |
| Printer.ConnectiveRightOperandEnclosed | Repository.Linq2SQL.Test/Satisfyr.NUnit.cs:1063-1104 | A right operand that is itself `&&` or `||` is written in parentheses: the rendering closes with "(", its text, ")". |
| Printer.ConversionHidesOperand | Repository.Linq2SQL.Test/Satisfyr.NUnit.cs:1027-1061 | A converted left operand is written as nothing, whatever it is, so the text starts with the operator. |
| Evaluation.GetAsValue | Repository.Linq2SQL.Test/Satisfyr.NUnit.cs:424-448 | A value is produced exactly for constants, parameters and the eleven compiled kinds. Any other kind raises the out-of-range error; the model also records which node kind was refused. |
| Evaluation.GetAsValueAgreesWithEvaluation | Repository.Linq2SQL.Test/Satisfyr.NUnit.cs:424-448 | Whenever the value getter answers, its answer is what evaluating the node gives, for a host that evaluates constants and the lambda's parameter faithfully. |
| Assertions.Matches | Repository.Linq2SQL.Test/Satisfyr.NUnit.cs:480-497 | The matchers: a leaf holds when its compiled predicate does, and `And` when both children do. Negation (lines 693-697) holds when its source does not, and `Or` (lines 712-716) when either child does. |
| Assertions.GetMessage | Repository.Linq2SQL.Test/Satisfyr.NUnit.cs:485-487 | A leaf's message comes from its composer, so with a custom message it leads with that message and ": ". |
| Assertions.AndComposable | Repository.Linq2SQL.Test/Satisfyr.NUnit.cs:512-548 | An `And` message can be composed exactly when every failed child's message can. When both children match the message is empty, even with a custom message. |
| Assertions.OrComposable | Repository.Linq2SQL.Test/Satisfyr.NUnit.cs:587-608 | An `Or` message can be composed exactly when both children's messages can. |
| Assertions.LeafMessage | Repository.Linq2SQL.Test/Satisfyr.NUnit.cs:1492-1507 | A leaf's message exists exactly when the predicate renders and the magnifier's text can be composed, and a printer failure comes first. The message is the first line, followed by the magnifier's text on a new line when there is any. |
| Assertions.BaseMessage | Repository.Linq2SQL.Test/Satisfyr.NUnit.cs:1494-1504 | The first line is the optional "<custom>: " prefix, then the formatted value, " Should Satisfy (", the rendered predicate exactly, and ")". With a custom message, the line starts with that message and ": ". |
| Assertions.LeafMessageLeadsWithCustom | Repository.Linq2SQL.Test/Satisfyr.NUnit.cs:1492-1507 | A leaf's whole failure message starts with the custom message and ": ", whatever the magnifier adds. |
| Assertions.Raise | Repository.Linq2SQL.Test/Satisfyr.NUnit.cs:101-107 | A composed message becomes the test framework's failure. An exception raised while composing it propagates instead. |
| Assertions.Assert | Repository.Linq2SQL.Test/Satisfyr.NUnit.cs:638-646 | An assertion passes exactly when its matcher holds. Otherwise it raises the failure carrying its message. For `And`, this holds with both matchers read once, before the message. |
| Assertions.NotOperator | Repository.Linq2SQL.Test/Satisfyr.NUnit.cs:650-653 | `!a` matches exactly when `a` does not. |
| Assertions.OrOperator | Repository.Linq2SQL.Test/Satisfyr.NUnit.cs:655-658 | `x \| y` matches exactly when either matches. |
| Assertions.AndOperator | Repository.Linq2SQL.Test/Satisfyr.NUnit.cs:660-663 | `x & y` matches exactly when both match. |
| Assertions.NegationReportsSource | Repository.Linq2SQL.Test/Satisfyr.NUnit.cs:671-705 | A negation fails exactly when its source holds. It then reports the message its source would give. |
| Assertions.AndMessageParts | Repository.Linq2SQL.Test/Satisfyr.NUnit.cs:512-548 | An `And` failure holds the left child's message exactly when the left failed, the line "And" exactly when both failed, and the right child's message exactly when the right failed. |
| Assertions.AndDropsCustomMessage | Repository.Linq2SQL.Test/Satisfyr.NUnit.cs:526-541 | A custom message never appears in an `And` failure. It only adds a line break after a failed right child. |
| Assertions.OrMessageParts | Repository.Linq2SQL.Test/Satisfyr.NUnit.cs:587-603 | An `Or` failure is the left child's message, "Or", and the right child's message, each on its own line. The custom message follows on a line of its own when there is one. |
| Decomposer.ContainsActualParameter | Repository.Linq2SQL.Test/Satisfyr.NUnit.cs:302-338 | The parameter search: it looks through the operands of the listed binary kinds, `!`, member accesses and calls, finds a parameter node only if it is the lambda's own, and finds nothing in any other node kind. |
| Decomposer.ContainsImpliesMentions | Repository.Linq2SQL.Test/Satisfyr.NUnit.cs:302-338 | The search for the parameter never reports a parameter that does not occur in the tree, by an independent full-traversal definition. |
| Decomposer.Visit | Repository.Linq2SQL.Test/Satisfyr.NUnit.cs:274-298 | A body decomposes exactly when the independent node-by-node definition `Decomposable` says so. `&&` and `\|\|` need both sides to decompose. The comparisons, `!`, member accesses and parameters always decompose. `==` decomposes unless a string comparison has an unreadable operand. A call decomposes unless it is `SequenceEqual` and its magnifier cannot be built. Nothing else decomposes. A success mirrors the body: `&&` becomes And, `\|\|` becomes Or, and every other node becomes a leaf over that node with the magnifier the rules choose. A failure is one of the decomposition errors. Every kind outside the switch raises the out-of-range error. |
| Decomposer.VisitBinary | Repository.Linq2SQL.Test/Satisfyr.NUnit.cs:381-403 | The binary cases: success exactly as `Decomposable` says, mirroring the body, and the out-of-range error for a binary kind outside the switch. |
| Decomposer.CallAssertion | Repository.Linq2SQL.Test/Satisfyr.NUnit.cs:340-353 | A call becomes a leaf exactly when it is not `SequenceEqual` or its sequence magnifier can be built. The leaf carries the sequence magnifier for `SequenceEqual` and none otherwise. |
| Decomposer.EqualityAssertion | Repository.Linq2SQL.Test/Satisfyr.NUnit.cs:406-422 | `==` decomposes exactly when it has no string operand or both operands can be read. A failure is the out-of-range error for the first operand that cannot be read. With a string operand the leaf gets the string magnifier over both operand values. Otherwise it gets the binary magnifier when an operand is primitive, and none otherwise. |
| Decomposer.GetAsValues | Repository.Linq2SQL.Test/Satisfyr.NUnit.cs:359 | All arguments are read in order, and the result lists each argument's value. A failure is the value getter's failure on one of them. |
| Decomposer.AsSequence | Repository.Linq2SQL.Test/Satisfyr.NUnit.cs:355-360 | Null passes as a null sequence and an enumerable as its elements. Only non-sequence values make the magnifier's construction fail. |
| Decomposer.SequenceEqualMagnifier | Repository.Linq2SQL.Test/Satisfyr.NUnit.cs:355-360 | The magnifier is built exactly when the method has a generic argument, every argument can be read, there are two or three of them, and the first two read as sequences. The built magnifier compares what the first and the second argument read as, with the default of the method's first generic argument as the element default. Otherwise it fails on construction or while reading an argument. |
| Decomposer.ConstantText | Repository.Linq2SQL.Test/Satisfyr.NUnit.cs:287-288 | The text of a constant in the "is a constant" message: null is "null", a string stands between double quotes, an integer's text reads back as the integer, and a collection is written "value(<type name>)". |
| Decomposer.Decompose | Repository.Linq2SQL.Test/Satisfyr.NUnit.cs:264-272 | A decomposition failure comes first. The predicate is accepted exactly when it decomposes and the parameter search finds the parameter. Otherwise it is rejected as invalid operands, or by the printer while rendering the message. |
| Decomposer.Satisfies | Repository.Linq2SQL.Test/Satisfyr.NUnit.cs:93-97 | A decomposition failure is raised as is. Otherwise the decomposed tree is asserted with the custom message. |
| Decomposer.MirrorsSound | Repository.Linq2SQL.Test/Satisfyr.NUnit.cs:381-402 | A tree that mirrors a body matches exactly when the body holds, for a host that evaluates `&&` and `\|\|` as the language does. |
| Decomposer.SatisfiesIffHolds | Repository.Linq2SQL.Test/Satisfyr.NUnit.cs:84-97 | `Satisfies` passes exactly when the predicate decomposes and holds for the value under test. |
| Decomposer.UnrelatedPredicateRejected | Repository.Linq2SQL.Test/Satisfyr.NUnit.cs:264-272 | A predicate whose body never mentions its parameter is always rejected. |
| Decomposer.ConstantPredicateRejected | Repository.Linq2SQL.Test/Satisfyr.NUnit.cs:287-288 | A constant body is reported with the "is a constant" message, before the parameter search could reject it. |
| Decomposer.ConvertedOperandRejected | Repository.Linq2SQL.Test/Satisfyr.NUnit.cs:302-338 | An equality whose left side converts an operand that mentions the parameter is rejected as invalid operands, and the message shows the comparison without its left side. |

## Left out

- The repository's data-access classes (`Repository.Linq2SQL/Repository.cs`, `Repository.EntityFramework/Repository.cs`) and its NUnit fixtures: database plumbing and tests outside the assertion engine.
- Compiling and invoking expression nodes (`Expression.Compile`, `DynamicInvoke`) is the host function `Evaluation.Host.eval`, which is total. Evaluation exceptions are not modelled. For that reason `AndAssertion` reading both matchers without short-circuiting makes no observable difference in the model.
- `Activator.CreateInstance` over `MakeGenericType` is modelled by matching the argument count to the magnifier's two constructors. The comparer of the three-argument form is not used: sequences are compared with structural equality. A string argument counts as its characters.
- Element comparison is structural, where .NET's default comparer compares reference-type elements by reference. Two distinct but equal nested lists are equal in the model, so the first-difference locator and the sequence magnifier see no difference, while .NET reports one at position 0.
- `Attribute.GetCustomAttribute(..., ExtensionAttribute)` is the `isExtension` flag of a method.
- `AssertExceptionFactory` and the NUnit `AssertionException` are the `Raised(AssertionFailed(message))` outcome.
- `StackTraceFilter` is never called by the engine.
- `Environment.NewLine` is fixed to a line feed.
- `NegateAssertion`'s constructor rewrites its source's `Predicate` string, and `UnaryAssertion.GetMessage` reads it. No message of a reachable assertion reads that string, so neither is modelled.
- The `ArgumentNullException` guards on constructor arguments and on the locator's inputs cannot fail in the model's trees: every value there is present. The printer's "(null)" for a missing node is not modelled either, since every optional child is an `Option` handled where the code handles it.
- Reference equality of parameter nodes is value equality of `Param`. Two distinct parameters differ in `id`.
- A null custom message and an empty one are the same (`""`). The code only ever tests them with `IsNullOrEmpty`.
- The message texts of `ArgumentOutOfRangeException` and of the constructor failures are not modelled: only their kind is kept.
- Failures.UnsupportedNode carries the refused node's kind, which exists only in the model. Every `ArgumentOutOfRangeException` in the source (lines 298, 377, 402 and 446) names only the parameter "expression". Contracts use the kind to say which node was refused.
- Strings are sequences of Unicode scalar values, while .NET counts UTF-16 code units. A character outside the Basic Multilingual Plane is one position in the model and two in .NET's `Length`, `Substring` and the first-difference position. For such strings the reported position and the 40-character window differ: "😀a" against "😀b" is reported at position 3 by .NET and at 2 by the model.
- The text a `ConstantExpression` gives itself in the "is a constant" message comes from the .NET runtime, not from this repository. `Decomposer.ConstantText` follows the runtime's rendering.
- Magnifiers.GetStringToShow: its own contract states only the short-string case. The long-string shape is stated by `Magnifiers.LongStringShown` and `Magnifiers.ShownCharacter`.
- Decomposer.ContainsImpliesMentions: proves only one direction. The converse fails, because the search skips conversions and unlisted node kinds; `Decomposer.ConvertedOperandRejected` shows the consequence.
- Binary and unary nodes are trusted to carry a binary or unary `NodeType`, as the runtime's node classes guarantee.
