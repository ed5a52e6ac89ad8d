# oxc: the PI replacement visitor and the oxlint CLI page

This project models two small pieces of the oxc JavaScript toolchain in Dafny and proves properties of them.

**The PI replacement pass** (`crates/oxc_parser/examples/visitor.rs`) is a mutable AST visitor, `PiReplacer`. It overrides three entry points of the walk:

- When it visits a variable declarator that binds `PI` to a numeric literal, it captures that literal's value in its `pi_value` field.
- When it visits a bare `PI` read, it replaces the read with a decimal numeric literal of the captured value. The literal keeps the read's span.
- When it visits a binary expression, it visits both operands and then repeats the replacement on each operand.

Every other expression is left alone and its children are not visited.

The model has a class `PiReplacer` with a `piValue` field. The visit methods take a node and return its replacement, and they update `piValue` in place. Every method is proved against specification functions in `PassSpec`:

- `Rewrite` says what the pass makes of one expression.
- `Step` says what it makes of one statement.
- `Traverse` says what it makes of a program body.

The source's two panics become explicit errors:

- `UnboundConstant`: a `PI` read is met before anything was captured.
- `UnnamedBinding`: a destructuring declarator has no identifier name.

**The CLI page** (`tasks/website/src/linter/cli.rs`, `generate_cli`) turns the markdown that bpaf renders for the `oxlint` options into the website's page. It applies these steps in order:

1. It drops every leading `# oxlint` header line.
2. It turns the first `**Usage**:` into a `## Usage` heading.
3. It breaks every line holding `###` into its trimmed pieces, followed by an extra newline element.
4. It rewrites every `**title**` line to `## title`.
5. It wraps the result in textlint-disable comments.

The model is pure functions over `seq<char>`. The rendered markdown is the input. The Rust string operations it uses (`trim_start_matches`, `replacen`, `split`, `trim`, `strip_prefix`/`strip_suffix`, `join`) are defined in module `Text`. Their characteristic properties are proved there.

Files:

- `wrappers.dfy`: `Option`, `Result`, `Outcome`.
- `ast.dfy`: the AST fragment.
- `pass_spec.dfy`: the specification of the pass and its properties.
- `visitor.dfy`: the visitor class.
- `scenarios.dfy`: whole programs run through the pass.
- `text.dfy`: the string operations.
- `cli.dfy`: the page generation.

One case behaves differently from a reading of the example's own comment, which says every `PI` is replaced. In `const PI = 3.14; console.log(PI + PI);` the expression statement is a call. `visit_expression` leaves calls alone (its `_` arm), so the operands inside the call are never reached. The model follows the code: `Scenarios.CallArgumentsUntouched` shows such a call coming out unchanged.

## Model

| member | source | states |
|---|---|---|
| Visitor.PiReplacer.constructor | crates/oxc_parser/examples/visitor.rs:32 | A fresh replacer has captured nothing (`pi_value: None`). |
| Visitor.PiReplacer.VisitVariableDeclarator | crates/oxc_parser/examples/visitor.rs:64-71 | Fails with `UnnamedBinding` exactly when the binding has no identifier name (the `unwrap` at line 65). Captures the literal's value exactly when the name is `PI` and the initialiser is a numeric literal. Otherwise the state is unchanged. |
| Visitor.PiReplacer.VisitBinaryExpression | crates/oxc_parser/examples/visitor.rs:74-101 | Fails exactly when the specification `Rewrite` of the expression fails, and then only with `UnboundConstant`. On success the result is `Rewrite`'s: every `PI` that the operands reach is replaced, and operator and span are kept. The repeated replacement after the operand visits is performed and proved to change nothing. |
| Visitor.PiReplacer.VisitExpression | crates/oxc_parser/examples/visitor.rs:126-145 | The result is exactly `Rewrite(expr, piValue)`. A `PI` read becomes the literal of the captured value, or fails when nothing was captured. A binary expression is descended. Everything else is returned unchanged. |
| Visitor.PiReplacer.VisitStatement | crates/oxc_parser/examples/visitor.rs:36 | The inherited statement walk agrees with `Step`. A declaration visits its declarators in order and leaves the last capture. An expression statement is rewritten. Other statements are kept. A failure carries `Step`'s error. |
| Visitor.PiReplacer.VisitProgram | crates/oxc_parser/examples/visitor.rs:36 | The inherited program walk agrees with `Traverse`: it returns the rewritten body and leaves the final captured state. It fails exactly when `Traverse` fails, with the same error. |
| Visitor.Transform | crates/oxc_parser/examples/visitor.rs:32-36 | A fresh replacer visiting a program yields the result of `Traverse` from the empty state. |
| PassSpec.ReplaceIfTarget | crates/oxc_parser/examples/visitor.rs:78-100 | The replacement repeated on an operand fails exactly when the operand is a `PI` read and nothing was captured, and then with `UnboundConstant`. A `PI` read becomes a numeric literal of the captured value with its span, no raw text and decimal base. Any other node is returned as it is. No `PI` read is left at the top. |
| Visitor.Reassemble | crates/oxc_parser/examples/visitor.rs:74-101 | The binary expression keeps its span and operator and takes the two replaced operands. It fails exactly when one of them failed, with the left one's error first. |
| PassSpec.Substituted | crates/oxc_parser/examples/visitor.rs:126-145 | The replaced expression keeps its span, and no `PI` read remains reachable in it. |
| PassSpec.SubstitutedUnreached | crates/oxc_parser/examples/visitor.rs:141-144 | An expression that reaches no `PI` read is left exactly as it is. |
| PassSpec.SubstitutedSwapsOnlyTargets | crates/oxc_parser/examples/visitor.rs:74-101 | The replacement only swaps `PI` reads for literals. Operators, spans and all other nodes are unchanged. |
| PassSpec.SubstitutedIsOnlyFullSwap | crates/oxc_parser/examples/visitor.rs:74-101 | Any swap of only `PI` reads that leaves none reachable is the pass's result: the result is uniquely determined. |
| PassSpec.SubstitutedFrontier | crates/oxc_parser/examples/visitor.rs:126-145 | Read left to right, the nodes where the pass stops descending are kept, in number and order. Each one is unchanged unless it is a `PI` read, which becomes the literal. |
| PassSpec.SubstitutedIdempotent | crates/oxc_parser/examples/visitor.rs:126-145 | Replacing again, with any value, changes nothing. |
| PassSpec.RewriteIdempotent | crates/oxc_parser/examples/visitor.rs:126-145 | Visiting a visited expression again in the same state succeeds and gives it back. |
| PassSpec.SecondReplacementIsRedundant | crates/oxc_parser/examples/visitor.rs:78-100 | The replacement repeated on an operand after it was visited returns that operand unchanged. |
| PassSpec.LastCaptureIsLast | crates/oxc_parser/examples/visitor.rs:66-69 | After a run of declarators, the state is the value of the last capturing declarator. |
| PassSpec.LastCaptureWithoutCapture | crates/oxc_parser/examples/visitor.rs:66-69 | With no capturing declarator, the state is left as it was. |
| PassSpec.LastCaptureNeverResets | crates/oxc_parser/examples/visitor.rs:66-69 | Once a value is captured, it is never reset to nothing. |
| PassSpec.LastCaptureAppend | crates/oxc_parser/examples/visitor.rs:66-69 | Visiting two runs of declarators is visiting the second from the state the first leaves. |
| PassSpec.StepOutcome | crates/oxc_parser/examples/visitor.rs:64-71 | A statement visit fails exactly when the statement is blocked: an unnamed declarator, or a `PI` read with nothing captured. Otherwise it yields the settled statement and the last capture of its declarators. |
| PassSpec.TraverseSucceedsIff | crates/oxc_parser/examples/visitor.rs:36 | A program visit succeeds if and only if no statement is blocked in the state reached before it. |
| PassSpec.TraverseResult | crates/oxc_parser/examples/visitor.rs:36 | A successful program visit keeps the statement count. Statement `i` becomes its settled form in the state before it. The final state is the last capture over all declarators. |
| PassSpec.TraverseFailureSticky | crates/oxc_parser/examples/visitor.rs:65 | Once a prefix of the body fails, the whole visit fails with that error (the panic ends the run). |
| PassSpec.TraverseFront | crates/oxc_parser/examples/visitor.rs:36 | Read from the front: the first statement is visited, then the rest from the state it leaves. |
| PassSpec.StepIdempotent | crates/oxc_parser/examples/visitor.rs:64-71 | Visiting a visited statement again in the same state changes nothing. |
| PassSpec.TraverseIdempotent | crates/oxc_parser/examples/visitor.rs:36 | Running the pass again from the same state on its own output gives that output back. |
| Scenarios.BothOperandsReplaced | crates/oxc_parser/examples/visitor.rs:74-101 | `const PI = 3.14; PI + PI;` becomes `3.14 + 3.14`. The new literals have the reads' spans, no raw text and decimal base. The declaration keeps its initialiser as parsed, with raw text `3.14` and base `Float`. |
| Scenarios.NestedOperandReplaced | crates/oxc_parser/examples/visitor.rs:74-76 | A read nested in binary operands, as in `1 + x * PI`, is reached and replaced. |
| Scenarios.ParenthesisedOperandUntouched | crates/oxc_parser/examples/visitor.rs:141-144 | A read inside parentheses, as in `1 + (x + PI)`, is not reached. The parser keeps the parenthesised node, and the pass does not descend into it. |
| Scenarios.LaterDeclarationWins | crates/oxc_parser/examples/visitor.rs:66-69 | After `const PI = 1; const PI = 2;` the read becomes `2`. |
| Scenarios.ReadBeforeAnyDeclarationFails | crates/oxc_parser/examples/visitor.rs:129 | `PI + 1;` with no declaration fails with `UnboundConstant`. |
| Scenarios.ReadBeforeItsDeclarationFails | crates/oxc_parser/examples/visitor.rs:129 | A read before its declaration fails with `UnboundConstant`. |
| Scenarios.NonNumericInitialiserIgnored | crates/oxc_parser/examples/visitor.rs:67 | A `PI` bound to a non-numeric initialiser captures nothing, so a later read fails. |
| Scenarios.CallArgumentsUntouched | crates/oxc_parser/examples/visitor.rs:141-144 | After `const PI = 3.14;`, the reads inside the call `f(PI + PI)` are not rewritten: the call comes out unchanged. |
| Scenarios.DestructuringFails | crates/oxc_parser/examples/visitor.rs:65 | A destructuring declarator fails with `UnnamedBinding`. |
| Scenarios.OtherNamesUntouched | crates/oxc_parser/examples/visitor.rs:128 | Names other than `PI` are left alone, and no capture is needed for them. |
| CliPage.GenerateCli | tasks/website/src/linter/cli.rs:47-55 | The page starts with the textlint-disable prologue and ends with the textlint-enable epilogue. Exactly the processed body lies between them. |
| CliPage.GenerateCliOfPlain | tasks/website/src/linter/cli.rs:17-56 | Markdown with no header, no usage label, no `###` and no bold-title line comes out as itself wrapped in the two textlint comments. |
| CliPage.HeaderStripped | tasks/website/src/linter/cli.rs:20 | Every leading copy of `# oxlint\n` is dropped, and nothing else. |
| CliPage.UsageRewritten | tasks/website/src/linter/cli.rs:23 | Only the first `**Usage**:` becomes `## Usage\n`. The text on either side is kept. |
| CliPage.ExpandMarkedLine | tasks/website/src/linter/cli.rs:29-30 | A line holding `###` is the `###`-join of pieces that hold no `###`. It expands to those pieces, each trimmed, followed by one `"\n"` element. |
| CliPage.ExpandLinesUnmarked | tasks/website/src/linter/cli.rs:31-33 | Lines without `###` pass the expansion unchanged. |
| CliPage.ExpandLinesAppend | tasks/website/src/linter/cli.rs:27-34 | The expansion works line by line: it distributes over concatenation. |
| CliPage.MarkerSplitIsLeftmost | tasks/website/src/linter/cli.rs:30 | `####` splits at `###` into `""` and `"#"`: the cut is at the leftmost occurrence, not at the one that starts one character later. |
| CliPage.MarkedLineExample | tasks/website/src/linter/cli.rs:29-30 | `a ### b` expands to `a`, `b` and an extra newline. |
| CliPage.TrimAll | tasks/website/src/linter/cli.rs:30 | The number of pieces is kept. Piece `k` of the result stands in piece `k` of the input with only whitespace dropped before and after it (`TrimmedFrom`). It is empty or begins and ends with a non-whitespace character. |
| CliPage.RetitleIsHeading | tasks/website/src/linter/cli.rs:37-43 | Exactly the lines of at least four characters that start and end with `**` are rewritten, to `## ` followed by their inner text. Every other line is kept. |
| CliPage.RetitleShortLines | tasks/website/src/linter/cli.rs:37-43 | `**` and `***` are kept: they are too short to hold both markers. |
| CliPage.RetitleEmptyTitle | tasks/website/src/linter/cli.rs:37-39 | `****` is an empty title and becomes `## `. |
| CliPage.RetitleOptionsTitle | tasks/website/src/linter/cli.rs:37-39 | `**Options**` becomes `## Options`. |
| CliPage.RetitleAll | tasks/website/src/linter/cli.rs:35-44 | The line count is kept. Line `k` of the output is `## ` followed by the inner text of line `k` when that line is a bold title (`IsBoldTitle`: at least four characters, starting and ending with `**`). Otherwise it is line `k` unchanged. |
| CliPage.RetitleAllPlain | tasks/website/src/linter/cli.rs:43 | Lines that are not bold titles pass unchanged. |
| CliPage.BodyUnchanged | tasks/website/src/linter/cli.rs:20-46 | Markdown with no header, no usage label, no `###` and no bold-title line comes out of the body steps unchanged. |
| Text.FindFrom | tasks/website/src/linter/cli.rs:29 | Returns the first occurrence at or after a position, or none when there is no occurrence. |
| Text.FindIsFirst | tasks/website/src/linter/cli.rs:29 | `Find` (a search from position 0) returns exactly the earliest occurrence. |
| Text.TrimStartMatchesDropsRepetitions | tasks/website/src/linter/cli.rs:20 | `trim_start_matches` drops a whole number of leading repetitions of the pattern. |
| Text.TrimStartMatchesUnique | tasks/website/src/linter/cli.rs:20 | Repetitions followed by a rest that does not start with the pattern trim to exactly that rest. |
| Text.TrimStartMatches | tasks/website/src/linter/cli.rs:20 | The result never starts with a non-empty pattern. |
| Text.ReplaceFirstAt | tasks/website/src/linter/cli.rs:23 | `ReplaceFirst`, the `replacen(.., 1)` of line 23, replaces the earliest occurrence and keeps the surrounding text. |
| Text.ReplaceFirstAbsent | tasks/website/src/linter/cli.rs:23 | Without an occurrence, the text is unchanged. |
| Text.Split | tasks/website/src/linter/cli.rs:26 | Splitting yields at least one piece. |
| Text.SplitCutsAtLeftmost | tasks/website/src/linter/cli.rs:26-30 | A text is one piece exactly when it lacks the separator, and then the piece is the text. Otherwise the first piece ends at the earliest occurrence of the separator, and the other pieces are the split of what follows that occurrence. |
| Text.SplitUnfold | tasks/website/src/linter/cli.rs:26-30 | When the first occurrence is at `i`, the split is the text before `i` followed by the split of the text after the separator. |
| Text.SplitPiecesLackPattern | tasks/website/src/linter/cli.rs:26 | No piece contains the separator. |
| Text.SplitJoin | tasks/website/src/linter/cli.rs:26-46 | `Join`, the `join` of line 46, applied to the pieces with the separator gives the text back. |
| Text.JoinSplit | tasks/website/src/linter/cli.rs:26-46 | For a one-character separator, splitting a join of separator-free parts gives the parts back. |
| Text.SplitPieceIsInfix | tasks/website/src/linter/cli.rs:26 | Every piece is a contiguous part of the text. |
| Text.SplitPiecesAvoid | tasks/website/src/linter/cli.rs:26-29 | A pattern absent from the text is absent from every piece. |
| Text.StripPrefix | tasks/website/src/linter/cli.rs:37 | Gives the rest after the prefix exactly when the text starts with it; the prefix followed by the rest is the text. |
| Text.StripSuffix | tasks/website/src/linter/cli.rs:38 | Gives the text before the suffix exactly when the text ends with it; that text followed by the suffix is the text. |
| Text.OccursAtContains | tasks/website/src/linter/cli.rs:29 | An occurrence at any position means the text contains the pattern (`Contains`, the `contains` of line 29). |
| Text.TrimStart | tasks/website/src/linter/cli.rs:30 | Drops only leading whitespace and stops at a non-whitespace character. |
| Text.TrimEnd | tasks/website/src/linter/cli.rs:30 | Drops only trailing whitespace and stops at a non-whitespace character. |
| Text.Trim | tasks/website/src/linter/cli.rs:30 | The result is empty or begins and ends with a non-whitespace character. |
| Text.TrimKeepsInfix | tasks/website/src/linter/cli.rs:30 | The trimmed text is a contiguous part of the input, and only whitespace was dropped on either side. |
| Text.TrimPadded | tasks/website/src/linter/cli.rs:30 | Padding a trimmed string with whitespace on either side trims back to it. |

Several specification functions carry no contract of their own. The lemmas named here state what they mean:

- `CliPage.Body` (cli.rs:20-46): `BodyUnchanged`, `HeaderStripped`, `UsageRewritten`, `GenerateCliOfPlain`.
- `CliPage.ExpandLine` (cli.rs:29-33): `ExpandMarkedLine`, `MarkedLineExample`.
- `CliPage.ExpandLines` (cli.rs:25-34): `ExpandLinesUnmarked`, `ExpandLinesAppend`.
- `CliPage.Retitle` (cli.rs:35-44): `RetitleIsHeading`.
- `Text.Find` and `Text.Contains` (cli.rs:29): `FindIsFirst`, `OccursAtContains`.
- `Text.ReplaceFirst` (cli.rs:23): `ReplaceFirstAt`, `ReplaceFirstAbsent`.
- `Text.Join` (cli.rs:46): `SplitJoin`, `JoinSplit`.
- `PassSpec.Rewrite` (visitor.rs:126-145): `Visitor.PiReplacer.VisitExpression`, `RewriteIdempotent`, `SecondReplacementIsRedundant`.
- `PassSpec.Step` (visitor.rs:64-71): `StepOutcome`, `StepIdempotent`.
- `PassSpec.Traverse` (visitor.rs:36): `TraverseSucceedsIff`, `TraverseResult`, `TraverseFailureSticky`, `TraverseFront`, `TraverseIdempotent`.
- `PassSpec.LastCapture` (visitor.rs:66-69): `LastCaptureIsLast`, `LastCaptureWithoutCapture`, `LastCaptureNeverResets`, `LastCaptureAppend`.
- `Ast.ExpressionNumericLiteral` (visitor.rs:81-86, 94-99 and 130-135): `PassSpec.ReplaceIfTarget`, whose contract states the node it builds.

## Left out

- `main` in visitor.rs is modelled only by `Visitor.Transform`. Reading the file, parsing (`Parser::parse`), printing diagnostics, code generation (`CodeGenerator`) and `println!` are I/O or calls into other crates.
- `codegen` in visitor.rs is code generation from another crate.
- The commented-out second `visit_variable_declarator` in visitor.rs is not compiled, so it is not modelled.
- The node arena and `AstBuilder` are left out: building a literal node is a plain datatype value.
- `f64` is modelled as `real`. The pass only copies the value and never computes with it.
- The inherited `VisitMut` walks are not part of this model. The model assumes a narrower walk than the real one:
  - a program visits its statements in order;
  - a variable declaration visits its declarators in order;
  - an expression statement visits its expression;
  - every other statement kind is `OtherStatement` and is left untouched.
- The real walk also descends into blocks, `if` and loop bodies, function bodies and `export` declarations. There it reaches the overridden expression and declarator visits. So `if (c) { PI + 1; }` and `export const PI = 3.14;` are visited by the program, but they are not covered by this model.
- Parenthesised expressions are kept as nodes by the parser's default options. The model treats them as `Other`, because the pass does not descend into them.
- The AST covers only the node kinds the pass inspects. Every other expression is `Other` with its children. Every other statement is `OtherStatement`. A binding is a simple identifier or an object or array pattern. Assignment patterns are not modelled.
- Visitor.PiReplacer.VisitStatement: the value of `piValue` after a failure is not stated, because the source panics there and the state is never observed again.
- Visitor.PiReplacer.VisitProgram: the value of `piValue` after a failure is not stated, for the same reason.
- In-place rewriting through `&mut` is modelled as a visit that takes a node and returns its replacement. Rust's exclusive references rule out aliasing, so no aliasing is lost.
- The `println!` inside `visit_binary_expression` is output only and is left out.
- `lint_options().to_options().render_markdown("oxlint")` belongs to bpaf and oxc_cli. The rendered markdown is the input of `CliPage.GenerateCli`.
- `print_cli` and `test_cli` in cli.rs are output and a snapshot test.
- Text.Split: only the piece count is stated in its own contract. What the pieces are is stated by lemmas: `SplitCutsAtLeftmost` and `SplitUnfold` fix every piece (the cut is at the leftmost occurrence, found by `FindFrom` and characterised by `FindIsFirst`). `SplitJoin`, `SplitPiecesLackPattern` and `SplitPieceIsInfix` alone would not fix the pieces for a separator that can overlap itself, such as `###` in `####`. `JoinSplit` fixes them from the parts only for a one-character separator such as the `'\n'` of line 26.
