# ICFP Contest 2024 tools, modelled in Dafny

This project models the core of a team's tool set for the ICFP Programming
Contest 2024. The tools work on two languages.

- **The ICFP wire language.** Programs are space-separated tokens with a
  one-character indicator: `I` integer, `T`/`F` boolean, `S` string, `U`
  unary operator, `B` binary operator, `?` if, `L` lambda, `v` variable.
  Integers are base-94 numerals over the printable characters `!`..`~`.
  Strings use the same 94 characters, permuted into a text alphabet.
  The core modelled here:
  - the codec (`IcfpUtil`);
  - the tokenizer (`IcfpTokenizer`) and the prefix parser (`IcfpParser`);
  - the caching evaluator with its one-step lambda application (`IcfpEvaluator`);
  - the Common Lisp transpiler (`IcfpTranspiler`);
  - the built-in Y combinator and repeat-character terms (`IcfpBuiltin`);
  - the run-length minifier that builds a program printing a given text (`Minify`).
- **The 3D language.** Programs are grids of cells holding integers,
  operators or `.`. The model covers the grid tokenizer
  (`ThreeDTokenizer`) and the emulator (`ThreeDEmulator`). The emulator
  moves integers along arrows, computes, compares and submits. It can also
  travel back in time: it rolls back to an earlier board and writes values
  there.
- **The first draft of the wire-language tools.** This is the earlier codec
  (`DraftUtil`) and the earlier tokenizer (`DraftTokenizer`) that predate
  the `icfp` module.

Modelling choices:
- A Rust `panic!`, `unwrap` or `expect` on a reachable input is a `None`
  (`Option`) or a `Panic` outcome, never a precondition. The exception is
  the places listed under "Left out".
- Code that mutates state keeps the source's shape:
  - The tokenizers, the parser, the evaluator and the emulator are classes.
  - Their methods have the source's loops and fields.
  - Each method is proved equal to a specification function, and the
    lemmas are stated about those functions.
- Pure code becomes functions. This covers the codec's tables, the
  transpiler, the built-in terms, and the minifier's run collection and
  node generator.
- Evaluation is bounded by explicit fuel. `Outcome` is `Value`, `Panic` or
  `OutOfFuel`. Monotonicity and determinism lemmas show that the fuel
  bound does not change any finished result.

Behaviour of the code that the model keeps, as written:
- The 3D emulator's `Div` subtracts one from every quotient of operands of
  opposite signs, exact ones included.
- `tick` drops the board computed on a time-travel rollback.
- The minifier prints the last run twice whenever that run is at most
  `LiteralLimit` long.
- `repeat_char` drops one copy of the first text character `a`.

Each of these has a corrected counterpart under "Findings". A text that is a
single run longer than `LiteralLimit` makes the minifier emit a body `v0 $ k`.
The evaluator panics on that body (`Minify.LongRunPanics`): after one
application step the left operand of `$` is not literally a Lambda.

## Model

| member | source | states |
|---|---|---|
| IcfpUtil.ConvertInteger | src/icfp/util.rs:4-11 | The Horner loop returns the base-94 value of a numeral over IntegerAscii, and `None` (the panic) exactly when some character is outside the alphabet. |
| IcfpUtil.DeconvertInteger | src/icfp/util.rs:13-25 | The digit loop returns EncodeInteger(n): digits least significant first, reversed, and "!" for zero. |
| IcfpUtil.ConvertString | src/icfp/util.rs:27-34 | The substitution loop maps a wire body to its text, and gives `None` on a character outside IntegerAscii. |
| IcfpUtil.DeconvertString | src/icfp/util.rs:36-43 | The inverse substitution maps a text to its wire body, and gives `None` on a character outside StringAscii. |
| IcfpUtil.AlphabetsDistinct | src/icfp/util.rs:1-2 | Both alphabets have 94 pairwise distinct characters, so `find` is a bijection onto the digit values. |
| IcfpUtil.IntegerAsciiLiteral | src/icfp/util.rs:1 | The integer alphabet is the characters `!`..`~` in code-point order. |
| IcfpUtil.StringAsciiLiteral | src/icfp/util.rs:2 | The text alphabet is the source's 94-character string. |
| IcfpUtil.IntegerRoundTrip | src/icfp/util.rs:4-25 | Decoding the encoding of any natural number gives it back. |
| IcfpUtil.EncodeIntegerCanonical | src/icfp/util.rs:13-25 | An encoding is never empty, and it starts with the zero digit `!` iff the number is zero. |
| IcfpUtil.CanonicalDecodeEncode | src/icfp/util.rs:4-25 | A numeral without a leading zero digit is the encoding of its own value (the other direction of the round trip). |
| IcfpUtil.EncodeIntegerExample | src/icfp/util.rs:49-52 | 3389 encodes as "E&" and decodes back. |
| IcfpUtil.TextRoundTrip | src/icfp/util.rs:27-43 | A text over StringAscii, encoded and then decoded, comes back unchanged. |
| IcfpUtil.WireRoundTrip | src/icfp/util.rs:27-43 | A wire body over IntegerAscii, decoded and then encoded, comes back unchanged. |
| IcfpUtil.Find | src/icfp/util.rs:7 | `find` gives a position that holds the character, and `None` (where `unwrap` panics) exactly when the character does not occur. |
| IcfpUtil.IndexOf | src/icfp/util.rs:39 | For a character that occurs, the position is the first one holding it. |
| IcfpTokenizer.ScanToken | src/icfp/tokenizer.rs:54-73 | One token read from the front of the text consumes at least one character and no more than the text holds. |
| IcfpTokenizer.Tokenizer.constructor | src/icfp/tokenizer.rs:48-52 | A new tokenizer reads from position 0 of its input. |
| IcfpTokenizer.Tokenizer.Tokenize | src/icfp/tokenizer.rs:54-73 | The loop skips spaces and returns the token list Lex of the rest of the input, or `None` when a token panics. |
| IcfpTokenizer.Tokenizer.NextToken | src/icfp/tokenizer.rs:58-70 | The dispatch on the indicator reads exactly the token ScanToken describes and advances past it. |
| IcfpTokenizer.Tokenizer.ReadRun | src/icfp/tokenizer.rs:75-88 | Reads up to the next space or the end, and returns exactly those characters. |
| IcfpTokenizer.Tokenizer.TokenizeInteger | src/icfp/tokenizer.rs:75-88 | `I` followed by a numeral: the decoded integer, or `None` on a bad digit. |
| IcfpTokenizer.Tokenizer.TokenizeBoolean | src/icfp/tokenizer.rs:90-105 | A run starting with `T` or `F` never fails, and its value is read from its `T`/`F` characters. |
| IcfpTokenizer.Tokenizer.TokenizeString | src/icfp/tokenizer.rs:107-120 | `S` followed by a wire body: the decoded text, or `None`. |
| IcfpTokenizer.Tokenizer.TokenizeUnaryOperator | src/icfp/tokenizer.rs:122-135 | `U` followed by a name: a unary operator token with that name. |
| IcfpTokenizer.Tokenizer.TokenizeBinaryOperator | src/icfp/tokenizer.rs:137-150 | `B` followed by a name: a binary operator token with that name. |
| IcfpTokenizer.Tokenizer.TokenizeIf | src/icfp/tokenizer.rs:152-155 | `?` is the If token and consumes one character. |
| IcfpTokenizer.Tokenizer.TokenizeLambda | src/icfp/tokenizer.rs:157-170 | `L` followed by a numeral: a Lambda with the decoded binder. |
| IcfpTokenizer.Tokenizer.TokenizeVariable | src/icfp/tokenizer.rs:172-185 | `v` followed by a numeral: a Variable with the decoded index. |
| IcfpTokenizer.Tokenizer.TokenizeUnknown | src/icfp/tokenizer.rs:187-199 | Any other indicator gives an Unknown token holding the run. |
| IcfpTokenizer.ScanPrinted | src/icfp/tokenizer.rs:22-73 | Scanning a printed token gives back the token, and consumes exactly its printed form. |
| IcfpTokenizer.TokenToString | src/icfp/tokenizer.rs:22-40 | Panics (`None`) exactly on a String token whose text leaves the text alphabet. A token whose names hold no space prints as one space-free word that tokenizes back to the token. |
| IcfpTokenizer.TokenRoundTrip | src/icfp/tokenizer.rs:22-73 | Tokenizing a printed token gives back that token. An Unknown token comes back as a unary operator, as `to_string` prints it. |
| IcfpTokenizer.TokensRoundTrip | src/icfp/tokenizer.rs:22-73 | Tokenizing the space-joined printed forms of any token sequence gives back the sequence. |
| IcfpTokenizer.PrintTokens | src/icfp/parser.rs:82-85 | Printing a token list panics iff one of its tokens does; otherwise it gives every token's printed form, in order. |
| IcfpTokenizer.LexIntegerExample | src/icfp/tokenizer.rs:207-217 | "I/6 + I5" reads as 1337, Unknown "+", 20. |
| IcfpTokenizer.LexBooleanExample | src/icfp/tokenizer.rs:90-105 | A boolean run keeps only its `T`/`F` characters: "TX" is true and "TF" is false. |
| IcfpTokenizer.LexStringExample | src/icfp/tokenizer.rs:234-240 | "SB%,,/}Q/2,$_" reads as the string "Hello World!". |
| IcfpTokenizer.LexBinderExample | src/icfp/tokenizer.rs:271-295 | "L#" is Lambda 2, "v#" is Variable 2 and "?" is If. |
| IcfpParser.Size | src/icfp/parser.rs:6-15 | The number of nodes of a tree is positive. |
| IcfpParser.Preorder | src/icfp/parser.rs:51-87 | The prefix token sequence of a tree is never empty. |
| IcfpParser.AsUsize | src/icfp/parser.rs:55 | The `as usize` cast keeps a non-negative value and adds 2^64 to a negative `isize`. |
| IcfpParser.PreorderPrintable | src/icfp/parser.rs:51-87 | Every prefix token of a tree prints iff every string leaf is over the text alphabet. |
| IcfpParser.NodeToString | src/icfp/parser.rs:51-87 | Printing a tree panics exactly when a string leaf holds a character outside the text alphabet. Operator names and negative integers print without a panic. |
| IcfpParser.PrintablePrints | src/icfp/parser.rs:51-87 | A tree with non-negative integers, space-free operator names and text-alphabet strings prints. |
| IcfpParser.ParseAt | src/icfp/parser.rs:107-170 | The tree read from a position, and a later position where reading stopped; `None` on an Unknown token or missing tokens. |
| IcfpParser.Parser.constructor | src/icfp/parser.rs:96-101 | A new parser reads from token 0. |
| IcfpParser.Parser.Parse | src/icfp/parser.rs:103-105 | Returns ParseAt of the tokens from the read position. |
| IcfpParser.Parser.ParseNode | src/icfp/parser.rs:107-131 | The dispatch reads what ParseAt reads and leaves the position where ParseAt stops. |
| IcfpParser.Parser.ParseUnary | src/icfp/parser.rs:133-141 | A unary operator token followed by one tree. |
| IcfpParser.Parser.ParseBinary | src/icfp/parser.rs:143-152 | A binary operator token followed by the left tree, then the right tree. |
| IcfpParser.Parser.ParseIf | src/icfp/parser.rs:154-160 | If, then the condition, then-branch and else-branch in that order. |
| IcfpParser.Parser.ParseLambda | src/icfp/parser.rs:162-170 | A Lambda token followed by its body. |
| IcfpParser.ParseIffOccurs | src/icfp/parser.rs:107-170 | The parser reads tree n at position p iff the prefix tokens of n occur at p, and then it stops right after them. |
| IcfpParser.ParsePreorder | src/icfp/parser.rs:107-170 | The prefix tokens of a tree, with any tokens before and after them, parse back to the tree. |
| IcfpParser.ParseInvertsPreorder | src/icfp/parser.rs:103-170 | Parsing the prefix tokens of any tree gives the tree and consumes them all. |
| IcfpParser.WireRoundTrip | src/icfp/parser.rs:51-170 | Printing a tree, tokenizing the text and parsing the tokens gives back the tree. |
| IcfpParser.ParseRejects | src/icfp/parser.rs:107-131 | An Unknown token where a tree is expected panics, and so does running out of tokens. |
| IcfpParser.ParseNestedUnaryExample | src/icfp/parser.rs:191-209 | "U- U- I$" parses as -(-(3)). |
| IcfpParser.ParseIfExample | src/icfp/parser.rs:256-279 | An If reads its condition, then its then-branch, then its else-branch. |
| IcfpEvaluator.Evaluator.constructor | src/icfp/evaluator.rs:17-23 | A new evaluator holds the program, an empty cache and a zero count. |
| IcfpEvaluator.Evaluator.Evaluate | src/icfp/evaluator.rs:25-34 | Every finished result is Run of the program (evaluate, and again unless the result is a String or an Integer), and it is found whenever the fuel suffices. The cache only grows. |
| IcfpEvaluator.Evaluator.EvaluateNode | src/icfp/evaluator.rs:36-64 | A cached node gives its stored value without counting. Otherwise the node is counted and its result cached. Every finished result equals Eval. |
| IcfpEvaluator.Evaluator.EvaluateIf | src/icfp/evaluator.rs:51-58 | The If arm agrees with EvalIf: the selected branch, or a panic on a non-Boolean condition. |
| IcfpEvaluator.Evaluator.EvaluateUnaryOperator | src/icfp/evaluator.rs:66-97 | Agrees with EvalUnary: the operand is evaluated, then `-`, `!`, `#` or `$` is applied, or the evaluator panics. |
| IcfpEvaluator.Evaluator.EvaluateBinaryOperator | src/icfp/evaluator.rs:99-114 | Both operands are evaluated left to right and then combined, as EvalBinary says. |
| IcfpEvaluator.Evaluator.EvaluateCombination | src/icfp/evaluator.rs:115-177 | The operator table, the Lambda-chain loop, the one-step application and the unreduced fallback agree with Combine. |
| IcfpEvaluator.Evaluator.ApplyLambdaChain | src/icfp/evaluator.rs:151-169 | The loop of one-step applications agrees with Chain under the same bound. |
| IcfpEvaluator.EvalMonotone | src/icfp/evaluator.rs:36-64 | More fuel never changes a finished result. |
| IcfpEvaluator.EvalDeterministic | src/icfp/evaluator.rs:36-64 | Two finished runs of a node agree, whatever fuel each was given. |
| IcfpEvaluator.ReplaceInert | src/icfp/evaluator.rs:198-234 | A substitution that maps each touched free variable to itself changes nothing, so a Lambda that rebinds a variable shields its body. |
| IcfpEvaluator.ReplaceFreeVars | src/icfp/evaluator.rs:198-234 | With closed bindings, a variable is free after substitution iff it was free and not replaced. |
| IcfpEvaluator.ApplyOneClosed | src/icfp/evaluator.rs:181-196 | One beta step on a closed application gives a closed tree. |
| IcfpEvaluator.ApplyIdentity | src/icfp/evaluator.rs:181-196 | Applying the identity Lambda gives back the argument, unevaluated. |
| IcfpEvaluator.ApplyOneExample | src/icfp/evaluator.rs:454-491 | One step substitutes the unevaluated argument and leaves the resulting `$` node unreduced. |
| IcfpEvaluator.IntegerStringRoundTrip | src/icfp/evaluator.rs:78-94 | `#` after `$` gives back a non-negative integer. A negative integer prints as the empty string, which reads as 0. |
| IcfpEvaluator.StringIntegerRoundTrip | src/icfp/evaluator.rs:78-94 | `$` after `#` gives back a text whose encoding has no leading zero digit. |
| IcfpEvaluator.UnaryExamples | src/icfp/evaluator.rs:247-265 | Negation and logical not on literals. |
| IcfpEvaluator.IntegerToStringExample | src/icfp/evaluator.rs:247-265 | 15818151 prints as "test". |
| IcfpEvaluator.ArithmeticTable | src/icfp/evaluator.rs:116-132 | The arithmetic and comparison rows agree with the integer operations, division and remainder truncating toward zero. A zero divisor panics (iff). |
| IcfpEvaluator.BinaryExamples | src/icfp/evaluator.rs:268-360 | The test's Integer rows, including negative quotients truncated toward zero. |
| IcfpEvaluator.BinaryTextExamples | src/icfp/evaluator.rs:268-360 | The test's Boolean and String rows. |
| IcfpEvaluator.TakeDropSplit | src/icfp/evaluator.rs:141-150 | What `T k` keeps, followed by what `D k` drops, is the whole string, and `T k` keeps min(k, length) characters. |
| IcfpEvaluator.ValuesSelfEvaluate | src/icfp/evaluator.rs:42-46 | Literals, variables and Lambdas evaluate to themselves. |
| IcfpEvaluator.IfSelects | src/icfp/evaluator.rs:51-58 | An If evaluates the branch its condition selects, and panics on a condition that is not a Boolean. |
| IcfpEvaluator.UnmatchedStaysUnreduced | src/icfp/evaluator.rs:176 | A binary node that no table row matches, and that is not an application, evaluates to itself. |
| IcfpEvaluator.LambdaExamples | src/icfp/evaluator.rs:363-438 | A Lambda evaluates to itself, with or without free variables. |
| IcfpEvaluator.IncrementExample | src/icfp/evaluator.rs:363-438 | Applying `Lambda 1. 1 + v1` to 42 gives 43. |
| IcfpEvaluator.CurriedSumExample | src/icfp/evaluator.rs:363-438 | The curried sum of 42 and 43 is 85. |
| IcfpEvaluator.HelloWorldExample | src/icfp/evaluator.rs:441-451 | The "Hello World!" program evaluates to its concatenated string. |
| IcfpTranspiler.Transpile | src/icfp/transpiler.rs:17-71 | Every tree prints as a non-empty Lisp expression. |
| IcfpTranspiler.IntegerText | src/icfp/transpiler.rs:19 | An integer prints as decimal text that reads back as the same integer. |
| IcfpTranspiler.VariableName | src/icfp/transpiler.rs:22 | A variable prints as `v` followed by the decimal digits of its index. |
| IcfpTranspiler.VariableNamesDistinct | src/icfp/transpiler.rs:22 | Two indices print the same name iff they are equal. |
| IcfpTranspiler.NotIgnoresOperand | src/icfp/transpiler.rs:23-35 | `!` prints `nil` for the literal `true` and `1` for every other operand, and never prints the operand. |
| IcfpTranspiler.TranspileBalanced | src/icfp/transpiler.rs:17-71 | With parenthesis-free names, the printed expression has balanced parentheses. |
| IcfpTranspiler.ArithmeticExamples | src/icfp/transpiler.rs:86-121 | `(+ 1 2)`, `-1` and `nil` as in the tests. |
| IcfpTranspiler.NestedSumExample | src/icfp/transpiler.rs:124-152 | Nested sums print as nested forms. |
| IcfpTranspiler.IfExamples | src/icfp/transpiler.rs:198-213 | An If prints as `(if c t e)`, with `1`/`nil` for the Booleans. |
| IcfpTranspiler.LambdaExample | src/icfp/transpiler.rs:216-258 | A Lambda prints as `(lambda (v2) ...)`. |
| IcfpTranspiler.NestedLambdaExample | src/icfp/transpiler.rs:261-298 | Nested Lambdas print as nested forms. |
| IcfpTranspiler.ApplicationExample | src/icfp/transpiler.rs:301-327 | `$` prints as `funcall`. |
| IcfpBuiltin.YCombinator | src/icfp/builtin.rs:15-49 | The combinator is a closed Lambda. |
| IcfpBuiltin.RepeatChar | src/icfp/builtin.rs:53-88 | The repeat function as written, with the bound 94, is a closed Lambda. |
| IcfpBuiltin.RepeatCharWith | src/icfp/builtin.rs:53-88 | The repeat function is a closed Lambda whatever its comparison bound. |
| IcfpBuiltin.RepeatCharOperator | src/icfp/builtin.rs:90-94 | 94 * times + the character's index. It is defined iff times >= 1 and the character is in StringAscii, and then it is at least 94. |
| IcfpBuiltin.RepeatCharOperatorDecodes | src/icfp/builtin.rs:90-94 | The number's remainder by 94 is the character's index and its quotient is the count. |
| IcfpBuiltin.RepeatCharOperatorExample | src/icfp/builtin.rs:121-124 | `repeat_char_operator('a', 3)` is 282. |
| IcfpBuiltin.FixUnrolls | src/icfp/builtin.rs:15-49 | The combinator applied to the repeat function evaluates to the unrolled function. |
| IcfpBuiltin.RepeatProgram | src/icfp/builtin.rs:15-88 | `(Y $ repeat) $ k` evaluates, on both passes of `evaluate`, to the characters the repeat recursion prints. |
| IcfpBuiltin.RepeatCopies | src/icfp/builtin.rs:53-88 | Under the bound 94 the argument 94t+i prints t copies, and one fewer when i is 0. |
| IcfpBuiltin.RepeatCharMeaning | src/icfp/builtin.rs:90-94 | The term as written prints `times` copies of the character, except `times - 1` copies of `a`. |
| IcfpBuiltin.RepeatDropsCopyExample | src/icfp/builtin.rs:103-118 | The as-written function turns 282 into "aa", not "aaa". |
| IcfpBuiltin.RepeatCharFixed | src/icfp/builtin.rs:58-63 | The repeat function with the bound 93 is a closed Lambda. |
| IcfpBuiltin.RepeatFixedCopies | src/icfp/builtin.rs:53-88 | Under the bound 93 the argument 94t+i prints exactly t copies. |
| IcfpBuiltin.RepeatCharFixedMeaning | src/icfp/builtin.rs:90-94 | With the bound 93 the term prints exactly `times` copies of every character. |
| IcfpBuiltin.RepeatFixedExample | src/icfp/builtin.rs:58-63 | Under the bound 93, 282 gives "aaa". |
| Minify.GetCompressCollection | src/bin/minify.rs:10-31 | The loop returns RunsOf(text), the maximal runs read left to right. |
| Minify.RunsOf | src/bin/minify.rs:10-31 | There are no more runs than characters, and no runs iff the text is empty. |
| Minify.RunsExpand | src/bin/minify.rs:10-31 | Expanding the runs gives back the text. |
| Minify.RunsWellFormed | src/bin/minify.rs:10-31 | The runs are well formed: positive counts, and neighbours of different characters. |
| Minify.RunsUnique | src/bin/minify.rs:10-31 | Every well-formed run sequence is the collection of its own expansion, so RunsOf is the only one. |
| Minify.RunsExample | src/bin/minify.rs:114-118 | "aaabbbccc" gives three runs of three. |
| Minify.GroupEnd | src/bin/minify.rs:49-58 | The loop stops at the first run longer than LiteralLimit, or else at the last run. |
| Minify.GroupEndUnique | src/bin/minify.rs:49-58 | Those conditions single out one index. |
| Minify.TakeGroup | src/bin/minify.rs:46-57 | One pass of the inner loop as written takes at least one run off the queue. |
| Minify.TakeGroupFixed | src/bin/minify.rs:46-57 | The corrected pass also takes at least one run off the queue. |
| Minify.CompressConcat | src/bin/minify.rs:58-81 | The as-written body is a `.` node, except for a text of one run longer than LiteralLimit, whose body is the bare `v0 $ k`. |
| Minify.CompressFixedConcat | src/bin/minify.rs:58-81 | For two runs or more the corrected body is a `.` node. |
| Minify.GenerateCompressNode | src/bin/minify.rs:42-85 | The recursive generator returns CompressNode of the queue. |
| Minify.CompressNode | src/bin/minify.rs:42-85 | Gives the empty node iff the queue is empty, and never panics on runs of printable characters. |
| Minify.CompressMeaning | src/bin/minify.rs:42-85 | With v0 bound to the repeat function, the as-written node evaluates to Printed. |
| Minify.PrintedDuplicatesLastRun | src/bin/minify.rs:49-58 | With exact repetition, the as-written node prints the text, then the last run again when it is at most LiteralLimit long. |
| Minify.DuplicatedRunExample | src/bin/minify.rs:49-58 | "ab" is two runs, and the as-written node prints "abb". |
| Minify.DuplicatedProgramExample | src/bin/minify.rs:33-107 | main's program for "ab" evaluates to "abb". |
| Minify.CompressNodeFixed | src/bin/minify.rs:42-85 | Gives the empty node iff the queue is empty, and never panics on runs of printable characters. |
| Minify.CompressFixedMeaning | src/bin/minify.rs:42-85 | With v0 bound, the corrected node evaluates to PrintedFixed. |
| Minify.PrintedFixedExpands | src/bin/minify.rs:49-58 | The corrected node prints exactly the text. |
| Minify.MinifyFixedPrintsText | src/bin/minify.rs:33-107 | The corrected program, run in the evaluator, prints exactly the text whenever the text has two runs or more. |
| Minify.CompressPrintable | src/bin/minify.rs:42-85 | Every node the generator builds from printable runs can be printed on the wire. |
| Minify.MainPrintable | src/bin/minify.rs:33-107 | For a non-empty text over StringAscii the generator succeeds and its program prints. |
| Minify.Shorter | src/bin/minify.rs:100-106 | The output is the plain String's wire text unless the program's is strictly shorter, so it is never longer than either. |
| Minify.Minify | src/bin/minify.rs:33-107 | main on the trimmed line. It panics iff the line is empty or holds a character outside StringAscii. |
| Minify.MinifyFixed | src/bin/minify.rs:33-107 | The corrected main panics on exactly the same lines. |
| Minify.MinifyProgramPrints | src/bin/minify.rs:33-107 | main's program, run in the evaluator, prints Printed of the text's runs. |
| Minify.LongRunPanics | src/bin/minify.rs:33-107 | For a text of one run longer than LiteralLimit, main's program panics in the evaluator. |
| Minify.BareProgramPanics | src/bin/minify.rs:33-107 | A body `v0 $ k` leaves a `$` whose left side is not literally a Lambda, so evaluation panics. |
| ThreeDTokenizer.OperatorText | src/three_d/tokenizer.rs:28-46 | Every operator prints as one character other than `.`. |
| ThreeDTokenizer.OperatorRoundTrip | src/three_d/tokenizer.rs:93-110 | Reading an operator's symbol back gives the operator. |
| ThreeDTokenizer.TokenRoundTrip | src/three_d/tokenizer.rs:57-63 | Reading a printed token back as a field gives the token. |
| ThreeDTokenizer.FieldExamples | src/three_d/tokenizer.rs:85-110 | "-3" is an integer, while "-" alone is Sub. "." is empty and an unknown symbol panics. |
| ThreeDTokenizer.TrimStart | src/three_d/tokenizer.rs:71-78 | Drops exactly the longest whitespace prefix. |
| ThreeDTokenizer.TrimEnd | src/three_d/tokenizer.rs:71-78 | Drops exactly the longest whitespace suffix. |
| ThreeDTokenizer.SplitNewlines | src/three_d/tokenizer.rs:71-78 | At least one piece, and no piece holds a newline. |
| ThreeDTokenizer.Fields | src/three_d/tokenizer.rs:71-78 | `split_whitespace`: non-empty fields without whitespace. |
| ThreeDTokenizer.FieldsSpaced | src/three_d/tokenizer.rs:71-78 | Splitting space-joined fields gives the fields back. |
| ThreeDTokenizer.TokenizeRow | src/three_d/tokenizer.rs:82-113 | A row that reads has one token per field. |
| ThreeDTokenizer.TokenizeGrid | src/three_d/tokenizer.rs:80-116 | A grid that reads has one row of tokens per row of fields. |
| ThreeDTokenizer.RowCells | src/three_d/tokenizer.rs:82-113 | A row reads iff each field does, and then cell j is the token of field j. |
| ThreeDTokenizer.GridRows | src/three_d/tokenizer.rs:80-116 | The grid reads iff each row does, and then row i holds the tokens of row i. |
| ThreeDTokenizer.RowFails | src/three_d/tokenizer.rs:80-116 | A field that does not read, anywhere, makes the whole grid fail. |
| ThreeDTokenizer.Tokenizer.constructor | src/three_d/tokenizer.rs:71-78 | A new tokenizer holds the trimmed, split grid of fields. |
| ThreeDTokenizer.Tokenizer.Tokenize | src/three_d/tokenizer.rs:80-116 | The nested loop returns TokenizeGrid of the fields, or `None` for the panic. |
| ThreeDTokenizer.SampleRowsExample | src/three_d/tokenizer.rs:124-169 | The first two rows of the test grid read as the expected tokens. |
| ThreeDEmulator.Emulator.New | src/three_d/emulator.rs:24-46 | Starts at tick 1 with no history, at the first submit cell in row-major order. It panics iff the board has no submit cell. |
| ThreeDEmulator.Emulator.Init | src/three_d/emulator.rs:24-46 | The emulator holds the board and the submit position, at tick 1 with no history. |
| ThreeDEmulator.FirstSubmit | src/three_d/emulator.rs:24-46 | The found cell is a submit cell and no earlier cell is one. `None` iff there is none. |
| ThreeDEmulator.Emulator.GetHistory | src/three_d/emulator.rs:77-81 | The board recorded n ticks back. |
| ThreeDEmulator.Emulator.Tick | src/three_d/emulator.rs:48-60 | Counts the tick and peeks. A rollback cuts the history and turns the counter back, keeping the board. Otherwise the next board is recorded and becomes the board. A panic is `None`. |
| ThreeDEmulator.Emulator.TickFixed | src/three_d/emulator.rs:48-60 | As Tick, except that a rollback also makes the peeked board the board. |
| ThreeDEmulator.Emulator.IsStuck | src/three_d/emulator.rs:71-75 | True iff peeking gives the same board back. |
| ThreeDEmulator.Emulator.Peek | src/three_d/emulator.rs:83-330 | Returns Next(board, history) and changes nothing. |
| ThreeDEmulator.Emulator.RunScan | src/three_d/emulator.rs:90-320 | Each of the four scans, row by row and cell by cell, computes Scan. |
| ThreeDEmulator.Emulator.JumpAround | src/three_d/emulator.rs:98-134 | The loop over an integer's four neighbours computes Jumps. |
| ThreeDEmulator.Emulator.Settle | src/three_d/emulator.rs:271-330 | The end of peek, once the plan is collected, gives Next. |
| ThreeDEmulator.Emulator.TravelBack | src/three_d/emulator.rs:271-318 | The warp branch gives Next: one target tick and the past board with the writes, or a panic. |
| ThreeDEmulator.Emulator.Land | src/three_d/emulator.rs:321-328 | Without warps, clears then writes give Next, and a write off the board panics. |
| ThreeDEmulator.Apply | src/three_d/emulator.rs:321-328 | The clearing and writing loops on a copy of the board give Applied. |
| ThreeDEmulator.ClearAll | src/three_d/emulator.rs:321-324 | Cleared cells are empty, the others unchanged, and the shape is kept. |
| ThreeDEmulator.WriteAll | src/three_d/emulator.rs:325-328 | The writing loop over the cleared board gives Applied. |
| ThreeDEmulator.WriteWarps | src/three_d/emulator.rs:313-316 | Writing the warp values into the past board gives Warped. |
| ThreeDEmulator.CollectSound | src/three_d/emulator.rs:83-320 | Every plan a tick collects is sound: clears and writes come from the operators' rules. |
| ThreeDEmulator.Reaches | src/three_d/emulator.rs:83-320 | Whatever each scan collects is kept by the whole tick. |
| ThreeDEmulator.StepReaches | src/three_d/emulator.rs:83-320 | In a tick that does not panic, every cell's step succeeds and its contribution is in the final plan. |
| ThreeDEmulator.NextSplitTimes | src/three_d/emulator.rs:271-318 | Warps aimed at two different ticks panic. |
| ThreeDEmulator.NextOneTime | src/three_d/emulator.rs:271-318 | Warps all aimed at one tick roll back to that tick's board with the warp values written. |
| ThreeDEmulator.NextApplied | src/three_d/emulator.rs:321-328 | Without warps, and with every write on the board, the next board is the plan applied. |
| ThreeDEmulator.NextSettled | src/three_d/emulator.rs:321-328 | A tick that does not roll back applied its plan. |
| ThreeDEmulator.Settles | src/three_d/emulator.rs:321-328 | After a tick without rollback, a written cell holds its write and a cleared, unwritten cell is empty. Every other cell is unchanged. |
| ThreeDEmulator.MoveLands | src/three_d/emulator.rs:98-134 | An integer pushed by an arrow lands two cells further on, and its own cell is cleared. |
| ThreeDEmulator.JumpsBlocked | src/three_d/emulator.rs:98-134 | An integer pushed onto a cell that already has a write panics. |
| ThreeDEmulator.MovesCollide | src/three_d/emulator.rs:98-134 | Two integers pushed onto the same cell panic. |
| ThreeDEmulator.Compute | src/three_d/emulator.rs:158-199 | Panics iff `/` or `%` has a zero divisor. `/` on operands of the same sign is floor division. `%` is Rust's remainder: l = u * trunc(l / u) + r, |r| < |u|, and r has the sign of l. |
| ThreeDEmulator.ArithmeticLands | src/three_d/emulator.rs:158-199 | An arithmetic operator with integer operands writes its value right and down and clears both operands. In a tick that does not panic it never divides by zero. |
| ThreeDEmulator.ComparisonLands | src/three_d/emulator.rs:217-256 | A comparison that holds copies its operands across and clears them. |
| ThreeDEmulator.ComparisonIdle | src/three_d/emulator.rs:217-256 | A comparison that fails, or lacks integer operands, does nothing. |
| ThreeDEmulator.WarpCollected | src/three_d/emulator.rs:271-304 | A firing warp's write is in the tick's plan. |
| ThreeDEmulator.WarpLands | src/three_d/emulator.rs:271-318 | A warp rolls back by its dt and writes its value at the target. |
| ThreeDEmulator.SplitWarpPanics | src/three_d/emulator.rs:271-318 | Two warps with different dt panic. |
| ThreeDEmulator.OrderExtends | src/three_d/emulator.rs:90-320 | What the scan has collected up to a cell is still there at every later cell. |
| ThreeDEmulator.Finished | src/three_d/emulator.rs:62-68 | The board is finished only when the submit cell holds an integer, so a board without integers never finishes. |
| ThreeDEmulator.NoIntegersStuck | src/three_d/emulator.rs:71-75 | A board without integers is stuck: the next board is the board itself. |
| ThreeDEmulator.NextShape | src/three_d/emulator.rs:48-60 | A tick that does not panic keeps the board's shape, and rolls back at most the recorded history. |
| ThreeDEmulator.WarpDropped | src/three_d/emulator.rs:51-56 | When a warp changes its target cell, peek reports a rollback and a board that differs from the current one, and `tick` drops that board. |
| ThreeDEmulator.DivExactNegative | src/three_d/emulator.rs:174-181 | As written, -4 / 2 gives -3. |
| ThreeDEmulator.FloorDivBounds | src/three_d/emulator.rs:174-181 | The corrected quotient is the floor: u * q <= l < u * q + u for u > 0, and the mirror for u < 0. |
| ThreeDEmulator.ComputeFixedAgrees | src/three_d/emulator.rs:158-199 | The correction changes exactly the exact quotients of operands of opposite signs. |
| DraftUtil.ConvertInteger | src/util.rs:4-11 | The draft decoder is the ICFP decoder. |
| DraftUtil.DeconvertInteger | src/util.rs:13-22 | The draft digit loop returns the base-94 digits, with none for zero. |
| DraftUtil.ConvertString | src/util.rs:24-31 | The draft text decoder is the ICFP one. |
| DraftUtil.DeconvertString | src/util.rs:33-40 | The draft text encoder is the ICFP one. |
| DraftUtil.DraftIntegerCodec | src/util.rs:4-22 | Zero encodes as the empty string, and every other number as in the ICFP codec. Decoding an encoding gives the number back. |
| DraftUtil.DraftStringCodec | src/util.rs:24-40 | The two directions keep lengths and are inverse on their alphabets. |
| DraftTokenizer.Without | src/tokenizer.rs:55-71 | Removing the indicator characters leaves no more characters and none of that kind. |
| DraftTokenizer.ScanToken | src/tokenizer.rs:38-53 | One token from the front, consuming the run up to the next space. |
| DraftTokenizer.Tokenizer.constructor | src/tokenizer.rs:32-36 | A new tokenizer reads from position 0. |
| DraftTokenizer.Tokenizer.Tokenize | src/tokenizer.rs:38-53 | The loop returns Lex of the rest of the input and consumes it all. |
| DraftTokenizer.Tokenizer.NextToken | src/tokenizer.rs:41-50 | The dispatch reads what ScanToken reads and advances past it. |
| DraftTokenizer.Tokenizer.ReadWithout | src/tokenizer.rs:55-71 | Reads up to the next space and keeps the run without the indicator character. |
| DraftTokenizer.ScanPayload | src/tokenizer.rs:55-124 | The token kind follows the indicator (iff), and the payload is the run without the indicator characters. |
| DraftTokenizer.BooleanAgrees | src/tokenizer.rs:73-88 | The draft's boolean run agrees with the ICFP tokenizer's. |
| DraftTokenizer.OthersUnknown | src/tokenizer.rs:126-138 | `B`, `L`, `v` and `?` are Unknown in the draft, while the ICFP tokenizer reads them. |
| DraftTokenizer.LexNone | src/tokenizer.rs:38-53 | No tokens iff the text is all spaces. |
| DraftTokenizer.LexWords | src/tokenizer.rs:38-53 | Space-joined words give one token per word, each word's ScanToken. |
| DraftTokenizer.TokenToString | src/tokenizer.rs:16-24 | A Boolean prints as "true" or "false" according to its value; every other token prints its raw payload, without an indicator. |
| DraftTokenizer.PrintRoundTrip | src/tokenizer.rs:16-24 | The indicator letter plus the printed payload tokenizes back to the token. |
| DraftTokenizer.LexIntegerExample | src/tokenizer.rs:146-156 | The integer test's text. |
| DraftTokenizer.LexBooleanExample | src/tokenizer.rs:159-170 | The boolean test's text. |
| DraftTokenizer.LexStringExample | src/tokenizer.rs:173-179 | The string test's text. |
| DraftTokenizer.LexOperatorExample | src/tokenizer.rs:182-193 | The unary operator test's text. |

## Left out

- Integer widths. `usize` underflow and overflow in the 3D emulator, the tokenizers and the parser are not modelled: positions and counts are unbounded naturals. The one cast modelled is the printer's `as usize` of a negative tree integer (IcfpParser.AsUsize). The ICFP evaluator's `BigInt` is modelled as `int`.
- The `HashSet` of warp times is modelled as a map from (dt, position) to value. "More than one time" is "some key with a different dt". The order in which the map is iterated is not modelled: the keys of one tick name different cells, so the order does not change the board.
- Output (`eprintln!`, `println!`), the evaluator's eval counter's printing, `dump_tree`, and the emulator's `to_string`: they only print.
- The binaries' reading of standard input: Minify.Minify takes the trimmed line as a parameter.
- No concrete 3D board from the emulator's tests is replayed. The rules are proved per cell and per tick instead (MoveLands, ArithmeticLands, ComparisonLands, WarpLands).
- ThreeDEmulator.Emulator.Tick, ThreeDEmulator.Emulator.TickFixed, ThreeDEmulator.Emulator.Peek, ThreeDEmulator.Emulator.IsStuck, ThreeDEmulator.Emulator.RunScan, ThreeDEmulator.Emulator.Settle, ThreeDEmulator.Emulator.TravelBack, ThreeDEmulator.Emulator.Land: these require `Operable`, and so do the specification functions of a tick (CellStep, Scan, Collect, Next) and the lemmas about them. `Operable` is a non-empty rectangular board (every row as wide as row 0) whose operators' operand cells lie on it. The source accepts any board: the 3D tokenizer returns ragged rows (src/three_d/tokenizer.rs:73-75), and `peek` bounds every column by the width of row 0 (src/three_d/emulator.rs:105, 122, 292). The model does not cover ragged or empty boards, nor the out-of-range indexing panics they and off-board operands cause.
- ThreeDEmulator.Emulator.GetHistory: the source's `len - n` index needs 1 <= n <= len. This is a precondition, and the warp branch proves it before calling.
- ThreeDEmulator.Emulator.Peek: the board write whose result is discarded in the warp branch is not modelled, because it has no effect.
- The test of src/util.rs at lines 46-49 expects "123". The code does not produce that, and the test is not modelled.
- DraftUtil.ConvertInteger, DraftUtil.ConvertString, DraftUtil.DeconvertString: the draft code is the same as the ICFP codec's, so they call the ICFP codec rather than repeat its loops.
- IcfpEvaluator.Evaluator.Evaluate: evaluation takes a fuel bound and reports `OutOfFuel` when it runs out. The contracts speak only of results reached within the bound, and the monotonicity lemmas show that more fuel does not change them.
- The evaluator's cache is a map from node to value. Its equality with a fresh evaluation is stated for each stored entry.
- src/parser.rs and src/evaluator.rs, the draft parser and evaluator, are not part of this model. They match on tokens the draft tokenizer does not have.
- src/three_d/ visualisers, solvers and communication binaries are not part of this model.

## Findings

| source | as written | input that shows it | evidently intended | confidence | as-written member | corrected member |
|---|---|---|---|---|---|---|
| src/icfp/builtin.rs:58-63 | The repeat function stops when its argument is not above 94. The argument of `repeat_char_operator` is 94 * times + index, so for index 0 (`a`) the last copy is never printed. | `repeat_char_operator('a', 3)` is 282, which prints "aa" | stop when the argument is not above 93, so that every character gets `times` copies | high, not executed | IcfpBuiltin.RepeatCharMeaning | IcfpBuiltin.RepeatCharFixedMeaning |
| src/bin/minify.rs:49-58 | The loop appends each run to the literal prefix before looking further. When the queue runs out, the last run is in the prefix and in the repeat operator too. | "ab" gives runs a, b and prints "abb" | append a run only once the next one has been found | high, not executed | Minify.DuplicatedRunExample | Minify.PrintedFixedExpands |
| src/three_d/emulator.rs:174-181 | Division subtracts one from the truncated quotient whenever the operands' signs differ, exact quotients included. | -4 / 2 gives -3 | floor division: subtract one only when the remainder is not zero | medium, not executed | ThreeDEmulator.DivExactNegative | ThreeDEmulator.ComputeFixedAgrees |
| src/three_d/emulator.rs:51-56 | On a rollback `tick` cuts the history and turns the counter back, but keeps the current board. The past board with the warp writes, which `peek` returns, is dropped. | a warp whose value differs from its target cell | the peeked board becomes the board | medium, not executed | ThreeDEmulator.WarpDropped | ThreeDEmulator.Emulator.TickFixed |
