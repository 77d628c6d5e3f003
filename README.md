# Calculator core in Dafny

This project models the two text-processing parts of the PixelCoreDev
calculator:

- **The expression evaluator** (`Model.c`). It is a recursive-descent parser
  over a single character cursor: `parseExpression`, `parseTerm`,
  `parseFactor` and `parsePrimary`, plus the entry point `calculate`. It
  handles sums, products, quotients, implicit multiplication,
  right-associative `^`, unary signs, parentheses and decimal numbers.
- **The controller's input handling** (`Controller.c`). `input` refuses a
  NULL or empty string and otherwise copies it into a fresh NUL-terminated
  buffer. `errorCheck` scans the text once and rejects unbalanced
  parentheses, empty parenthesis groups and repeated operators. `main`
  appears only as a usage example: it reads, then checks.

Module layout:

| file | module | contents |
|---|---|---|
| `Text.dfy` | `Text` | characters as `isspace`/`isdigit` see them, the cursor read `Peek` (NUL at the end), `strlen` and C strings |
| `Grammar.dfy` | `Grammar` | the grammar as pure functions from a cursor to `Ok(Parsed(value, next))` or a typed error; this is the specification of the evaluator |
| `Model.dfy` | `Model` | the evaluator as the C code runs it: methods with `while` loops over a cursor, each proved equal to its grammar function |
| `GrammarLaws.dfy` | `GrammarLaws` | what the evaluator promises: whitespace, numbers, unary signs, parentheses, where each loop stops, one-step evaluation rules, and that text after the parse does not matter |
| `Examples.dfy` | `Examples` | worked inputs, including the test input commented out in `Model.c` |
| `Validation.dfy` | `Validation` | the `errorCheck` scan as a left fold over the characters, plus state-free descriptions of what it checks |
| `ValidationLaws.dfy` | `ValidationLaws` | the scan accepts exactly the texts matching those descriptions; worked verdicts |
| `Controller.dfy` | `Controller` | `errorCheck`, `input` and the usage example `main` as methods on `array<char>` |

Numbers are modelled as mathematical reals. Exponentiation is a parameter
`pow` that every operation and every property is stated for, whatever
function it is. Each `exit(EXIT_FAILURE)` of the evaluator becomes an error
value:

- `DivisionByZero` at `Model.c:53-57`;
- `MissingClosingParenthesis` at `Model.c:111-114`;
- `ExpectedNumber(c)` at `Model.c:121-125`. Here `c` is the character found, which is NUL at the end of the text.

Where the code's behaviour differs from what its comments and the
calculator's description suggest, the model follows the code:

- A `-` right after a factor starts an implicit product with a factor whose leading primary is negated (`Model.c:63`, then `Model.c:100-102`). So `"2-3"` is `2 * (-3) = -6`, and `"2-3^2"` is `2 * (-3)^2`, because the sign applies before `^`. The subtraction branch of `parseExpression` can never run.
- The operator tests in `parseTerm` and `parseExpression` do not skip blanks. So `"2 + 3"` evaluates to `2`, and a blank never starts an implicit product.
- `calculate` does not check for the end of the input. Text after the point where the parse stopped is ignored.
- `errorCheck` accepts the empty text. Only `input` refuses it.
- `errorCheck` counts `,` as an operator, and `(`/`)` do not reset the repeated-operator flag. So `"2*(/3)"` is rejected.

## Model

| member | source | states |
|---|---|---|
| Text.Strlen | Controller.c:39 | the length is the index of the first NUL, and no NUL occurs before it |
| Text.CString | Controller.c:68 | the text of a buffer is the NUL-free prefix that ends at its first NUL |
| Text.CStringOfTerminated | Controller.c:55-56 | a copy of a string followed by a NUL terminator reads back as that string |
| Grammar.SkipSpaces | Model.c:89-91 | the whitespace skip stops at a non-blank character, and everything it passed is blank |
| Grammar.DigitsEnd | Model.c:120 | the digit run ends at a non-digit, and everything before it is a digit |
| Grammar.ReadNumber | Model.c:119-126 | a number that is read consumes at least one character, and what it consumes is a numeral: digits with at most one '.' and at least one digit |
| Grammar.Expression | Model.c:25-39 | a successful expression consumes at least one character and stops within the text |
| Grammar.ExpressionTail | Model.c:28-37 | the `+`/`-` loop stops within the text, never before where it started; its laws ExpressionTailStops and ExpressionTailIsSum say where it stops and what it sums |
| Grammar.Term | Model.c:41-72 | a successful term consumes at least one character |
| Grammar.TermTail | Model.c:44-70 | the `*`, `/` and implicit-product loop stops within the text; its law TermTailStops says it stops only at a character outside `* / ( - .` and the digits |
| Grammar.Factor | Model.c:74-84 | a successful factor consumes at least one character, so the recursion for `^` terminates |
| Grammar.Primary | Model.c:86-128 | a successful primary consumes at least one character: a sign, a '(' or a non-empty number |
| Grammar.PrimaryAt | Model.c:93-127 | the primary after the blanks consumes at least one character; its helpers Negated (Model.c:100-102) and Closed (Model.c:106-116) carry no contract of their own, and UnarySigns, Parenthesised and NumberOrExpectedNumber state each of its cases |
| Grammar.Evaluate | Model.c:140-142 | the result is that of the expression at position 0 with its stop position dropped; its laws EvaluateDependsOnlyOnParsedPrefix and TrailingTextIgnored say the result depends only on the text up to where that expression stops |
| Model.ParseExpression | Model.c:26-39 | the `+`/`-` loop computes exactly the Expression of the grammar, cursor included |
| Model.ParseTerm | Model.c:42-72 | the `*`, `/` and implicit-product loop computes exactly the Term of the grammar, including the division-by-zero error |
| Model.ParseFactor | Model.c:76-84 | the factor with optional right-recursive `^` is exactly the Factor of the grammar |
| Model.ParsePrimary | Model.c:87-128 | the whitespace loop and then the sign, parenthesis or number cases compute exactly the Primary of the grammar |
| Model.Calculate | Model.c:131-142 | the result is the value of the expression at the start of the input, or the error that ended the parse |
| GrammarLaws.SkipSpacesOver | Model.c:89-91 | skipping from anywhere inside a run of blanks ends at the same character |
| GrammarLaws.PrimaryIgnoresLeadingSpaces | Model.c:89-91 | blanks before a primary do not change its value or where it ends |
| GrammarLaws.PrimaryAtEndOfInput | Model.c:119-125 | when only blanks remain, the primary is an expected-number error reporting NUL |
| GrammarLaws.ReadNumberFails | Model.c:120-121 | no number is read if and only if the cursor is neither at a digit nor at a '.' followed by a digit |
| GrammarLaws.ReadNumberLongest | Model.c:120 | the numeral read is the longest one at the cursor: every longer stretch is not a numeral |
| GrammarLaws.ReadSingleDigit | Model.c:120-127 | a digit followed by neither a digit nor '.' reads as that digit's value and consumes one character |
| GrammarLaws.PrimaryStartsWithToken | Model.c:93-127 | a successful primary starts, after blanks, with '+', '-', '(', '.' or a digit |
| GrammarLaws.UnarySigns | Model.c:93-103 | unary '+' yields the following primary unchanged; unary '-' yields its negation, or passes its error on |
| GrammarLaws.Parenthesised | Model.c:105-116 | after '(' an inner error passes through; a missing ')' is a missing-parenthesis error; otherwise the ')' is consumed and the value is the inner expression's |
| GrammarLaws.NumberOrExpectedNumber | Model.c:118-127 | without a sign or '(', the primary is the number read, and when none can be read it is an expected-number error naming the character found |
| GrammarLaws.TermTailStops | Model.c:44-70 | the term loop exits only at a character that is neither '*', '/', '(', '-', '.' nor a digit |
| GrammarLaws.TermStops | Model.c:42-72 | a term never ends at '*', '/', '(', '-', '.' or a digit, and in particular never at '-' |
| GrammarLaws.DivisionByZeroError | Model.c:50-57 | a '/' whose right factor is exactly 0 is a division-by-zero error |
| GrammarLaws.ExpressionTailStops | Model.c:28-37 | the expression loop exits only at a character other than '+' and '-' |
| GrammarLaws.SumTail | Model.c:28-37 | the loop of parseExpression as it can actually run stops at a character other than '+' |
| GrammarLaws.ExpressionTailIsSum | Model.c:28-37 | whenever the expression loop does not start at '-', it equals SumTail, the left fold of '+' over the following terms |
| GrammarLaws.SubtractionUnreachable | Model.c:28-36 | an expression is its first term plus the following terms, so the subtraction branch never runs; the expression ends at neither '+' nor '-' |
| GrammarLaws.DigitPrimary | Model.c:119-127 | a lone digit, followed by neither a digit nor '.', is a primary of its own value that consumes one character |
| GrammarLaws.DigitFactor | Model.c:76-83 | such a digit not followed by '^' is also a factor |
| GrammarLaws.PowerStep | Model.c:77-81 | a primary followed by '^' and a factor is a factor whose value is pow of the two and that ends where the exponent ends |
| GrammarLaws.TermStep | Model.c:43-44 | a term is its first factor folded into the term loop from where that factor ends |
| GrammarLaws.TermTailEnd | Model.c:67-71 | at a character that continues no term the loop returns the accumulated value without moving |
| GrammarLaws.TimesStep | Model.c:46-49 | '*' multiplies the accumulated value by the next factor and continues after it |
| GrammarLaws.DivideStep | Model.c:50-58 | '/' with a non-zero next factor divides by it and continues after it |
| GrammarLaws.ImplicitStep | Model.c:63-65 | a factor starting at '(', a digit, '-' or '.' is multiplied in without consuming an operator |
| GrammarLaws.ExpressionStep | Model.c:27-28 | an expression is its first term folded into the expression loop from where that term ends |
| GrammarLaws.ExpressionTailEnd | Model.c:28-38 | at a character other than '+' and '-' the loop returns the accumulated value without moving |
| GrammarLaws.PlusStep | Model.c:28-33 | '+' adds the next term and continues after it |
| GrammarLaws.GroupFactor | Model.c:106-116 | '(' Expression ')' is a primary of the inner value that ends after the ')', and when no '^' follows it is also a factor |
| GrammarLaws.SkipSpacesLocal | Model.c:89-91 | the whitespace skip reads nothing beyond the character it stops at |
| GrammarLaws.DigitsEndLocal | Model.c:120 | the digit run reads nothing beyond the character it stops at |
| GrammarLaws.ReadNumberLocal | Model.c:120 | the number read depends only on the text up to the character after it |
| GrammarLaws.ExpressionLocal | Model.c:26-39 | an expression depends only on the text up to the character it stops at |
| GrammarLaws.ExpressionTailLocal | Model.c:28-37 | so does the `+`/`-` loop |
| GrammarLaws.TermLocal | Model.c:42-72 | so does a term |
| GrammarLaws.TermTailLocal | Model.c:44-70 | so does the term loop |
| GrammarLaws.FactorLocal | Model.c:76-84 | so does a factor |
| GrammarLaws.PrimaryLocal | Model.c:87-128 | so does a primary, with its leading blanks |
| GrammarLaws.PrimaryAtLocal | Model.c:93-127 | so does a primary after its leading blanks |
| GrammarLaws.EvaluateDependsOnlyOnParsedPrefix | Model.c:140-142 | two inputs that agree up to the character where the parse stops give the same result |
| GrammarLaws.TrailingTextIgnored | Model.c:140-142 | calculate has no end-of-input check: replacing everything after that character changes nothing |
| GrammarLaws.DigitExpression | Model.c:26-128 | a lone digit followed by no operator is a whole term and a whole expression of its own value |
| GrammarLaws.WholeTextIsOneTerm | Model.c:26-38 | a text whose first term is followed by neither '+' nor '-' evaluates to that term |
| Examples.PowerGroupsRight | Model.c:74-84 | "2^3^2" evaluates to 2^(3^2): `^` groups to the right |
| Examples.ImplicitProductWithParenthesis | Model.c:60-66 | "2(3)" evaluates to 6 |
| Examples.ImplicitProductOfParentheses | Model.c:60-66 | "(2)(3)" evaluates to 6 |
| Examples.MinusAfterFactorMultiplies | Model.c:63 | "2-3" evaluates to -6, not -1 |
| Examples.MinusBindsBeforePower | Model.c:63-102 | "2-3^2" evaluates to 2 * pow(-3, 2): the sign belongs to the primary, before `^` |
| Examples.DivisionByZeroReported | Model.c:50-57 | "1/0" is a division-by-zero error |
| Examples.UnclosedParenthesis | Model.c:106-114 | "(2+3" is a missing-parenthesis error |
| Examples.SpaceEndsExpression | Model.c:28 | "2 + 3" evaluates to 2 |
| Examples.NegativeThreeInParentheses | Model.c:99-116 | "(-3)" is a factor of value -3 |
| Examples.TestDriverTerm | Model.c:16-17 | the first ten characters "2^(-3)(-3)" of the test input parse as the term 2^(-3) times -3, and the term loop continues from there |
| Examples.NegativeExponentThenImplicitProduct | Model.c:16 | "2^(-3)(-3)" evaluates to 2^(-3) * (-3) |
| Examples.TestDriverInputDividesByZero | Model.c:17 | the test input "2^(-3)(-3)/0" is a division-by-zero error |
| Examples.ProductBindsTighterThanSum | Model.c:26-72 | "1+2*3" evaluates to 7 |
| Examples.QuotientsGroupLeft | Model.c:44-59 | "8/4/2" evaluates to 1: quotients group to the left |
| Validation.Step | Controller.c:70-103 | one round of the loop never undoes a rejection, moves `balance` by one exactly at a parenthesis, and rejects only at ')' or an operator, never with the final balance error |
| Validation.Run | Controller.c:68-107 | while the scan runs, `balance` is one more than the parenthesis depth and at least 1, and `arithmeticRepeating` is 0 or 1; ScanMeaning says exactly when it runs |
| Validation.Check | Controller.c:68-115 | a pass means the scan finished with depth 0, and the unmatched-parentheses verdict means it finished with a non-zero depth; CheckAcceptsExactly gives the whole if-and-only-if |
| ValidationLaws.ScanMeaning | Controller.c:60-107 | the scan survives a prefix if and only if that prefix never closes an unopened '(', repeats no operator and leaves no group empty; then `balance` is one more than the depth, `arithmeticRepeating` is 1 exactly while an operator awaits an operand, and `inParanthesis` says every '(' has been followed by an operand |
| ValidationLaws.CheckAcceptsExactly | Controller.c:60-116 | errorCheck accepts if and only if the parentheses are balanced and never close early, every two of `* / ^ ,` have a character other than a parenthesis or one of those four between them, and every parenthesis pair has such a character inside |
| ValidationLaws.ScanBounds | Controller.c:75-80 | while scanning, `balance` stays at least 1 and `arithmeticRepeating` is 0 or 1, as a named corollary of the contract of Validation.Run |
| ValidationLaws.RejectionIsFinal | Controller.c:78-97 | once a prefix is rejected, the verdict on the whole text is that rejection |
| ValidationLaws.EmptyTextPasses | Controller.c:68-115 | the empty text passes the check |
| ValidationLaws.AcceptedExample | Controller.c:14 | the usage example's input "(2)*3" passes |
| ValidationLaws.EmptyParenthesisRejected | Controller.c:71-85 | "()" and "(*)" are rejected as empty groups |
| ValidationLaws.RepeatedOperatorRejected | Controller.c:89-102 | "2**3" and "2*(/3)" are rejected as repeated operators: parentheses do not separate operators |
| ValidationLaws.ClosingBeforeOpeningRejected | Controller.c:75-80 | "(2+3))" is rejected when its last ')' closes nothing |
| ValidationLaws.UnclosedParenthesisRejected | Controller.c:109-113 | "((2)" fails the final balance check |
| Controller.ErrorCheck | Controller.c:60-116 | the loop with early returns computes exactly the verdict of the scan on the text before the first NUL, and it only reads the array |
| Controller.Input | Controller.c:33-59 | NULL or empty input gives NULL; otherwise the result is a fresh array holding the same characters followed by a NUL |
| Controller.ProcessInput | Controller.c:11-31 | the usage example reports success exactly when the input is present, non-empty and passes the check |

## Left out

- Calculator.cpp is not part of this model: the SDL window, event loop, buttons, rendering and the edit buffer that feeds `calculate`.
- Floating point: values are exact reals, so rounding, overflow, infinities and NaN are not modelled.
- `pow` is a parameter of the model, not the C library's `pow`. Every result holds for any choice of it.
- Grammar.ReadNumber: models only the decimal literals `strtod` reads (digits with at most one '.'). Exponents, `inf`, `nan`, hexadecimal forms and `strtod`'s own leading-blank and sign handling are not modelled, and neither is its rounding. Leading blanks are already skipped by `parsePrimary`, and a sign there is taken by the unary cases first.
- Model.Calculate: returns the value, not the 256-byte text `snprintf("%f")` writes. The formatting is left out.
- Allocation failure in `calculate` and `input`, and the `printf` diagnostics: allocation always succeeds, and each diagnostic is replaced by a typed error or verdict.
- Controller.ProcessInput: models the hard-coded input of `main` as a parameter. The success message and the `fputs` of the buffer are left out, and so is `free`.
- Controller.Input: a NULL pointer is modelled as `None` and a C string as an array that contains a NUL. The copy is made character by character rather than with `strncpy`.
