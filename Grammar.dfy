/**
 * The expression grammar of the calculator, as pure functions.
 *
 *   Expression ::= Term { ('+' | '-') Term }
 *   Term       ::= Factor { ('*' | '/') Factor | ImplicitMult Factor }
 *   Factor     ::= Primary [ '^' Factor ]
 *   Primary    ::= Number | '(' Expression ')' | ('+' | '-') Primary
 *
 * Every rule starts at a cursor `pos` into the text and, on success, returns
 * the value it computed together with the cursor just past what it consumed.
 * The three places where the evaluator gives up become typed errors.
 * Values are reals; exponentiation is the parameter `pow`, since the model
 * does not fix the floating-point behaviour of the C library's `pow`.
 */
module Grammar {
  import opened Text

  /** Why an evaluation gives up. */
  datatype EvalError =
    | DivisionByZero
    | MissingClosingParenthesis
    /** No number could be read; `found` is the character under the cursor (NUL at the end). */
    | ExpectedNumber(found: char)

  datatype Result<+T> = Ok(value: T) | Err(error: EvalError)

  /** The value a rule computed and the cursor just past what it consumed. */
  datatype Parsed = Parsed(value: real, next: nat)

  type Pow = (real, real) -> real

  // ---------------------------------------------------------------------
  // Lexical level

  /** The cursor after skipping every whitespace character from `pos` on. */
  function SkipSpaces(s: seq<char>, pos: nat): (r: nat)
    requires pos <= |s|
    ensures pos <= r <= |s| && !IsSpace(Peek(s, r))
    ensures forall i :: pos <= i < r ==> IsSpace(s[i])
    decreases |s| - pos
  {
    if pos < |s| && IsSpace(s[pos]) then SkipSpaces(s, pos + 1) else pos
  }

  /** The cursor after the run of digits starting at `pos`. */
  function DigitsEnd(s: seq<char>, pos: nat): (r: nat)
    requires pos <= |s|
    ensures pos <= r <= |s| && !IsDigit(Peek(s, r))
    ensures forall i :: pos <= i < r ==> IsDigit(s[i])
    decreases |s| - pos
  {
    if pos < |s| && IsDigit(s[pos]) then DigitsEnd(s, pos + 1) else pos
  }

  /** The number a string of decimal digits denotes. */
  function DigitsValue(d: seq<char>): nat
    requires forall i :: 0 <= i < |d| ==> IsDigit(d[i])
  {
    if d == [] then 0
    else
      var last := d[|d| - 1];
      assert IsDigit(last);
      10 * DigitsValue(d[..|d| - 1]) + (last - '0') as nat
  }

  function Pow10(n: nat): (r: nat)
    ensures r >= 1
  {
    if n == 0 then 1 else 10 * Pow10(n - 1)
  }

  /**
   * A decimal numeral: digits with at most one '.', and at least one digit.
   * This is the part of `strtod`'s input language the calculator can produce.
   */
  predicate IsNumeral(t: seq<char>) {
    && (forall i :: 0 <= i < |t| ==> IsDigit(t[i]) || t[i] == '.')
    && (exists i :: 0 <= i < |t| && IsDigit(t[i]))
    && (forall i, j :: 0 <= i < j < |t| && t[i] == '.' ==> t[j] != '.')
  }

  /**
   * `strtod` restricted to decimal numerals: reads the longest numeral at
   * `pos` and returns its value and the cursor after it, or None when no
   * character can be consumed.
   */
  function ReadNumber(s: seq<char>, pos: nat): (r: Option<Parsed>)
    requires pos <= |s|
    ensures r.Some? ==> pos < r.value.next <= |s| && IsNumeral(s[pos..r.value.next])
  {
    var a := DigitsEnd(s, pos);
    if Peek(s, a) == '.' then
      var b := DigitsEnd(s, a + 1);
      if a == pos && b == a + 1 then None
      else
        NumeralWithPoint(s, pos, a, b);
        var whole := DigitsValue(s[pos..a]) as real;
        var fraction := DigitsValue(s[a + 1..b]) as real / Pow10(b - a - 1) as real;
        Some(Parsed(whole + fraction, b))
    else if a == pos then None
    else
      NumeralOfDigits(s, pos, a);
      Some(Parsed(DigitsValue(s[pos..a]) as real, a))
  }

  lemma NumeralOfDigits(s: seq<char>, pos: nat, a: nat)
    requires pos < a <= |s|
    requires forall i :: pos <= i < a ==> IsDigit(s[i])
    ensures IsNumeral(s[pos..a])
  {
    var t := s[pos..a];
    forall i | 0 <= i < |t| ensures IsDigit(t[i]) {
      assert t[i] == s[pos + i];
    }
    assert IsDigit(t[0]);
  }

  lemma NumeralWithPoint(s: seq<char>, pos: nat, a: nat, b: nat)
    requires pos <= a < b <= |s| && s[a] == '.'
    requires forall i :: pos <= i < a ==> IsDigit(s[i])
    requires forall i :: a < i < b ==> IsDigit(s[i])
    requires a > pos || b > a + 1
    ensures IsNumeral(s[pos..b])
  {
    var t := s[pos..b];
    forall i | 0 <= i < |t| ensures IsDigit(t[i]) || t[i] == '.' {
      assert t[i] == s[pos + i];
    }
    if a > pos {
      assert t[0] == s[pos];
    } else {
      assert t[1] == s[pos + 1];
    }
    forall i, j | 0 <= i < j < |t| && t[i] == '.' ensures t[j] != '.' {
      assert t[i] == s[pos + i] && t[j] == s[pos + j];
      assert !IsDigit(s[pos + i]);
    }
  }

  // ---------------------------------------------------------------------
  // Grammar rules

  /**
   * The product the term loop forms.  Naming it keeps the solver from
   * rearranging real products it has no need to look inside.
   */
  function Times(a: real, b: real): real {
    a * b
  }

  /** A character at which the term loop multiplies implicitly. */
  predicate StartsImplicitProduct(c: char) {
    c == '(' || IsDigit(c) || c == '-' || c == '.'
  }

  /** Expression ::= Term { ('+' | '-') Term } */
  function Expression(s: seq<char>, pos: nat, pow: Pow): (r: Result<Parsed>)
    requires pos <= |s|
    ensures r.Ok? ==> pos < r.value.next <= |s|
    decreases |s| - pos, 6
  {
    var t := Term(s, pos, pow);
    if t.Err? then t else ExpressionTail(s, t.value.next, t.value.value, pow)
  }

  /** The loop of Expression: folds `+`/`-` terms into `acc` from the left. */
  function ExpressionTail(s: seq<char>, pos: nat, acc: real, pow: Pow): (r: Result<Parsed>)
    requires pos <= |s|
    ensures r.Ok? ==> pos <= r.value.next <= |s|
    decreases |s| - pos, 5
  {
    var op := Peek(s, pos);
    if op == '+' || op == '-' then
      var t := Term(s, pos + 1, pow);
      if t.Err? then t
      else ExpressionTail(s, t.value.next, if op == '+' then acc + t.value.value else acc - t.value.value, pow)
    else Ok(Parsed(acc, pos))
  }

  /** Term ::= Factor { ('*' | '/') Factor | ImplicitMult Factor } */
  function Term(s: seq<char>, pos: nat, pow: Pow): (r: Result<Parsed>)
    requires pos <= |s|
    ensures r.Ok? ==> pos < r.value.next <= |s|
    decreases |s| - pos, 4
  {
    var f := Factor(s, pos, pow);
    if f.Err? then f else TermTail(s, f.value.next, f.value.value, pow)
  }

  /** The loop of Term: folds `*`, `/` and implicit products into `acc` from the left. */
  function TermTail(s: seq<char>, pos: nat, acc: real, pow: Pow): (r: Result<Parsed>)
    requires pos <= |s|
    ensures r.Ok? ==> pos <= r.value.next <= |s|
    decreases |s| - pos, 3
  {
    var c := Peek(s, pos);
    if c == '*' then
      var f := Factor(s, pos + 1, pow);
      if f.Err? then f else TermTail(s, f.value.next, Times(acc, f.value.value), pow)
    else if c == '/' then
      var f := Factor(s, pos + 1, pow);
      if f.Err? then f
      else if f.value.value == 0.0 then Err(DivisionByZero)
      else TermTail(s, f.value.next, acc / f.value.value, pow)
    else if StartsImplicitProduct(c) then
      var f := Factor(s, pos, pow);
      if f.Err? then f else TermTail(s, f.value.next, Times(acc, f.value.value), pow)
    else Ok(Parsed(acc, pos))
  }

  /** Factor ::= Primary [ '^' Factor ], so `^` groups to the right. */
  function Factor(s: seq<char>, pos: nat, pow: Pow): (r: Result<Parsed>)
    requires pos <= |s|
    ensures r.Ok? ==> pos < r.value.next <= |s|
    decreases |s| - pos, 2
  {
    var base := Primary(s, pos, pow);
    if base.Err? || Peek(s, base.value.next) != '^' then base
    else
      var exponent := Factor(s, base.value.next + 1, pow);
      if exponent.Err? then exponent
      else Ok(Parsed(pow(base.value.value, exponent.value.value), exponent.value.next))
  }

  /** Primary ::= Number | '(' Expression ')' | ('+' | '-') Primary, after leading whitespace. */
  function Primary(s: seq<char>, pos: nat, pow: Pow): (r: Result<Parsed>)
    requires pos <= |s|
    ensures r.Ok? ==> pos < r.value.next <= |s|
    decreases |s| - pos, 1
  {
    PrimaryAt(s, SkipSpaces(s, pos), pow)
  }

  /** The primary that starts with the non-blank character at `q`. */
  function PrimaryAt(s: seq<char>, q: nat, pow: Pow): (r: Result<Parsed>)
    requires q <= |s|
    ensures r.Ok? ==> q < r.value.next <= |s|
    decreases |s| - q, 0
  {
    var c := Peek(s, q);
    if c == '+' then Primary(s, q + 1, pow)
    else if c == '-' then Negated(Primary(s, q + 1, pow))
    else if c == '(' then Closed(s, Expression(s, q + 1, pow))
    else
      match ReadNumber(s, q)
      case None => Err(ExpectedNumber(c))
      case Some(n) => Ok(n)
  }

  /** A parsed primary with its value negated; an error passes through. */
  function Negated(p: Result<Parsed>): Result<Parsed> {
    if p.Err? then p else Ok(Parsed(-p.value.value, p.value.next))
  }

  /** A parenthesised expression: the expression must be followed by `)`, which is consumed. */
  function Closed(s: seq<char>, e: Result<Parsed>): Result<Parsed> {
    if e.Err? then e
    else if Peek(s, e.value.next) == ')' then Ok(Parsed(e.value.value, e.value.next + 1))
    else Err(MissingClosingParenthesis)
  }

  /** The calculator's entry point: the value of the Expression at the start of the text. */
  function Evaluate(input: seq<char>, pow: Pow): (r: Result<real>)
    ensures r.Ok? <==> Expression(input, 0, pow).Ok?
    ensures r.Ok? ==> r.value == Expression(input, 0, pow).value.value
    ensures r.Err? ==> r.error == Expression(input, 0, pow).error
  {
    var e := Expression(input, 0, pow);
    if e.Err? then Err(e.error) else Ok(e.value.value)
  }
}
