/**
 * Worked inputs of the calculator, stated for every choice of `pow`.  Each
 * is assembled from the one-step evaluation rules of GrammarLaws, so that no
 * proof has to unfold the grammar through a whole literal text.  The text is
 * a parameter pinned by `requires s == "..."` rather than a literal in the
 * `ensures`: with the literal in place the solver unfolds the grammar over
 * it eagerly, which costs several times as much and comes close to the
 * resource limit.
 */
module Examples {
  import opened Text
  import opened Grammar
  import opened GrammarLaws

  // ---------------------------------------------------------------------
  // Worked inputs

  /** `^` groups to the right: "2^3^2" is 2^(3^2). */
  lemma PowerGroupsRight(s: seq<char>, pow: Pow)
    requires s == "2^3^2"
    ensures Evaluate(s, pow) == Ok(pow(2.0, pow(3.0, 2.0)))
  {
    DigitFactor(s, 4, pow);
    DigitPrimary(s, 2, pow);
    PowerStep(s, 2, 3.0, 3, 2.0, 5, pow);
    DigitPrimary(s, 0, pow);
    PowerStep(s, 0, 2.0, 1, pow(3.0, 2.0), 5, pow);
    var v := pow(2.0, pow(3.0, 2.0));
    TermStep(s, 0, v, 5, pow);
    TermTailEnd(s, 5, v, pow);
    WholeTextIsOneTerm(s, pow);
  }

  /** A number directly followed by '(' multiplies: "2(3)" is 6. */
  lemma ImplicitProductWithParenthesis(s: seq<char>, pow: Pow)
    requires s == "2(3)"
    ensures Evaluate(s, pow) == Ok(6.0)
  {
    DigitFactor(s, 0, pow);
    DigitExpression(s, 2, pow);
    GroupFactor(s, 1, 3.0, 3, pow);
    TermStep(s, 0, 2.0, 1, pow);
    ImplicitStep(s, 1, 2.0, 3.0, 4, pow);
    TermTailEnd(s, 4, Times(2.0, 3.0), pow);
    WholeTextIsOneTerm(s, pow);
  }

  /** Two parenthesised groups side by side multiply: "(2)(3)" is 6. */
  lemma ImplicitProductOfParentheses(s: seq<char>, pow: Pow)
    requires s == "(2)(3)"
    ensures Evaluate(s, pow) == Ok(6.0)
  {
    DigitExpression(s, 1, pow);
    GroupFactor(s, 0, 2.0, 2, pow);
    DigitExpression(s, 4, pow);
    GroupFactor(s, 3, 3.0, 5, pow);
    TermStep(s, 0, 2.0, 3, pow);
    ImplicitStep(s, 3, 2.0, 3.0, 6, pow);
    TermTailEnd(s, 6, Times(2.0, 3.0), pow);
    WholeTextIsOneTerm(s, pow);
  }

  /** A '-' after a factor starts an implicit product with a negative factor: "2-3" is -6, not -1. */
  lemma MinusAfterFactorMultiplies(s: seq<char>, pow: Pow)
    requires s == "2-3"
    ensures Evaluate(s, pow) == Ok(-6.0)
  {
    DigitFactor(s, 0, pow);
    DigitPrimary(s, 2, pow);
    assert SkipSpaces(s, 1) == 1;
    assert Primary(s, 1, pow) == Ok(Parsed(-3.0, 3));
    assert Factor(s, 1, pow) == Ok(Parsed(-3.0, 3));
    TermStep(s, 0, 2.0, 1, pow);
    ImplicitStep(s, 1, 2.0, -3.0, 3, pow);
    TermTailEnd(s, 3, Times(2.0, -3.0), pow);
    WholeTextIsOneTerm(s, pow);
  }

  /**
   * The unary minus of that implicit factor belongs to its leading primary,
   * so it applies before `^`: "2-3^2" is 2 * (-3)^2, not 2 * -(3^2).
   */
  lemma MinusBindsBeforePower(s: seq<char>, pow: Pow)
    requires s == "2-3^2"
    ensures Evaluate(s, pow) == Ok(2.0 * pow(-3.0, 2.0))
  {
    DigitFactor(s, 0, pow);
    DigitPrimary(s, 2, pow);
    DigitFactor(s, 4, pow);
    assert SkipSpaces(s, 1) == 1;
    assert Primary(s, 1, pow) == Ok(Parsed(-3.0, 3));
    PowerStep(s, 1, -3.0, 3, 2.0, 5, pow);
    TermStep(s, 0, 2.0, 1, pow);
    ImplicitStep(s, 1, 2.0, pow(-3.0, 2.0), 5, pow);
    TermTailEnd(s, 5, Times(2.0, pow(-3.0, 2.0)), pow);
    WholeTextIsOneTerm(s, pow);
  }

  /** A zero divisor is reported instead of dividing: "1/0". */
  lemma DivisionByZeroReported(s: seq<char>, pow: Pow)
    requires s == "1/0"
    ensures Evaluate(s, pow) == Err(DivisionByZero)
  {
    DigitFactor(s, 0, pow);
    DigitFactor(s, 2, pow);
    TermStep(s, 0, 1.0, 1, pow);
    assert TermTail(s, 1, 1.0, pow) == Err(DivisionByZero);
  }

  /** A '(' whose expression runs to the end of the text: "(2+3)" without its ')'. */
  lemma UnclosedParenthesis(s: seq<char>, pow: Pow)
    requires s == "(2+3"
    ensures Evaluate(s, pow) == Err(MissingClosingParenthesis)
  {
    DigitFactor(s, 1, pow);
    TermStep(s, 1, 2.0, 2, pow);
    TermTailEnd(s, 2, 2.0, pow);
    DigitExpression(s, 3, pow);
    ExpressionStep(s, 1, 2.0, 2, pow);
    PlusStep(s, 2, 2.0, 3.0, 4, pow);
    ExpressionTailEnd(s, 4, 5.0, pow);
    assert Expression(s, 1, pow) == Ok(Parsed(5.0, 4));
    assert SkipSpaces(s, 0) == 0;
    assert Primary(s, 0, pow) == Err(MissingClosingParenthesis);
    assert Factor(s, 0, pow) == Err(MissingClosingParenthesis);
    assert Term(s, 0, pow) == Err(MissingClosingParenthesis);
  }

  /** A blank ends the expression, and what follows is ignored: "2 + 3" is 2. */
  lemma SpaceEndsExpression(s: seq<char>, pow: Pow)
    requires s == "2 + 3"
    ensures Evaluate(s, pow) == Ok(2.0)
  {
    DigitFactor(s, 0, pow);
    TermStep(s, 0, 2.0, 1, pow);
    TermTailEnd(s, 1, 2.0, pow);
    WholeTextIsOneTerm(s, pow);
  }

  /** "(-3)" at `q`, not followed by '^', is a factor of value -3. */
  lemma NegativeThreeInParentheses(s: seq<char>, q: nat, pow: Pow)
    requires q + 4 <= |s| && s[q..q + 4] == "(-3)" && Peek(s, q + 4) != '^'
    ensures Factor(s, q, pow) == Ok(Parsed(-3.0, q + 4))
  {
    assert s[q] == '(' && s[q + 1] == '-' && s[q + 2] == '3' && s[q + 3] == ')';
    DigitPrimary(s, q + 2, pow);
    assert SkipSpaces(s, q + 1) == q + 1;
    assert Primary(s, q + 1, pow) == Ok(Parsed(-3.0, q + 3));
    assert Factor(s, q + 1, pow) == Ok(Parsed(-3.0, q + 3));
    TermStep(s, q + 1, -3.0, q + 3, pow);
    TermTailEnd(s, q + 3, -3.0, pow);
    ExpressionStep(s, q + 1, -3.0, q + 3, pow);
    ExpressionTailEnd(s, q + 3, -3.0, pow);
    GroupFactor(s, q, -3.0, q + 3, pow);
  }

  /** The text of the commented-out test driver up to its "/0": the first ten characters parse as a term. */
  lemma TestDriverTerm(s: seq<char>, pow: Pow)
    requires |s| >= 10 && s[..10] == "2^(-3)(-3)" && Peek(s, 10) != '^'
    ensures TermTail(s, 10, Times(pow(2.0, -3.0), -3.0), pow) == Term(s, 0, pow)
  {
    var d := s[..10];
    assert d[0] == '2' && d[1] == '^' && d[2..6] == "(-3)" && d[6..10] == "(-3)";
    assert s[2..6] == d[2..6] && s[6..10] == d[6..10];
    NegativeThreeInParentheses(s, 2, pow);
    NegativeThreeInParentheses(s, 6, pow);
    assert s[0] == d[0] && s[1] == d[1] && s[6] == d[6];
    DigitPrimary(s, 0, pow);
    PowerStep(s, 0, 2.0, 1, -3.0, 6, pow);
    TermStep(s, 0, pow(2.0, -3.0), 6, pow);
    ImplicitStep(s, 6, pow(2.0, -3.0), -3.0, 10, pow);
  }

  /** The input of the commented-out test driver without its division: (2^(-3)) * (-3). */
  lemma NegativeExponentThenImplicitProduct(s: seq<char>, pow: Pow)
    requires s == "2^(-3)(-3)"
    ensures Evaluate(s, pow) == Ok(pow(2.0, -3.0) * -3.0)
  {
    TestDriverTerm(s, pow);
    TermTailEnd(s, 10, Times(pow(2.0, -3.0), -3.0), pow);
    WholeTextIsOneTerm(s, pow);
  }

  /** The test driver's own input "2^(-3)(-3)/0" ends in a division by zero. */
  lemma TestDriverInputDividesByZero(s: seq<char>, pow: Pow)
    requires s == "2^(-3)(-3)/0"
    ensures Evaluate(s, pow) == Err(DivisionByZero)
  {
    TestDriverTerm(s, pow);
    DigitFactor(s, 11, pow);
    assert TermTail(s, 10, Times(pow(2.0, -3.0), -3.0), pow) == Err(DivisionByZero);
  }

  /** Products bind tighter than sums: "1+2*3" is 7. */
  lemma ProductBindsTighterThanSum(s: seq<char>, pow: Pow)
    requires s == "1+2*3"
    ensures Evaluate(s, pow) == Ok(7.0)
  {
    DigitFactor(s, 0, pow);
    TermStep(s, 0, 1.0, 1, pow);
    TermTailEnd(s, 1, 1.0, pow);
    DigitFactor(s, 2, pow);
    DigitFactor(s, 4, pow);
    TermStep(s, 2, 2.0, 3, pow);
    TimesStep(s, 3, 2.0, 3.0, 5, pow);
    TermTailEnd(s, 5, Times(2.0, 3.0), pow);
    ExpressionStep(s, 0, 1.0, 1, pow);
    PlusStep(s, 1, 1.0, 6.0, 5, pow);
    ExpressionTailEnd(s, 5, 7.0, pow);
  }

  /** Quotients group to the left: "8/4/2" is (8/4)/2 = 1. */
  lemma QuotientsGroupLeft(s: seq<char>, pow: Pow)
    requires s == "8/4/2"
    ensures Evaluate(s, pow) == Ok(1.0)
  {
    DigitFactor(s, 0, pow);
    DigitFactor(s, 2, pow);
    DigitFactor(s, 4, pow);
    TermStep(s, 0, 8.0, 1, pow);
    DivideStep(s, 1, 8.0, 4.0, 3, pow);
    DivideStep(s, 3, 2.0, 2.0, 5, pow);
    TermTailEnd(s, 5, 1.0, pow);
    WholeTextIsOneTerm(s, pow);
  }
}
