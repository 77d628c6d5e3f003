/**
 * What the evaluator's grammar promises: how the cursor moves, what each
 * rule consumes, which inputs are errors, how operators group, and that
 * nothing after the parsed expression influences the result.
 */
module GrammarLaws {
  import opened Text
  import opened Grammar

  // ---------------------------------------------------------------------
  // Whitespace

  /** Skipping from anywhere inside a run of whitespace ends at the same place. */
  lemma {:induction false} SkipSpacesOver(s: seq<char>, pos: nat, q: nat)
    requires pos <= q <= |s|
    requires forall k :: pos <= k < q ==> IsSpace(s[k])
    ensures SkipSpaces(s, pos) == SkipSpaces(s, q)
    decreases q - pos
  {
    if pos < q {
      assert IsSpace(s[pos]);
      SkipSpacesOver(s, pos + 1, q);
    }
  }

  /** parsePrimary skips all leading whitespace: whitespace before a primary changes nothing. */
  lemma PrimaryIgnoresLeadingSpaces(s: seq<char>, pos: nat, q: nat, pow: Pow)
    requires pos <= q <= |s|
    requires forall k :: pos <= k < q ==> IsSpace(s[k])
    ensures Primary(s, pos, pow) == Primary(s, q, pow)
  {
    SkipSpacesOver(s, pos, q);
  }

  /** Where only whitespace is left, no number can be read and the NUL terminator is reported. */
  lemma PrimaryAtEndOfInput(s: seq<char>, pos: nat, pow: Pow)
    requires pos <= |s|
    requires forall k :: pos <= k < |s| ==> IsSpace(s[k])
    ensures Primary(s, pos, pow) == Err(ExpectedNumber('\0'))
  {
    SkipSpacesOver(s, pos, |s|);
    assert SkipSpaces(s, |s|) == |s|;
    assert DigitsEnd(s, |s|) == |s|;
  }

  // ---------------------------------------------------------------------
  // Numbers

  /** No number can be read exactly when the cursor is neither at a digit nor at a '.' followed by a digit. */
  lemma ReadNumberFails(s: seq<char>, q: nat)
    requires q <= |s|
    ensures ReadNumber(s, q).None? <==> !IsDigit(Peek(s, q)) && !(Peek(s, q) == '.' && IsDigit(Peek(s, q + 1)))
  {
    var a := DigitsEnd(s, q);
    if IsDigit(Peek(s, q)) {
      assert a > q;
    } else {
      assert a == q;
      if Peek(s, q) == '.' {
        var b := DigitsEnd(s, q + 1);
        assert IsDigit(Peek(s, q + 1)) <==> b > q + 1;
      }
    }
  }

  /** The numeral read is the longest one at the cursor: no longer stretch of the text is a numeral. */
  lemma ReadNumberLongest(s: seq<char>, q: nat, m: nat)
    requires q < m <= |s|
    requires ReadNumber(s, q).Some? ==> ReadNumber(s, q).value.next < m
    ensures !IsNumeral(s[q..m])
  {
    var t := s[q..m];
    var a := DigitsEnd(s, q);
    if Peek(s, a) == '.' {
      var b := DigitsEnd(s, a + 1);
      if a == q && b == a + 1 {
        if m == q + 1 {
          assert t == ['.'];
        } else {
          assert t[0] == '.' && t[1] == s[q + 1] && !IsDigit(t[1]);
        }
      } else {
        assert t[a - q] == '.' && t[b - q] == s[b] && !IsDigit(t[b - q]);
      }
    } else if a == q {
      assert t[0] == s[q] && !IsDigit(t[0]) && t[0] != '.';
    } else {
      assert t[a - q] == s[a] && !IsDigit(t[a - q]) && t[a - q] != '.';
    }
  }

  /** A single digit followed by neither a digit nor '.' reads as that digit's value. */
  lemma ReadSingleDigit(s: seq<char>, q: nat)
    requires q < |s| && IsDigit(s[q])
    requires !IsDigit(Peek(s, q + 1)) && Peek(s, q + 1) != '.'
    ensures ReadNumber(s, q) == Some(Parsed((s[q] as int - '0' as int) as real, q + 1))
  {
    assert DigitsEnd(s, q + 1) == q + 1;
    assert DigitsEnd(s, q) == q + 1;
    var d := s[q..q + 1];
    assert d[..0] == [];
    assert DigitsValue(d) == (s[q] as int - '0' as int);
  }

  // ---------------------------------------------------------------------
  // Primary

  /** A successful primary starts, after whitespace, at a sign, a '(' or a digit or '.'. */
  lemma PrimaryStartsWithToken(s: seq<char>, pos: nat, pow: Pow)
    requires pos <= |s|
    requires Primary(s, pos, pow).Ok?
    ensures var q := SkipSpaces(s, pos);
      q < |s| && (s[q] in "+-(." || IsDigit(s[q]))
  {
    var q := SkipSpaces(s, pos);
    var c := Peek(s, q);
    if c !in "+-(" {
      ReadNumberFails(s, q);
    }
  }

  /** Unary plus yields the following primary unchanged; unary minus yields its negation. */
  lemma UnarySigns(s: seq<char>, pos: nat, pow: Pow)
    requires pos <= |s|
    ensures var q := SkipSpaces(s, pos);
      && (Peek(s, q) == '+' ==> Primary(s, pos, pow) == Primary(s, q + 1, pow))
      && (Peek(s, q) == '-' && Primary(s, q + 1, pow).Ok? ==>
            Primary(s, pos, pow) == Ok(Parsed(-Primary(s, q + 1, pow).value.value, Primary(s, q + 1, pow).value.next)))
      && (Peek(s, q) == '-' && Primary(s, q + 1, pow).Err? ==> Primary(s, pos, pow) == Primary(s, q + 1, pow))
  {
  }

  /** A '(' whose inner expression is not followed by ')' is a missing-parenthesis error; otherwise the ')' is consumed. */
  lemma Parenthesised(s: seq<char>, pos: nat, pow: Pow)
    requires pos <= |s|
    requires Peek(s, SkipSpaces(s, pos)) == '('
    ensures var q := SkipSpaces(s, pos);
      var e := Expression(s, q + 1, pow);
      && (e.Err? ==> Primary(s, pos, pow) == e)
      && (e.Ok? && Peek(s, e.value.next) != ')' ==> Primary(s, pos, pow) == Err(MissingClosingParenthesis))
      && (e.Ok? && Peek(s, e.value.next) == ')' ==> Primary(s, pos, pow) == Ok(Parsed(e.value.value, e.value.next + 1)))
  {
  }

  /**
   * Where no sign or '(' starts, the primary is the number read there; when
   * none can be read it fails with the character found (NUL at the end).
   */
  lemma NumberOrExpectedNumber(s: seq<char>, pos: nat, pow: Pow)
    requires pos <= |s|
    ensures var q := SkipSpaces(s, pos);
      var c := Peek(s, q);
      && (c !in "+-(" && ReadNumber(s, q).Some? ==> Primary(s, pos, pow) == Ok(ReadNumber(s, q).value))
      && (c !in "+-(" && !IsDigit(c) && !(c == '.' && IsDigit(Peek(s, q + 1))) ==>
            Primary(s, pos, pow) == Err(ExpectedNumber(c)))
  {
    ReadNumberFails(s, SkipSpaces(s, pos));
  }

  // ---------------------------------------------------------------------
  // Term and Expression

  /** A character at which the term loop goes round once more. */
  predicate ContinuesTerm(c: char) {
    c == '*' || c == '/' || StartsImplicitProduct(c)
  }

  lemma {:induction false} TermTailStops(s: seq<char>, pos: nat, acc: real, pow: Pow)
    requires pos <= |s|
    requires TermTail(s, pos, acc, pow).Ok?
    ensures !ContinuesTerm(Peek(s, TermTail(s, pos, acc, pow).value.next))
    decreases |s| - pos
  {
    var c := Peek(s, pos);
    if c == '*' || c == '/' {
      var f := Factor(s, pos + 1, pow);
      TermTailStops(s, f.value.next, if c == '*' then Times(acc, f.value.value) else acc / f.value.value, pow);
    } else if StartsImplicitProduct(c) {
      var f := Factor(s, pos, pow);
      TermTailStops(s, f.value.next, Times(acc, f.value.value), pow);
    }
  }

  /**
   * parseTerm only returns at a character that is none of '*', '/', '(',
   * '-', '.' or a digit.  In particular it never stops at '-': a '-' after
   * a factor is taken as an implicit product with a negative factor.
   */
  lemma TermStops(s: seq<char>, pos: nat, pow: Pow)
    requires pos <= |s|
    requires Term(s, pos, pow).Ok?
    ensures var c := Peek(s, Term(s, pos, pow).value.next);
      c != '*' && c != '/' && c != '(' && c != '-' && c != '.' && !IsDigit(c)
  {
    var f := Factor(s, pos, pow);
    TermTailStops(s, f.value.next, f.value.value, pow);
  }

  /** A '/' whose right factor is exactly 0 is a division-by-zero error. */
  lemma DivisionByZeroError(s: seq<char>, pos: nat, acc: real, pow: Pow)
    requires pos < |s| && s[pos] == '/'
    requires Factor(s, pos + 1, pow).Ok? && Factor(s, pos + 1, pow).value.value == 0.0
    ensures TermTail(s, pos, acc, pow) == Err(DivisionByZero)
  {
  }

  /** The loop of parseExpression stops only at a character other than '+' and '-'. */
  lemma {:induction false} ExpressionTailStops(s: seq<char>, pos: nat, acc: real, pow: Pow)
    requires pos <= |s|
    requires ExpressionTail(s, pos, acc, pow).Ok?
    ensures var c := Peek(s, ExpressionTail(s, pos, acc, pow).value.next); c != '+' && c != '-'
    decreases |s| - pos
  {
    var op := Peek(s, pos);
    if op == '+' || op == '-' {
      var t := Term(s, pos + 1, pow);
      ExpressionTailStops(s, t.value.next, if op == '+' then acc + t.value.value else acc - t.value.value, pow);
    }
  }

  /** The loop of parseExpression as it can actually run: only '+' ever continues it. */
  function SumTail(s: seq<char>, pos: nat, acc: real, pow: Pow): (r: Result<Parsed>)
    requires pos <= |s|
    ensures r.Ok? ==> pos <= r.value.next <= |s| && Peek(s, r.value.next) != '+'
    decreases |s| - pos
  {
    if Peek(s, pos) == '+' then
      var t := Term(s, pos + 1, pow);
      if t.Err? then t else SumTail(s, t.value.next, acc + t.value.value, pow)
    else Ok(Parsed(acc, pos))
  }

  lemma {:induction false} ExpressionTailIsSum(s: seq<char>, pos: nat, acc: real, pow: Pow)
    requires pos <= |s| && Peek(s, pos) != '-'
    ensures ExpressionTail(s, pos, acc, pow) == SumTail(s, pos, acc, pow)
    decreases |s| - pos
  {
    if Peek(s, pos) == '+' {
      var t := Term(s, pos + 1, pow);
      if t.Ok? {
        TermStops(s, pos + 1, pow);
        ExpressionTailIsSum(s, t.value.next, acc + t.value.value, pow);
      }
    }
  }

  /**
   * The subtraction branch of parseExpression never runs: every term ends
   * before a character other than '-', so the expression is the sum of its
   * terms, and it stops at a character other than '+' and '-'.
   */
  lemma SubtractionUnreachable(s: seq<char>, pos: nat, pow: Pow)
    requires pos <= |s|
    ensures Term(s, pos, pow).Ok? ==>
      Expression(s, pos, pow) == SumTail(s, Term(s, pos, pow).value.next, Term(s, pos, pow).value.value, pow)
    ensures Expression(s, pos, pow).Ok? ==>
      Peek(s, Expression(s, pos, pow).value.next) != '+' && Peek(s, Expression(s, pos, pow).value.next) != '-'
  {
    var t := Term(s, pos, pow);
    if t.Ok? {
      TermStops(s, pos, pow);
      ExpressionTailIsSum(s, t.value.next, t.value.value, pow);
      if Expression(s, pos, pow).Ok? {
        ExpressionTailStops(s, t.value.next, t.value.value, pow);
      }
    }
  }

  // ---------------------------------------------------------------------
  // One-step evaluation rules

  /** The value of a decimal digit character. */
  function Digit(c: char): real
    requires IsDigit(c)
  {
    (c as int - '0' as int) as real
  }

  /** A lone digit, not followed by a digit or '.', is a primary of its own value. */
  lemma DigitPrimary(s: seq<char>, q: nat, pow: Pow)
    requires q < |s| && IsDigit(s[q])
    requires !IsDigit(Peek(s, q + 1)) && Peek(s, q + 1) != '.'
    ensures Primary(s, q, pow) == Ok(Parsed(Digit(s[q]), q + 1))
  {
    ReadSingleDigit(s, q);
    assert SkipSpaces(s, q) == q;
    assert PrimaryAt(s, q, pow) == Ok(Parsed(Digit(s[q]), q + 1));
  }

  /** Without a following '^' such a digit is also a factor. */
  lemma DigitFactor(s: seq<char>, q: nat, pow: Pow)
    requires q < |s| && IsDigit(s[q])
    requires !IsDigit(Peek(s, q + 1)) && Peek(s, q + 1) != '.' && Peek(s, q + 1) != '^'
    ensures Factor(s, q, pow) == Ok(Parsed(Digit(s[q]), q + 1))
  {
    DigitPrimary(s, q, pow);
  }

  /** A primary followed by '^' and a factor is a factor: the power of the two. */
  lemma PowerStep(s: seq<char>, q: nat, b: real, n: nat, e: real, m: nat, pow: Pow)
    requires q <= |s|
    requires Primary(s, q, pow) == Ok(Parsed(b, n)) && Peek(s, n) == '^'
    requires n + 1 <= |s| && Factor(s, n + 1, pow) == Ok(Parsed(e, m))
    ensures Factor(s, q, pow) == Ok(Parsed(pow(b, e), m))
  {
  }

  /** A term is its first factor folded into the rest of the term loop. */
  lemma TermStep(s: seq<char>, q: nat, v: real, n: nat, pow: Pow)
    requires q <= |s| && Factor(s, q, pow) == Ok(Parsed(v, n))
    ensures Term(s, q, pow) == TermTail(s, n, v, pow)
  {
  }

  /** The term loop ends at a character that continues no term. */
  lemma TermTailEnd(s: seq<char>, n: nat, acc: real, pow: Pow)
    requires n <= |s| && !ContinuesTerm(Peek(s, n))
    ensures TermTail(s, n, acc, pow) == Ok(Parsed(acc, n))
  {
  }

  /** '*' multiplies the accumulated value by the next factor. */
  lemma TimesStep(s: seq<char>, n: nat, acc: real, v: real, m: nat, pow: Pow)
    requires n < |s| && s[n] == '*' && Factor(s, n + 1, pow) == Ok(Parsed(v, m))
    ensures TermTail(s, n, acc, pow) == TermTail(s, m, Times(acc, v), pow)
  {
  }

  /** '/' divides the accumulated value by a non-zero next factor. */
  lemma DivideStep(s: seq<char>, n: nat, acc: real, v: real, m: nat, pow: Pow)
    requires n < |s| && s[n] == '/' && Factor(s, n + 1, pow) == Ok(Parsed(v, m)) && v != 0.0
    ensures TermTail(s, n, acc, pow) == TermTail(s, m, acc / v, pow)
  {
  }

  /** A factor that starts right after another is multiplied in. */
  lemma ImplicitStep(s: seq<char>, n: nat, acc: real, v: real, m: nat, pow: Pow)
    requires n <= |s| && StartsImplicitProduct(Peek(s, n)) && Factor(s, n, pow) == Ok(Parsed(v, m))
    ensures TermTail(s, n, acc, pow) == TermTail(s, m, Times(acc, v), pow)
  {
  }

  /** An expression is its first term folded into the rest of the expression loop. */
  lemma ExpressionStep(s: seq<char>, q: nat, v: real, n: nat, pow: Pow)
    requires q <= |s| && Term(s, q, pow) == Ok(Parsed(v, n))
    ensures Expression(s, q, pow) == ExpressionTail(s, n, v, pow)
  {
  }

  /** The expression loop ends at a character other than '+' and '-'. */
  lemma ExpressionTailEnd(s: seq<char>, n: nat, acc: real, pow: Pow)
    requires n <= |s| && Peek(s, n) != '+' && Peek(s, n) != '-'
    ensures ExpressionTail(s, n, acc, pow) == Ok(Parsed(acc, n))
  {
  }

  /** '+' adds the next term to the accumulated value. */
  lemma PlusStep(s: seq<char>, n: nat, acc: real, v: real, m: nat, pow: Pow)
    requires n < |s| && s[n] == '+' && Term(s, n + 1, pow) == Ok(Parsed(v, m))
    ensures ExpressionTail(s, n, acc, pow) == ExpressionTail(s, m, acc + v, pow)
  {
  }

  /** '(' Expression ')' is a primary and, without a following '^', a factor. */
  lemma GroupFactor(s: seq<char>, q: nat, v: real, n: nat, pow: Pow)
    requires q < |s| && s[q] == '(' && Expression(s, q + 1, pow) == Ok(Parsed(v, n))
    requires Peek(s, n) == ')'
    ensures Primary(s, q, pow) == Ok(Parsed(v, n + 1))
    ensures Peek(s, n + 1) != '^' ==> Factor(s, q, pow) == Ok(Parsed(v, n + 1))
  {
    assert SkipSpaces(s, q) == q;
    assert PrimaryAt(s, q, pow) == Ok(Parsed(v, n + 1));
  }

  /** A digit that makes up a whole term and a whole expression. */
  lemma DigitExpression(s: seq<char>, q: nat, pow: Pow)
    requires q < |s| && IsDigit(s[q])
    requires !ContinuesTerm(Peek(s, q + 1)) && Peek(s, q + 1) != '^' && Peek(s, q + 1) != '+'
    ensures Term(s, q, pow) == Ok(Parsed(Digit(s[q]), q + 1))
    ensures Expression(s, q, pow) == Ok(Parsed(Digit(s[q]), q + 1))
  {
    DigitFactor(s, q, pow);
    TermStep(s, q, Digit(s[q]), q + 1, pow);
    TermTailEnd(s, q + 1, Digit(s[q]), pow);
    ExpressionStep(s, q, Digit(s[q]), q + 1, pow);
    ExpressionTailEnd(s, q + 1, Digit(s[q]), pow);
  }

  /** A text whose first term is followed by neither '+' nor '-' evaluates to that term. */
  lemma WholeTextIsOneTerm(s: seq<char>, pow: Pow)
    requires Term(s, 0, pow).Ok?
    requires Peek(s, Term(s, 0, pow).value.next) != '+' && Peek(s, Term(s, 0, pow).value.next) != '-'
    ensures Evaluate(s, pow) == Ok(Term(s, 0, pow).value.value)
  {
    var t := Term(s, 0, pow);
    ExpressionTailEnd(s, t.value.next, t.value.value, pow);
  }

  // ---------------------------------------------------------------------
  // Nothing past the cursor matters

  /** `s` and `t` show the same characters to a cursor anywhere from `lo` to `hi`. */
  predicate Agree(s: seq<char>, t: seq<char>, lo: nat, hi: nat) {
    forall i :: lo <= i <= hi ==> Peek(s, i) == Peek(t, i)
  }

  lemma {:induction false} SkipSpacesLocal(s: seq<char>, t: seq<char>, pos: nat)
    requires pos <= |s| && pos <= |t|
    requires Agree(s, t, pos, SkipSpaces(s, pos))
    ensures SkipSpaces(t, pos) == SkipSpaces(s, pos)
    decreases |s| - pos
  {
    assert Peek(s, pos) == Peek(t, pos);
    if pos < |s| && IsSpace(s[pos]) {
      SkipSpacesLocal(s, t, pos + 1);
    }
  }

  lemma {:induction false} DigitsEndLocal(s: seq<char>, t: seq<char>, pos: nat)
    requires pos <= |s| && pos <= |t|
    requires Agree(s, t, pos, DigitsEnd(s, pos))
    ensures DigitsEnd(t, pos) == DigitsEnd(s, pos)
    ensures s[pos..DigitsEnd(s, pos)] == t[pos..DigitsEnd(s, pos)]
    decreases |s| - pos
  {
    assert Peek(s, pos) == Peek(t, pos);
    if pos < |s| && IsDigit(s[pos]) {
      DigitsEndLocal(s, t, pos + 1);
      assert s[pos..DigitsEnd(s, pos)] == [s[pos]] + s[pos + 1..DigitsEnd(s, pos)];
      assert t[pos..DigitsEnd(s, pos)] == [t[pos]] + t[pos + 1..DigitsEnd(s, pos)];
    }
  }

  lemma ReadNumberLocal(s: seq<char>, t: seq<char>, q: nat)
    requires q <= |s| && q <= |t|
    requires ReadNumber(s, q).Some?
    requires Agree(s, t, q, ReadNumber(s, q).value.next)
    ensures ReadNumber(t, q) == ReadNumber(s, q)
  {
    var a := DigitsEnd(s, q);
    DigitsEndLocal(s, t, q);
    if Peek(s, a) == '.' {
      assert a < |t|;
      DigitsEndLocal(s, t, a + 1);
    }
  }

  lemma {:induction false} ExpressionLocal(s: seq<char>, t: seq<char>, pos: nat, pow: Pow)
    requires pos <= |s| && pos <= |t|
    requires Expression(s, pos, pow).Ok?
    requires Agree(s, t, pos, Expression(s, pos, pow).value.next)
    ensures Expression(t, pos, pow) == Expression(s, pos, pow)
    decreases |s| - pos, 7
  {
    var ts := Term(s, pos, pow);
    TermLocal(s, t, pos, pow);
    ExpressionTailLocal(s, t, ts.value.next, ts.value.value, pow);
  }

  lemma {:induction false} ExpressionTailLocal(s: seq<char>, t: seq<char>, pos: nat, acc: real, pow: Pow)
    requires pos <= |s| && pos <= |t|
    requires ExpressionTail(s, pos, acc, pow).Ok?
    requires Agree(s, t, pos, ExpressionTail(s, pos, acc, pow).value.next)
    ensures ExpressionTail(t, pos, acc, pow) == ExpressionTail(s, pos, acc, pow)
    decreases |s| - pos, 6
  {
    var op := Peek(s, pos);
    assert Peek(t, pos) == op;
    if op == '+' || op == '-' {
      var ts := Term(s, pos + 1, pow);
      TermLocal(s, t, pos + 1, pow);
      ExpressionTailLocal(s, t, ts.value.next, if op == '+' then acc + ts.value.value else acc - ts.value.value, pow);
    }
  }

  lemma {:induction false} TermLocal(s: seq<char>, t: seq<char>, pos: nat, pow: Pow)
    requires pos <= |s| && pos <= |t|
    requires Term(s, pos, pow).Ok?
    requires Agree(s, t, pos, Term(s, pos, pow).value.next)
    ensures Term(t, pos, pow) == Term(s, pos, pow)
    decreases |s| - pos, 5
  {
    var fs := Factor(s, pos, pow);
    FactorLocal(s, t, pos, pow);
    TermTailLocal(s, t, fs.value.next, fs.value.value, pow);
  }

  lemma {:induction false} TermTailLocal(s: seq<char>, t: seq<char>, pos: nat, acc: real, pow: Pow)
    requires pos <= |s| && pos <= |t|
    requires TermTail(s, pos, acc, pow).Ok?
    requires Agree(s, t, pos, TermTail(s, pos, acc, pow).value.next)
    ensures TermTail(t, pos, acc, pow) == TermTail(s, pos, acc, pow)
    decreases |s| - pos, 4
  {
    var c := Peek(s, pos);
    assert Peek(t, pos) == c;
    if c == '*' || c == '/' {
      var fs := Factor(s, pos + 1, pow);
      FactorLocal(s, t, pos + 1, pow);
      TermTailLocal(s, t, fs.value.next, if c == '*' then Times(acc, fs.value.value) else acc / fs.value.value, pow);
    } else if StartsImplicitProduct(c) {
      var fs := Factor(s, pos, pow);
      FactorLocal(s, t, pos, pow);
      TermTailLocal(s, t, fs.value.next, Times(acc, fs.value.value), pow);
    }
  }

  lemma {:induction false} FactorLocal(s: seq<char>, t: seq<char>, pos: nat, pow: Pow)
    requires pos <= |s| && pos <= |t|
    requires Factor(s, pos, pow).Ok?
    requires Agree(s, t, pos, Factor(s, pos, pow).value.next)
    ensures Factor(t, pos, pow) == Factor(s, pos, pow)
    decreases |s| - pos, 3
  {
    var bs := Primary(s, pos, pow);
    PrimaryLocal(s, t, pos, pow);
    if Peek(s, bs.value.next) == '^' {
      assert Peek(t, bs.value.next) == '^';
      FactorLocal(s, t, bs.value.next + 1, pow);
    } else {
      assert Peek(t, bs.value.next) == Peek(s, bs.value.next);
    }
  }

  lemma {:induction false} PrimaryLocal(s: seq<char>, t: seq<char>, pos: nat, pow: Pow)
    requires pos <= |s| && pos <= |t|
    requires Primary(s, pos, pow).Ok?
    requires Agree(s, t, pos, Primary(s, pos, pow).value.next)
    ensures Primary(t, pos, pow) == Primary(s, pos, pow)
    decreases |s| - pos, 2
  {
    SkipSpacesLocal(s, t, pos);
    PrimaryAtLocal(s, t, SkipSpaces(s, pos), pow);
  }

  lemma {:induction false} PrimaryAtLocal(s: seq<char>, t: seq<char>, q: nat, pow: Pow)
    requires q <= |s| && q <= |t|
    requires PrimaryAt(s, q, pow).Ok?
    requires Agree(s, t, q, PrimaryAt(s, q, pow).value.next)
    ensures PrimaryAt(t, q, pow) == PrimaryAt(s, q, pow)
    decreases |s| - q, 1
  {
    var c := Peek(s, q);
    assert Peek(t, q) == c;
    if c == '+' {
      PrimaryLocal(s, t, q + 1, pow);
    } else if c == '-' {
      PrimaryLocal(s, t, q + 1, pow);
    } else if c == '(' {
      var e := Expression(s, q + 1, pow);
      ExpressionLocal(s, t, q + 1, pow);
      assert Peek(t, e.value.next) == Peek(s, e.value.next);
    } else {
      ReadNumberFails(s, q);
      ReadNumberLocal(s, t, q);
    }
  }

  /** The result of calculate depends only on the text up to and including the character the parse stopped at. */
  lemma EvaluateDependsOnlyOnParsedPrefix(s: seq<char>, t: seq<char>, pow: Pow)
    requires Expression(s, 0, pow).Ok?
    requires Agree(s, t, 0, Expression(s, 0, pow).value.next)
    ensures Evaluate(t, pow) == Evaluate(s, pow)
  {
    ExpressionLocal(s, t, 0, pow);
  }

  /**
   * calculate performs no end-of-input check: whatever replaces the text
   * after the character the parse stopped at, the result is the same.
   */
  lemma TrailingTextIgnored(s: seq<char>, u: seq<char>, pow: Pow)
    requires Expression(s, 0, pow).Ok? && Expression(s, 0, pow).value.next < |s|
    ensures Evaluate(s[..Expression(s, 0, pow).value.next + 1] + u, pow) == Evaluate(s, pow)
  {
    var p := Expression(s, 0, pow).value.next;
    var t := s[..p + 1] + u;
    assert forall i :: 0 <= i <= p ==> t[i] == s[i];
    EvaluateDependsOnlyOnParsedPrefix(s, t, pow);
  }
}
