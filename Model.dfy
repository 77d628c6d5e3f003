/**
 * The recursive-descent evaluator as it runs: each rule is a method that
 * takes the cursor, advances it through `while` loops, and hands back the
 * value together with the advanced cursor (the C code passes the cursor by
 * reference).  Every method is proved to compute exactly what the grammar
 * rule of the same name in module Grammar defines.
 */
module Model {
  import opened Text
  import opened Grammar

  /** parseExpression: a term, then `+`/`-` terms folded in from the left. */
  method ParseExpression(s: seq<char>, pos: nat, pow: Pow) returns (r: Result<Parsed>)
    requires pos <= |s|
    ensures r == Expression(s, pos, pow)
    decreases |s| - pos, 3
  {
    r := ParseTerm(s, pos, pow);
    if r.Err? {
      return;
    }
    var value, cursor := r.value.value, r.value.next;
    while Peek(s, cursor) == '+' || Peek(s, cursor) == '-'
      invariant pos < cursor <= |s|
      invariant ExpressionTail(s, cursor, value, pow) == Expression(s, pos, pow)
      decreases |s| - cursor
    {
      var op := Peek(s, cursor);
      cursor := cursor + 1;
      var term := ParseTerm(s, cursor, pow);
      if term.Err? {
        return term;
      }
      if op == '+' {
        value := value + term.value.value;
      } else {
        value := value - term.value.value;
      }
      cursor := term.value.next;
    }
    return Ok(Parsed(value, cursor));
  }

  /** parseTerm: a factor, then explicit and implicit products and quotients folded in from the left. */
  method ParseTerm(s: seq<char>, pos: nat, pow: Pow) returns (r: Result<Parsed>)
    requires pos <= |s|
    ensures r == Term(s, pos, pow)
    decreases |s| - pos, 2
  {
    r := ParseFactor(s, pos, pow);
    if r.Err? {
      return;
    }
    var value, cursor := r.value.value, r.value.next;
    while true
      invariant pos < cursor <= |s|
      invariant TermTail(s, cursor, value, pow) == Term(s, pos, pow)
      decreases |s| - cursor
    {
      var c := Peek(s, cursor);
      if c == '*' {
        var factor := ParseFactor(s, cursor + 1, pow);
        if factor.Err? {
          return factor;
        }
        value, cursor := Times(value, factor.value.value), factor.value.next;
      } else if c == '/' {
        var factor := ParseFactor(s, cursor + 1, pow);
        if factor.Err? {
          return factor;
        }
        if factor.value.value == 0.0 {
          return Err(DivisionByZero);
        }
        value, cursor := value / factor.value.value, factor.value.next;
      } else if c == '(' || IsDigit(c) || c == '-' || c == '.' {
        var factor := ParseFactor(s, cursor, pow);
        if factor.Err? {
          return factor;
        }
        value, cursor := Times(value, factor.value.value), factor.value.next;
      } else {
        break;
      }
    }
    return Ok(Parsed(value, cursor));
  }

  /** parseFactor: a primary, raised to a whole further factor when `^` follows. */
  method ParseFactor(s: seq<char>, pos: nat, pow: Pow) returns (r: Result<Parsed>)
    requires pos <= |s|
    ensures r == Factor(s, pos, pow)
    decreases |s| - pos, 1
  {
    r := ParsePrimary(s, pos, pow);
    if r.Ok? && Peek(s, r.value.next) == '^' {
      var base := r.value.value;
      var exponent := ParseFactor(s, r.value.next + 1, pow);
      if exponent.Err? {
        return exponent;
      }
      r := Ok(Parsed(pow(base, exponent.value.value), exponent.value.next));
    }
  }

  /** parsePrimary: skips whitespace, then a signed primary, a parenthesised expression or a number. */
  method ParsePrimary(s: seq<char>, pos: nat, pow: Pow) returns (r: Result<Parsed>)
    requires pos <= |s|
    ensures r == Primary(s, pos, pow)
    decreases |s| - pos, 0
  {
    var cursor := pos;
    while IsSpace(Peek(s, cursor))
      invariant pos <= cursor <= |s|
      invariant SkipSpaces(s, cursor) == SkipSpaces(s, pos)
      decreases |s| - cursor
    {
      cursor := cursor + 1;
    }
    assert cursor == SkipSpaces(s, pos);
    var c := Peek(s, cursor);
    if c == '+' {
      r := ParsePrimary(s, cursor + 1, pow);
    } else if c == '-' {
      r := ParsePrimary(s, cursor + 1, pow);
      if r.Ok? {
        r := Ok(Parsed(-r.value.value, r.value.next));
      }
    } else if c == '(' {
      r := ParseExpression(s, cursor + 1, pow);
      if r.Ok? {
        if Peek(s, r.value.next) == ')' {
          r := Ok(Parsed(r.value.value, r.value.next + 1));
        } else {
          r := Err(MissingClosingParenthesis);
        }
      }
    } else {
      var number := ReadNumber(s, cursor);
      if number.None? {
        return Err(ExpectedNumber(c));
      }
      r := Ok(number.value);
    }
  }

  /** calculate: evaluates the expression at the start of the input; what follows it is not looked at. */
  method Calculate(input: seq<char>, pow: Pow) returns (r: Result<real>)
    ensures r == Evaluate(input, pow)
  {
    var e := ParseExpression(input, 0, pow);
    if e.Err? {
      return Err(e.error);
    }
    return Ok(e.value.value);
  }
}
