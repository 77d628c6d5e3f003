/**
 * The structural check the controller runs over the raw text before it is
 * evaluated, as a left-to-right fold over the characters.
 *
 * The scan keeps three pieces of state: `balance`, the parenthesis depth
 * plus one; `repeating`, set by an operator among `* / ^ ,` and cleared by
 * an operand character; and `inParenthesis`, cleared by `(` and set by an
 * operand character.  Parentheses touch neither flag they do not own.
 */
module Validation {

  /** Why the text is rejected, one kind per diagnostic of the scan. */
  datatype ValidationError =
    | ClosingBeforeOpening
    | EmptyParenthesis
    | RepeatedOperator
    | UnmatchedParentheses

  datatype Verdict = Pass | Fail(error: ValidationError)

  /** The scan's state after a prefix, or the error that stopped it. */
  datatype Scan =
    | Scanning(balance: int, repeating: int, inParenthesis: bool)
    | Rejected(error: ValidationError)

  /** The characters the scan treats as arithmetic operators. */
  predicate IsOperator(c: char) {
    c == '*' || c == '/' || c == '^' || c == ','
  }

  /** Every other character apart from the parentheses: digits, signs, '.', spaces, letters. */
  predicate IsOperand(c: char) {
    c != '(' && c != ')' && !IsOperator(c)
  }

  const Start := Scanning(1, 0, true)

  /**
   * One iteration of the scan loop.  A rejection is never undone; a
   * parenthesis moves `balance` by one and nothing else does; only a ')' or
   * an operator can reject.
   */
  function Step(sc: Scan, c: char): (r: Scan)
    ensures sc.Rejected? ==> r == sc
    ensures sc.Scanning? && r.Scanning? ==>
      r.balance == sc.balance + (if c == '(' then 1 else if c == ')' then -1 else 0)
    ensures sc.Scanning? && r.Rejected? ==> (c == ')' || IsOperator(c)) && r.error != UnmatchedParentheses
  {
    match sc
    case Rejected(_) => sc
    case Scanning(balance, repeating, inParenthesis) =>
      if c == '(' then Scanning(balance + 1, repeating, false)
      else if c == ')' then
        if balance - 1 < 1 then Rejected(ClosingBeforeOpening)
        else if !inParenthesis then Rejected(EmptyParenthesis)
        else Scanning(balance - 1, repeating, inParenthesis)
      else if IsOperator(c) then
        if repeating != 0 then Rejected(RepeatedOperator)
        else Scanning(balance, repeating + 1, inParenthesis)
      else Scanning(balance, 0, true)
  }

  /**
   * The scan state after the whole of `s`.  While the scan runs, `balance`
   * is one more than the parenthesis depth and never below 1, and
   * `repeating` is 0 or 1.  The balance test at the end is not part of the
   * scan, so it never rejects with UnmatchedParentheses.
   */
  function Run(s: seq<char>): (r: Scan)
    ensures r.Scanning? ==> r.balance == 1 + Depth(s) && r.balance >= 1
    ensures r.Scanning? ==> r.repeating == 0 || r.repeating == 1
    ensures r.Rejected? ==> r.error != UnmatchedParentheses
  {
    if s == [] then Start else Step(Run(s[..|s| - 1]), s[|s| - 1])
  }

  /** The verdict on `s`: the scan must finish and leave every parenthesis closed. */
  function Check(s: seq<char>): (v: Verdict)
    ensures v == Pass ==> Run(s).Scanning? && Depth(s) == 0
    ensures v == Fail(UnmatchedParentheses) ==> Run(s).Scanning? && Depth(s) != 0
  {
    match Run(s)
    case Rejected(e) => Fail(e)
    case Scanning(balance, _, _) => if balance != 1 then Fail(UnmatchedParentheses) else Pass
  }

  // ---------------------------------------------------------------------
  // What the state means

  /** Opening minus closing parentheses in `s`. */
  function Depth(s: seq<char>): int {
    if s == [] then 0
    else Depth(s[..|s| - 1]) + (if s[|s| - 1] == '(' then 1 else if s[|s| - 1] == ')' then -1 else 0)
  }

  /** No prefix of `s` closes more parentheses than it opens. */
  predicate NeverNegative(s: seq<char>) {
    forall k :: 0 <= k <= |s| ==> Depth(s[..k]) >= 0
  }

  /** Every operator of `s` is separated from any later one by an operand. */
  predicate NoRepeatedOperators(s: seq<char>) {
    forall i, j :: 0 <= i < j < |s| && IsOperator(s[i]) && IsOperator(s[j]) ==>
      exists k :: i < k < j && IsOperand(s[k])
  }

  /** Between any '(' and any later ')' of `s` there is an operand. */
  predicate NoEmptyGroups(s: seq<char>) {
    forall i, j :: 0 <= i < j < |s| && s[i] == '(' && s[j] == ')' ==>
      exists k :: i < k < j && IsOperand(s[k])
  }

  /** Some operator of `s` has no operand after it. */
  predicate OperatorPending(s: seq<char>) {
    exists i :: 0 <= i < |s| && IsOperator(s[i]) && forall k :: i < k < |s| ==> !IsOperand(s[k])
  }

  /** Every '(' of `s` has an operand after it. */
  predicate OperandSinceOpening(s: seq<char>) {
    forall i :: 0 <= i < |s| && s[i] == '(' ==> exists k :: i < k < |s| && IsOperand(s[k])
  }
}
