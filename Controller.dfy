/**
 * The controller's C routines on NUL-terminated character arrays: reading
 * the input into a fresh buffer, and the single left-to-right scan that
 * checks its structure.  Each is proved against module Validation.
 */
module Controller {
  import opened Text
  import opened Validation
  import opened ValidationLaws

  /**
   * errorCheck: one pass over the characters before the first NUL,
   * updating `balance`, `arithmeticRepeating` and `inParanthesis`, and
   * stopping at the first violation.  The array is only read.
   */
  method ErrorCheck(a: array<char>) returns (r: Verdict)
    requires '\0' in a[..]
    ensures r == Check(CString(a[..]))
  {
    ghost var s := CString(a[..]);
    var arithmeticRepeating := 0;
    var balance := 1;
    var inParenthesis := true;
    var length := Strlen(a[..]);
    for i := 0 to length
      invariant s == a[..length]
      invariant Run(s[..i]) == Scanning(balance, arithmeticRepeating, inParenthesis)
    {
      var c := a[i];
      assert s[..i + 1] == s[..i] + [c];
      RunSnoc(s[..i], c);
      assert Run(s[..i + 1]) == Step(Scanning(balance, arithmeticRepeating, inParenthesis), c);
      match c
      case '(' =>
        balance := balance + 1;
        inParenthesis := false;
      case ')' =>
        balance := balance - 1;
        if balance < 1 {
          assert Run(s[..i + 1]) == Rejected(ClosingBeforeOpening);
          RejectionIsFinal(s, i + 1);
          return Fail(ClosingBeforeOpening);
        }
        if !inParenthesis {
          assert Run(s[..i + 1]) == Rejected(EmptyParenthesis);
          RejectionIsFinal(s, i + 1);
          return Fail(EmptyParenthesis);
        }
      case '*' | '/' | '^' | ',' =>
        if arithmeticRepeating != 0 {
          assert Run(s[..i + 1]) == Rejected(RepeatedOperator);
          RejectionIsFinal(s, i + 1);
          return Fail(RepeatedOperator);
        }
        arithmeticRepeating := arithmeticRepeating + 1;
      case _ =>
        inParenthesis := true;
        arithmeticRepeating := 0;
    }
    assert s[..length] == s;
    assert Run(s) == Scanning(balance, arithmeticRepeating, inParenthesis);
    if balance != 1 {
      return Fail(UnmatchedParentheses);
    }
    return Pass;
  }

  /**
   * input: refuses an absent (NULL) or empty string, and otherwise returns
   * a freshly allocated copy of its characters followed by a NUL.
   */
  method Input(provided: Option<array<char>>) returns (copy: Option<array<char>>)
    requires provided.Some? ==> '\0' in provided.value[..]
    ensures provided.None? ==> copy.None?
    ensures provided.Some? ==> (copy.None? <==> CString(provided.value[..]) == [])
    ensures copy.Some? ==> provided.Some? && fresh(copy.value)
    ensures copy.Some? ==> copy.value[..] == CString(provided.value[..]) + ['\0']
  {
    if provided.None? {
      return None;
    }
    var source := provided.value;
    var inputLength := Strlen(source[..]);
    if inputLength == 0 {
      return None;
    }
    var buffer := new char[inputLength + 1];
    for i := 0 to inputLength
      invariant buffer[..i] == source[..i]
    {
      buffer[i] := source[i];
    }
    buffer[inputLength] := '\0';
    assert buffer[..] == buffer[..inputLength] + [buffer[inputLength]];
    return Some(buffer);
  }

  /**
   * The controller's usage example: read the input, check it, and report
   * success (0) only when the input is present, non-empty and passes the check.
   */
  method ProcessInput(provided: Option<array<char>>) returns (status: int)
    requires provided.Some? ==> '\0' in provided.value[..]
    ensures status == 0 || status == 1
    ensures status == 0 <==>
      provided.Some? && CString(provided.value[..]) != [] && Check(CString(provided.value[..])) == Pass
  {
    var buffer := Input(provided);
    if buffer.None? {
      return 1;
    }
    CStringOfTerminated(CString(provided.value[..]));
    var verdict := ErrorCheck(buffer.value);
    if verdict.Fail? {
      return 1;
    }
    return 0;
  }
}
