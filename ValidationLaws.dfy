/**
 * What the structural check accepts, stated without reference to its
 * state: balanced parentheses that never close before they open, no two
 * operators without an operand between them, and no parenthesis pair with
 * nothing but operators and parentheses inside.
 */
module ValidationLaws {
  import opened Validation

  // ---------------------------------------------------------------------
  // How each description extends by one character

  lemma NeverNegativeSnoc(p: seq<char>, c: char)
    ensures NeverNegative(p + [c]) <==> NeverNegative(p) && Depth(p + [c]) >= 0
  {
    var s := p + [c];
    assert s[..|s| - 1] == p;
    assert s[..|s|] == s;
    assert forall k :: 0 <= k <= |p| ==> s[..k] == p[..k];
  }

  lemma NoRepeatedOperatorsSnoc(p: seq<char>, c: char)
    ensures NoRepeatedOperators(p + [c]) <==> NoRepeatedOperators(p) && !(IsOperator(c) && OperatorPending(p))
  {
    var s := p + [c];
    if NoRepeatedOperators(s) {
      forall i, j | 0 <= i < j < |p| && IsOperator(p[i]) && IsOperator(p[j])
        ensures exists k :: i < k < j && IsOperand(p[k])
      {
        assert IsOperator(s[i]) && IsOperator(s[j]);
        var k :| i < k < j && IsOperand(s[k]);
        assert IsOperand(p[k]);
      }
    }
    if IsOperator(c) && OperatorPending(p) {
      var i :| 0 <= i < |p| && IsOperator(p[i]) && forall k :: i < k < |p| ==> !IsOperand(p[k]);
      assert IsOperator(s[i]) && IsOperator(s[|p|]);
      assert forall k :: i < k < |p| ==> !IsOperand(s[k]) by {
        forall k | i < k < |p| ensures !IsOperand(s[k]) {
          assert s[k] == p[k];
        }
      }
    }
    if NoRepeatedOperators(p) && !(IsOperator(c) && OperatorPending(p)) {
      forall i, j | 0 <= i < j < |s| && IsOperator(s[i]) && IsOperator(s[j])
        ensures exists k :: i < k < j && IsOperand(s[k])
      {
        assert IsOperator(p[i]);
        if j < |p| {
          assert IsOperator(p[j]);
          var k :| i < k < j && IsOperand(p[k]);
          assert IsOperand(s[k]);
        } else {
          assert !OperatorPending(p);
          var k :| i < k < |p| && IsOperand(p[k]);
          assert IsOperand(s[k]);
        }
      }
    }
  }

  lemma NoEmptyGroupsSnoc(p: seq<char>, c: char)
    ensures NoEmptyGroups(p + [c]) <==> NoEmptyGroups(p) && !(c == ')' && !OperandSinceOpening(p))
  {
    var s := p + [c];
    if NoEmptyGroups(s) {
      forall i, j | 0 <= i < j < |p| && p[i] == '(' && p[j] == ')'
        ensures exists k :: i < k < j && IsOperand(p[k])
      {
        assert s[i] == '(' && s[j] == ')';
        var k :| i < k < j && IsOperand(s[k]);
        assert IsOperand(p[k]);
      }
    }
    if c == ')' && !OperandSinceOpening(p) {
      var i :| 0 <= i < |p| && p[i] == '(' && !exists k :: i < k < |p| && IsOperand(p[k]);
      assert s[i] == '(' && s[|p|] == ')';
      assert !exists k :: i < k < |p| && IsOperand(s[k]) by {
        forall k | i < k < |p| ensures !IsOperand(s[k]) {
          assert s[k] == p[k];
        }
      }
    }
    if NoEmptyGroups(p) && !(c == ')' && !OperandSinceOpening(p)) {
      forall i, j | 0 <= i < j < |s| && s[i] == '(' && s[j] == ')'
        ensures exists k :: i < k < j && IsOperand(s[k])
      {
        assert p[i] == '(';
        if j < |p| {
          assert p[j] == ')';
          var k :| i < k < j && IsOperand(p[k]);
          assert IsOperand(s[k]);
        } else {
          var k :| i < k < |p| && IsOperand(p[k]);
          assert IsOperand(s[k]);
        }
      }
    }
  }

  lemma OperatorPendingSnoc(p: seq<char>, c: char)
    ensures OperatorPending(p + [c]) <==> IsOperator(c) || (!IsOperand(c) && OperatorPending(p))
  {
    var s := p + [c];
    if IsOperator(c) {
      assert IsOperator(s[|p|]);
    } else if IsOperand(c) {
      forall i | 0 <= i < |s| && IsOperator(s[i])
        ensures exists k :: i < k < |s| && IsOperand(s[k])
      {
        assert IsOperand(s[|p|]);
      }
    } else {
      if OperatorPending(s) {
        var i :| 0 <= i < |s| && IsOperator(s[i]) && forall k :: i < k < |s| ==> !IsOperand(s[k]);
        assert i < |p| && IsOperator(p[i]);
        assert forall k :: i < k < |p| ==> !IsOperand(p[k]) by {
          forall k | i < k < |p| ensures !IsOperand(p[k]) {
            assert s[k] == p[k];
          }
        }
      }
      if OperatorPending(p) {
        var i :| 0 <= i < |p| && IsOperator(p[i]) && forall k :: i < k < |p| ==> !IsOperand(p[k]);
        assert IsOperator(s[i]);
        assert forall k :: i < k < |s| ==> !IsOperand(s[k]) by {
          forall k | i < k < |s| ensures !IsOperand(s[k]) {
            if k < |p| { assert s[k] == p[k]; }
          }
        }
      }
    }
  }

  lemma OperandSinceOpeningSnoc(p: seq<char>, c: char)
    ensures OperandSinceOpening(p + [c]) <==> c != '(' && (IsOperand(c) || OperandSinceOpening(p))
  {
    var s := p + [c];
    if c == '(' {
      assert s[|p|] == '(';
    } else if IsOperand(c) {
      forall i | 0 <= i < |s| && s[i] == '(' ensures exists k :: i < k < |s| && IsOperand(s[k]) {
        assert IsOperand(s[|p|]);
      }
    } else {
      if OperandSinceOpening(s) {
        forall i | 0 <= i < |p| && p[i] == '(' ensures exists k :: i < k < |p| && IsOperand(p[k]) {
          assert s[i] == '(';
          var k :| i < k < |s| && IsOperand(s[k]);
          assert k < |p| && IsOperand(p[k]);
        }
      }
      if OperandSinceOpening(p) {
        forall i | 0 <= i < |s| && s[i] == '(' ensures exists k :: i < k < |s| && IsOperand(s[k]) {
          assert p[i] == '(';
          var k :| i < k < |p| && IsOperand(p[k]);
          assert IsOperand(s[k]);
        }
      }
    }
  }

  // ---------------------------------------------------------------------
  // The scan, explained

  /**
   * The scan survives a prefix exactly when that prefix never closes a
   * parenthesis it has not opened, repeats no operator and leaves no
   * parenthesis pair empty; and then `balance` is one more than the depth,
   * `repeating` is 1 exactly while an operator awaits its operand, and
   * `inParenthesis` says that every '(' has been followed by an operand.
   */
  lemma {:induction false} ScanMeaning(s: seq<char>)
    ensures Run(s).Scanning? <==> NeverNegative(s) && NoRepeatedOperators(s) && NoEmptyGroups(s)
    ensures Run(s).Scanning? ==>
      && Run(s).balance == 1 + Depth(s)
      && Run(s).repeating == (if OperatorPending(s) then 1 else 0)
      && Run(s).inParenthesis == OperandSinceOpening(s)
  {
    if s == [] {
      assert s[..0] == [];
    } else {
      var p, c := s[..|s| - 1], s[|s| - 1];
      assert s == p + [c];
      ScanMeaning(p);
      NeverNegativeSnoc(p, c);
      NoRepeatedOperatorsSnoc(p, c);
      NoEmptyGroupsSnoc(p, c);
      OperatorPendingSnoc(p, c);
      OperandSinceOpeningSnoc(p, c);
    }
  }

  /** errorCheck accepts exactly the texts with balanced, non-empty parenthesis groups and no repeated operator. */
  lemma CheckAcceptsExactly(s: seq<char>)
    ensures Check(s) == Pass <==>
      NeverNegative(s) && Depth(s) == 0 && NoRepeatedOperators(s) && NoEmptyGroups(s)
  {
    ScanMeaning(s);
  }

  /**
   * While the scan runs, `balance` stays at or above its initial value 1,
   * and `repeating` is 0 or 1: a corollary of the contract of Run.
   */
  lemma ScanBounds(s: seq<char>)
    requires Run(s).Scanning?
    ensures Run(s).balance >= 1
    ensures Run(s).repeating == 0 || Run(s).repeating == 1
  {
  }

  /** Once the scan has rejected a prefix, the verdict on the whole text is that rejection. */
  lemma {:induction false} RejectionIsFinal(s: seq<char>, i: nat)
    requires i <= |s| && Run(s[..i]).Rejected?
    ensures Run(s) == Run(s[..i])
    decreases |s| - i
  {
    if i < |s| {
      assert s[..i + 1][..i] == s[..i];
      RejectionIsFinal(s, i + 1);
    } else {
      assert s[..i] == s;
    }
  }

  /** The empty text passes: emptiness is refused only when the input is read. */
  lemma EmptyTextPasses()
    ensures Check([]) == Pass
  {
  }

  /** Scanning one more character is one more step of the scan. */
  lemma RunSnoc(p: seq<char>, c: char)
    ensures Run(p + [c]) == Step(Run(p), c)
  {
    assert (p + [c])[..|p|] == p;
  }

  /** The input of the controller's usage example passes. */
  lemma AcceptedExample()
    ensures Check("(2)*3") == Pass
  {
    var s0: seq<char> := [];
    var s1 := s0 + ['(']; RunSnoc(s0, '(');
    var s2 := s1 + ['2']; RunSnoc(s1, '2');
    var s3 := s2 + [')']; RunSnoc(s2, ')');
    var s4 := s3 + ['*']; RunSnoc(s3, '*');
    var s5 := s4 + ['3']; RunSnoc(s4, '3');
    assert s5 == "(2)*3";
  }

  /** A pair with nothing but an operator inside is as empty as '()'. */
  lemma EmptyParenthesisRejected()
    ensures Check("()") == Fail(EmptyParenthesis)
    ensures Check("(*)") == Fail(EmptyParenthesis)
  {
    var s0: seq<char> := [];
    var s1 := s0 + ['(']; RunSnoc(s0, '(');
    var s2 := s1 + [')']; RunSnoc(s1, ')');
    assert s2 == "()";
    var t0: seq<char> := [];
    var t1 := t0 + ['(']; RunSnoc(t0, '(');
    var t2 := t1 + ['*']; RunSnoc(t1, '*');
    var t3 := t2 + [')']; RunSnoc(t2, ')');
    assert t3 == "(*)";
  }

  /** Parentheses do not separate two operators. */
  lemma RepeatedOperatorRejected()
    ensures Check("2**3") == Fail(RepeatedOperator)
    ensures Check("2*(/3)") == Fail(RepeatedOperator)
  {
    var s0: seq<char> := [];
    var s1 := s0 + ['2']; RunSnoc(s0, '2');
    var s2 := s1 + ['*']; RunSnoc(s1, '*');
    var s3 := s2 + ['*']; RunSnoc(s2, '*');
    var s4 := s3 + ['3']; RunSnoc(s3, '3');
    assert s4 == "2**3";
    var t0: seq<char> := [];
    var t1 := t0 + ['2']; RunSnoc(t0, '2');
    var t2 := t1 + ['*']; RunSnoc(t1, '*');
    var t3 := t2 + ['(']; RunSnoc(t2, '(');
    var t4 := t3 + ['/']; RunSnoc(t3, '/');
    var t5 := t4 + ['3']; RunSnoc(t4, '3');
    var t6 := t5 + [')']; RunSnoc(t5, ')');
    assert t6 == "2*(/3)";
  }

  /** A ')' with no '(' left open is reported at once. */
  lemma ClosingBeforeOpeningRejected()
    ensures Check("(2+3))") == Fail(ClosingBeforeOpening)
  {
    var s0: seq<char> := [];
    var s1 := s0 + ['(']; RunSnoc(s0, '(');
    var s2 := s1 + ['2']; RunSnoc(s1, '2');
    var s3 := s2 + ['+']; RunSnoc(s2, '+');
    var s4 := s3 + ['3']; RunSnoc(s3, '3');
    var s5 := s4 + [')']; RunSnoc(s4, ')');
    var s6 := s5 + [')']; RunSnoc(s5, ')');
    assert s6 == "(2+3))";
  }

  /** A '(' still open at the end fails the final balance check. */
  lemma UnclosedParenthesisRejected()
    ensures Check("((2)") == Fail(UnmatchedParentheses)
  {
    var s0: seq<char> := [];
    var s1 := s0 + ['(']; RunSnoc(s0, '(');
    var s2 := s1 + ['(']; RunSnoc(s1, '(');
    var s3 := s2 + ['2']; RunSnoc(s2, '2');
    var s4 := s3 + [')']; RunSnoc(s3, ')');
    assert s4 == "((2)";
  }
}
