/** Concrete condition strings and what the parser and factory make of them. */
module RuleConditionExamples {
  import opened RuleConditionBase
  import opened RuleConditionFactory

  /** The raw truth value of a fixed-state condition: its state, whatever the
      rule. */
  function FixedStateUpdate<R(!new)>(state: bool): (update: R -> bool)
    ensures forall rule: R :: update(rule) == state
  {
    (rule: R) => state
  }

  /** `!true` is a negated fixed `true` state without parameter, so it
      evaluates to false against every rule. */
  lemma NegatedTrueIsFalse<R(!new)>(rule: R)
    ensures Split("!true") == Ok(RuleCondition("true", "", true))
    ensures Parse("!true") == Ok(FixedState(true, true))
    ensures !Evaluate(Base(FixedState(true, true)), FixedStateUpdate(true), rule)
  {
    SplitWithoutParenthesis("!true");
  }

  /** A parameter is everything between the first `(` and the final `)`. */
  lemma LocaltimeWithParameter()
    ensures Parse("localtime(Mon*08:00-17:00)") == Ok(Localtime("Mon*08:00-17:00", false))
  {
    var s := "localtime(Mon*08:00-17:00)";
    assert s[..9] == "localtime";
    assert s[10..|s| - 1] == "Mon*08:00-17:00";
    SplitWithParenthesis(s, 9);
  }

  /** `true` with a parameter builds a fixed `true` state and drops the
      parameter. */
  lemma TrueWithParameter()
    ensures Parse("true(x)") == Ok(FixedState(true, false))
  {
    var s := "true(x)";
    assert s[..4] == "true";
    assert s[5..|s| - 1] == "x";
    SplitWithParenthesis(s, 4);
  }

  /** `!false` with a parameter builds a negated fixed `false` state and drops
      the parameter. */
  lemma NegatedFalseWithParameter()
    ensures Parse("!false(y)") == Ok(FixedState(false, true))
  {
    var s := "!false(y)";
    assert s[..6] == "!false";
    assert s[1..6] == "false";
    assert s[7..|s| - 1] == "y";
    SplitWithParenthesis(s, 6);
  }

  /** The empty text is refused. */
  lemma EmptyText()
    ensures Parse("") == Err(EmptyCondition)
  {
  }

  /** A lone `!` has no identifier. */
  lemma NegationOnly()
    ensures Parse("!") == Err(MissingIdentifier)
  {
    SplitWithoutParenthesis("!");
  }

  /** `(` as the last character is too short to hold a parameter. */
  lemma OpenParenthesisAtEnd()
    ensures Parse("foo(") == Err(InvalidParameter)
  {
    assert "foo("[..3] == "foo";
    SplitWithParenthesis("foo(", 3);
  }

  /** An empty pair of parentheses is refused. */
  lemma EmptyParameter()
    ensures Parse("random()") == Err(InvalidParameter)
  {
    assert "random()"[..6] == "random";
    SplitWithParenthesis("random()", 6);
  }

  /** A parameter that is not closed by the last character is malformed. */
  lemma UnclosedParameter()
    ensures Parse("foo(bar") == Err(MalformedParameter)
  {
    assert "foo(bar"[..3] == "foo";
    SplitWithParenthesis("foo(bar", 3);
  }

  /** An identifier outside the table is an unknown condition. */
  lemma UnknownIdentifier()
    ensures Parse("nonexistent-id") == Err(UnknownCondition)
  {
    SplitWithoutParenthesis("nonexistent-id");
  }

  /** An empty identifier in front of `(` passes the parser and is refused by
      the factory. */
  lemma EmptyIdentifierBeforeParenthesis()
    ensures Split("(x)") == Ok(RuleCondition("", "x", false))
    ensures Parse("(x)") == Err(UnknownCondition)
  {
    assert "(x)"[..0] == "" && "(x)"[1..2] == "x";
    SplitWithParenthesis("(x)", 0);
  }

  /** The same with a leading `!`. */
  lemma NegatedEmptyIdentifierBeforeParenthesis()
    ensures Split("!(x)") == Ok(RuleCondition("", "x", true))
    ensures Parse("!(x)") == Err(UnknownCondition)
  {
    assert "!(x)"[..1] == "!" && "!(x)"[1..1] == "" && "!(x)"[2..3] == "x";
    SplitWithParenthesis("!(x)", 1);
  }

  /** A `)` inside the parameter is kept: only the last character closes it. */
  lemma ParenthesisInsideParameter()
    ensures Parse("rule-applied(a)b)") == Ok(RuleApplied("a)b", false))
  {
    var s := "rule-applied(a)b)";
    assert s[..12] == "rule-applied";
    assert s[13..|s| - 1] == "a)b";
    SplitWithParenthesis(s, 12);
  }
}
