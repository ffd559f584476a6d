/** The base of every rule condition: an identifier, a parameter string and a
    negation flag, all fixed when the condition is constructed, together with
    the negation-aware evaluation wrapper and the canonical text encoding
    `[!]identifier[(parameter)]`. */
module RuleConditionBase {

  /** The state a rule condition holds. The three fields are set by the
      constructors only and never change afterwards, so a condition is a value;
      copying one copies the three fields. */
  datatype RuleCondition = RuleCondition(identifier: string, parameter: string, negated: bool)

  /** The two-argument constructor: no parameter is given, so the parameter
      string stays empty. */
  function WithoutParameter(identifier: string, negated: bool): (c: RuleCondition)
    ensures c.identifier == identifier && c.negated == negated
    ensures !HasParameter(c)
  {
    RuleCondition(identifier, "", negated)
  }

  /** A condition has a parameter exactly when its parameter string is not
      empty; there is no separate presence flag. */
  predicate HasParameter(c: RuleCondition)
    ensures HasParameter(c) <==> |c.parameter| > 0
  {
    c.parameter != []
  }

  /** Constructing with an explicitly empty parameter gives the same condition
      as constructing without one. */
  lemma EmptyParameterIsNoParameter(identifier: string, negated: bool)
    ensures !HasParameter(RuleCondition(identifier, "", negated))
    ensures RuleCondition(identifier, "", negated) == WithoutParameter(identifier, negated)
  {
  }

  /** Evaluation against a rule: the variant's own `update` supplies the raw
      truth value, and negation flips it. The second ensures spells out the
      un-negated special case of the first. */
  function Evaluate<R>(c: RuleCondition, update: R -> bool, rule: R): (b: bool)
    ensures b == (c.negated != update(rule))
    ensures !c.negated ==> b == update(rule)
  {
    if c.negated then !update(rule) else update(rule)
  }

  /** Flipping the negation flag of a condition flips what it evaluates to. */
  lemma EvaluateNegationFlips<R>(c: RuleCondition, update: R -> bool, rule: R)
    ensures Evaluate(c.(negated := !c.negated), update, rule) == !Evaluate(c, update, rule)
  {
  }

  /** Length of the optional leading negation marker. */
  function PrefixLength(c: RuleCondition): (k: nat)
    ensures k <= 1 && (k == 1 <==> c.negated)
  {
    if c.negated then 1 else 0
  }

  /** The canonical encoding: a `!` exactly when negated, then the identifier,
      then the parameter in parentheses exactly when there is one. */
  function ToString(c: RuleCondition): (s: string)
    ensures var k, n := PrefixLength(c), |c.identifier|;
      k + n <= |s| &&
      (c.negated ==> s[0] == '!') &&
      s[k..k + n] == c.identifier &&
      (!HasParameter(c) ==> |s| == k + n) &&
      (HasParameter(c) ==>
         |s| == k + n + |c.parameter| + 2 &&
         s[k + n] == '(' && s[k + n + 1..|s| - 1] == c.parameter && s[|s| - 1] == ')')
  {
    (if c.negated then "!" else "")
    + c.identifier
    + (if HasParameter(c) then "(" + c.parameter + ")" else "")
  }

  /** The encoding used in rule files is the same as the display encoding. */
  function ToRuleString(c: RuleCondition): (s: string)
    ensures s == ToString(c)
  {
    ToString(c)
  }

  /** A negated condition with a parameter is written starting with `!` and
      ending with `)`. */
  lemma NegatedWithParameterShape(c: RuleCondition)
    requires c.negated && HasParameter(c)
    ensures var s := ToRuleString(c); |s| >= 3 && s[0] == '!' && s[|s| - 1] == ')'
  {
  }
}
