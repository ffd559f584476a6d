# Rule conditions of USBGuard rules

This project models the rule-condition core of USBGuard
(`src/Library/RuleCondition.cpp`). A condition attached to a policy rule is
written `[!]identifier[(parameter)]`, for example `localtime(Mon*08:00-17:00)`,
`!rule-applied(id)`, `true` or `random`. The model covers:

- the condition value: identifier, parameter string and negation flag, fixed
  by the constructors (`RuleConditionBase.RuleCondition`);
- evaluation: the variant's raw `update` result, flipped when negated;
- the canonical encoding `toString` / `toRuleString`;
- the parser that splits text into (negated, identifier, parameter), with its
  exact error cases;
- the closed factory that maps the seven known identifiers to six condition
  kinds (`RuleConditionFactory.Variant`) and refuses everything else.

Files:

- `rule_condition.dfy`: module `RuleConditionBase`. It holds the condition
  value, `HasParameter`, `Evaluate`, `ToString` and `ToRuleString`.
- `condition_factory.dfy`: module `RuleConditionFactory`. It holds the error
  kinds, the `Result` type, the condition kinds and the base condition each
  kind carries (`Base`), the first-`(` search (`FindFirst`), the parser
  (`Split`), the factory (`Create`), parse-and-construct (`Parse`) and the
  round-trip lemmas.
- `condition_examples.dfy`: module `RuleConditionExamples`. It holds concrete
  inputs and what the parser and factory make of them.

A condition's fields never change after construction, so a condition is a
datatype value, not a class. Thrown `std::runtime_error`s are `Err` values of
five kinds, one per `throw` in the code: `EmptyCondition`,
`MissingIdentifier`, `InvalidParameter`, `MalformedParameter` and
`UnknownCondition`. The virtual `update` is supplied by the caller of
`Evaluate` as a function from the rule to a boolean.

Details of the code that the grammar alone does not show:

- `hasParameter` is true exactly when the parameter string is non-empty. There
  is no separate presence flag, so constructing with an explicitly empty
  parameter is the same as constructing without one.
- The parser needs at least three characters from the first `(` to the end of
  the text. So `random()` is refused with `InvalidParameter`, and a parameter in
  parentheses is never empty.
- An empty identifier in front of `(` is accepted by the parser. `(x)` and
  `!(x)` then fail in the factory as unknown conditions.
- The parameter is everything between the first `(` and the last character
  of the text. So the parameter may contain `(` and `)`, and encoding then
  parsing round-trips for every parameter.

## Model

| member | source | states |
|---|---|---|
| `RuleConditionBase.HasParameter` | src/Library/RuleCondition.cpp:77-80 | true exactly when the parameter string is non-empty; the datatype `RuleConditionBase.RuleCondition` stands for the three-argument and copy constructors (28-33, 41-46) and its fields for the accessors (67-85) |
| `RuleConditionBase.WithoutParameter` | src/Library/RuleCondition.cpp:35-39 | the two-argument constructor keeps identifier and negation and gives a condition without a parameter |
| `RuleConditionBase.EmptyParameterIsNoParameter` | src/Library/RuleCondition.cpp:28-39 | a condition built with an empty parameter has no parameter and equals one built without a parameter |
| `RuleConditionBase.Evaluate` | src/Library/RuleCondition.cpp:62-65 | the result is `negated XOR update(rule)`; without negation it is `update(rule)` |
| `RuleConditionBase.EvaluateNegationFlips` | src/Library/RuleCondition.cpp:62-65 | toggling the negation flag complements the evaluation result for every update and rule |
| `RuleConditionBase.ToString` | src/Library/RuleCondition.cpp:87-104 | layout of the encoding: a `!` marker first when negated, then the identifier; without a parameter nothing follows; with one, `(` right after the identifier, the parameter, and `)` as the last character |
| `RuleConditionBase.ToRuleString` | src/Library/RuleCondition.cpp:106-109 | the rule-file encoding equals `ToString` |
| `RuleConditionBase.NegatedWithParameterShape` | src/Library/RuleCondition.cpp:87-109 | a negated condition with a parameter encodes to text of length at least 3 that begins with `!` and ends with `)` |
| `RuleConditionFactory.Base` | src/Library/RuleCondition.cpp:167-186 | each kind carries a known identifier, its negation and its parameter; a fixed state carries no parameter |
| `RuleConditionFactory.FindFirst` | src/Library/RuleCondition.cpp:129 | returns none iff the character does not occur; otherwise returns a position holding it with no earlier occurrence |
| `RuleConditionFactory.IdentifierStart` | src/Library/RuleCondition.cpp:127-128 | the identifier starts at 1 iff the text begins with `!`, else at 0 |
| `RuleConditionFactory.Split` | src/Library/RuleCondition.cpp:122-160 | empty text iff `EmptyCondition`; on success the negation is `s[0] == '!'`, the identifier holds no `(`, and the identifier or the parameter is non-empty; the parser never reports `UnknownCondition` |
| `RuleConditionFactory.SplitIdentifier` | src/Library/RuleCondition.cpp:134-144 | text without `(`: fails, always with `MissingIdentifier`, iff nothing follows the optional `!`; otherwise a non-empty identifier without `(` and no parameter |
| `RuleConditionFactory.SplitParameter` | src/Library/RuleCondition.cpp:145-160 | first `(` at `p`: `InvalidParameter` iff fewer than 3 characters from `p`; `MalformedParameter` iff there are enough but the last character is not `)`; otherwise the identifier holds no `(` and there is a parameter |
| `RuleConditionFactory.FirstParenthesisUnique` | src/Library/RuleCondition.cpp:129 | there is at most one position of a first `(` |
| `RuleConditionFactory.SplitErrors` | src/Library/RuleCondition.cpp:124-157 | which error the parser reports, in terms of the text alone: `MissingIdentifier`, `InvalidParameter` and `MalformedParameter` each hold exactly under their own condition on the text and its first `(` |
| `RuleConditionFactory.SplitWithoutParenthesis` | src/Library/RuleCondition.cpp:134-144 | without `(`: the identifier is the whole rest after the optional `!`, the parameter is empty, and the rest is empty iff `MissingIdentifier` |
| `RuleConditionFactory.SplitWithParenthesis` | src/Library/RuleCondition.cpp:145-160 | with the first `(` at `p`: `InvalidParameter` if fewer than 3 characters from `p`, else `MalformedParameter` if the last character is not `)`, else identifier `s[start..p]` (possibly empty) and parameter `s[p+1..|s|-1]` of length at least 1 |
| `RuleConditionFactory.SplitThenToString` | src/Library/RuleCondition.cpp:87-160 | every accepted text is re-encoded to exactly itself |
| `RuleConditionFactory.ToStringThenSplit` | src/Library/RuleCondition.cpp:87-160 | parsing the encoding of `(id, param, neg)` gives the same triple back iff there is something besides `!` to write, `id` has no `(`, and `id` starts with `!` only when negated; the parameter may hold any characters |
| `RuleConditionFactory.SplitOfToStringIsReparsable` | src/Library/RuleCondition.cpp:87-160 | the "only if" half of the round trip |
| `RuleConditionFactory.ReparsableSplits` | src/Library/RuleCondition.cpp:87-160 | the "if" half of the round trip |
| `RuleConditionFactory.BaseIsReparsable` | src/Library/RuleCondition.cpp:167-186 | the base condition of every kind satisfies `Reparsable`, and its identifier is non-empty, does not begin with `!` and holds no `(` |
| `RuleConditionFactory.Create` | src/Library/RuleCondition.cpp:165-189 | succeeds iff the identifier is one of the seven known ones, else `UnknownCondition`; the kind built has that identifier and the given negation and, except for `true`/`false`, the given parameter; `true`/`false` and only they build a fixed state |
| `RuleConditionFactory.CreateFromBase` | src/Library/RuleCondition.cpp:165-189 | the factory rebuilds every kind from its own identifier, parameter and negation |
| `RuleConditionFactory.FixedStateIgnoresParameter` | src/Library/RuleCondition.cpp:173-178 | `true`/`false` build `FixedState(true/false, negated)` whatever the parameter |
| `RuleConditionFactory.Parse` | src/Library/RuleCondition.cpp:122-163 | parser errors pass through unchanged; succeeds iff the text splits and its identifier is known, else `UnknownCondition`; the kind built has the split identifier and the negation `s[0] == '!'`; every kind other than a fixed state keeps the split parameter and re-encodes to exactly the input; a fixed state's state is whether the identifier is `true` |
| `RuleConditionFactory.ParseToRuleString` | src/Library/RuleCondition.cpp:87-189 | every condition kind parses back from its rule-file encoding to itself |
| `RuleConditionExamples.FixedStateUpdate` | src/Library/RuleCondition.cpp:173-178 | the raw truth value of a fixed state is its state for every rule |
| `RuleConditionExamples.NegatedTrueIsFalse` | src/Library/RuleCondition.cpp:62-65 | `!true` splits into (`true`, no parameter, negated), builds a negated fixed `true`, and evaluates to false against every rule |
| `RuleConditionExamples.LocaltimeWithParameter` | src/Library/RuleCondition.cpp:145-171 | `localtime(Mon*08:00-17:00)` builds `Localtime("Mon*08:00-17:00", false)` |
| `RuleConditionExamples.TrueWithParameter` | src/Library/RuleCondition.cpp:173-175 | `true(x)` builds `FixedState(true, false)`: the parameter is dropped |
| `RuleConditionExamples.NegatedFalseWithParameter` | src/Library/RuleCondition.cpp:176-178 | `!false(y)` builds `FixedState(false, true)`: the parameter is dropped |
| `RuleConditionExamples.EmptyText` | src/Library/RuleCondition.cpp:124-126 | the empty text fails with `EmptyCondition` |
| `RuleConditionExamples.NegationOnly` | src/Library/RuleCondition.cpp:139-143 | `!` fails with `MissingIdentifier` |
| `RuleConditionExamples.OpenParenthesisAtEnd` | src/Library/RuleCondition.cpp:146-150 | `foo(` fails with `InvalidParameter` |
| `RuleConditionExamples.EmptyParameter` | src/Library/RuleCondition.cpp:146-150 | `random()` fails with `InvalidParameter` |
| `RuleConditionExamples.UnclosedParameter` | src/Library/RuleCondition.cpp:155-157 | `foo(bar` fails with `MalformedParameter` |
| `RuleConditionExamples.UnknownIdentifier` | src/Library/RuleCondition.cpp:165-189 | `nonexistent-id` fails with `UnknownCondition` |
| `RuleConditionExamples.EmptyIdentifierBeforeParenthesis` | src/Library/RuleCondition.cpp:152-153 | `(x)` splits into an empty identifier with parameter `x` and then fails as unknown |
| `RuleConditionExamples.NegatedEmptyIdentifierBeforeParenthesis` | src/Library/RuleCondition.cpp:152-153 | `!(x)` splits into a negated empty identifier with parameter `x` and then fails as unknown |
| `RuleConditionExamples.ParenthesisInsideParameter` | src/Library/RuleCondition.cpp:159 | `rule-applied(a)b)` builds `RuleApplied("a)b", false)`: only the last character closes the parameter |

## Left out

- `init`, `fini` and the destructor's call to `fini` (src/Library/RuleCondition.cpp:48-60): they do nothing in the base class and take an opaque execution context, so a value model has nothing to record.
- The copy constructor (src/Library/RuleCondition.cpp:41-46): a datatype value is copied field by field by its nature, so it has no member of its own.
- RuleConditionBase.Evaluate: `update` is a pure function supplied by the caller, so side effects of a variant's `update` (history, random draws) are not modelled; only the flip of the returned boolean is.
- The internals of the concrete variants (time windows, random sampling, rule history): their headers are not part of this model. Only their tags, what they are built from, and the base condition each carries are modelled. That base condition is taken from the factory table: the kind's own identifier plus the given parameter, and for a fixed state the two-argument base constructor.
- RuleConditionExamples.FixedStateUpdate: a fixed state's `update` is taken to return its state; `FixedStateCondition` is not part of this model.
- Overrides of `toRuleString` in concrete variants: none are in the modelled file, so every kind uses the base encoding.
- Allocation with `new` and ownership of the returned object: conditions are returned as values.
- The text of the exception messages: only which error is raised is modelled.
- Logging and stream includes: they are not used by the logic.
- Characters are Dafny `char`s, one per byte of the `std::string`. The code compares single bytes with `!`, `(` and `)` and compares whole identifiers with seven ASCII literals, so mapping bytes to chars one to one keeps every comparison.
