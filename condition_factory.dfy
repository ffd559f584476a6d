/** The text parser of rule conditions and the closed factory that turns an
    identifier into one of the concrete condition kinds. Errors that the
    implementation throws are returned as `Err` values. */
module RuleConditionFactory {
  import opened RuleConditionBase

  /** The failures of parsing and construction, one per thrown error. */
  datatype ConditionError =
    | EmptyCondition       // the input text is empty
    | MissingIdentifier    // no `(` and nothing after the optional `!`
    | InvalidParameter     // a `(` with fewer than three characters from it to the end
    | MalformedParameter   // a `(` but the text does not end in `)`
    | UnknownCondition     // the identifier is not in the factory table

  datatype Result<T> = Ok(value: T) | Err(error: ConditionError)

  datatype Option<T> = None | Some(value: T)

  /** The concrete condition kinds the factory can build. */
  datatype Variant =
    | AllowedMatches(parameter: string, negated: bool)
    | Localtime(parameter: string, negated: bool)
    | FixedState(state: bool, negated: bool)
    | RandomState(parameter: string, negated: bool)
    | RuleApplied(parameter: string, negated: bool)
    | RuleEvaluated(parameter: string, negated: bool)

  /** The identifiers the factory knows. */
  const KnownIdentifiers: set<string> :=
    {"allowed-matches", "localtime", "true", "false", "random", "rule-applied", "rule-evaluated"}

  /** The base condition each kind is constructed with: its own identifier, the
      parameter it was given, and the negation flag. A fixed state uses the
      two-argument base constructor, so it has no parameter. */
  function Base(v: Variant): (c: RuleCondition)
    ensures c.identifier in KnownIdentifiers && c.negated == v.negated
    ensures v.FixedState? ==> !HasParameter(c)
    ensures !v.FixedState? ==> c.parameter == v.parameter
  {
    match v
    case AllowedMatches(p, n) => RuleCondition("allowed-matches", p, n)
    case Localtime(p, n) => RuleCondition("localtime", p, n)
    case FixedState(b, n) => WithoutParameter(if b then "true" else "false", n)
    case RandomState(p, n) => RuleCondition("random", p, n)
    case RuleApplied(p, n) => RuleCondition("rule-applied", p, n)
    case RuleEvaluated(p, n) => RuleCondition("rule-evaluated", p, n)
  }

  /** The position of the first occurrence of `x` in `s`, if there is one. */
  function FindFirst(s: string, x: char): (r: Option<nat>)
    ensures r.None? <==> x !in s
    ensures r.Some? ==> r.value < |s| && s[r.value] == x && x !in s[..r.value]
  {
    if s == [] then None
    else if s[0] == x then Some(0)
    else match FindFirst(s[1..], x)
      case None => None
      case Some(i) =>
        assert s[..i + 1] == [s[0]] + s[1..][..i];
        Some(i + 1)
  }

  /** `p` is the position of the first `(` in `s`. */
  predicate FirstParenthesisAt(s: string, p: nat)
  {
    p < |s| && s[p] == '(' && '(' !in s[..p]
  }

  /** A character missing from a sequence is missing from every slice of it. */
  lemma AbsentFromSlice(s: string, x: char, i: nat, j: nat)
    requires i <= j <= |s| && x !in s
    ensures x !in s[i..j]
  {
    assert forall k | 0 <= k < j - i :: s[i..j][k] == s[i + k];
  }

  /** Where the identifier starts: after the `!` when there is one. */
  function IdentifierStart(s: string): (k: nat)
    requires s != []
    ensures k <= 1 && (k == 1 <==> s[0] == '!')
  {
    if s[0] == '!' then 1 else 0
  }

  /** The parser: splits `[!]identifier[(parameter)]` into its three parts.
      The identifier runs up to the first `(`, the parameter from just after it
      to just before the last character, which has to be `)`. */
  function Split(s: string): (r: Result<RuleCondition>)
    ensures s == [] <==> r == Err(EmptyCondition)
    ensures r.Ok? ==> s != [] && r.value.negated == (s[0] == '!')
    ensures r.Ok? ==> '(' !in r.value.identifier
    ensures r.Ok? ==> r.value.identifier != [] || HasParameter(r.value)
    ensures r.Err? ==> r.error != UnknownCondition
  {
    if s == [] then Err(EmptyCondition)
    else
      match FindFirst(s, '(')
      case None => SplitIdentifier(s)
      case Some(p) =>
        assert FirstParenthesisAt(s, p);
        SplitParameter(s, p)
  }

  /** The parser's branch for text without `(`: everything after the optional
      `!` is the identifier, and it must not be empty. */
  function SplitIdentifier(s: string): (r: Result<RuleCondition>)
    requires s != [] && '(' !in s
    ensures r.Ok? ==> r.value.negated == (s[0] == '!') && !HasParameter(r.value)
    ensures r.Ok? ==> r.value.identifier != [] && '(' !in r.value.identifier
    ensures r.Err? <==> |s| == IdentifierStart(s)
    ensures r.Err? ==> r.error == MissingIdentifier
  {
    var start := IdentifierStart(s);
    var identifier := s[start..];
    if |identifier| < 1 then Err(MissingIdentifier)
    else
      AbsentFromSlice(s, '(', start, |s|);
      Ok(RuleCondition(identifier, "", s[0] == '!'))
  }

  /** The parser's branch for text whose first `(` is at `p`: at least three
      characters from `p` to the end, the last of them `)`. */
  function SplitParameter(s: string, p: nat): (r: Result<RuleCondition>)
    requires FirstParenthesisAt(s, p)
    ensures r.Ok? ==> r.value.negated == (s[0] == '!') && HasParameter(r.value)
    ensures r.Ok? ==> '(' !in r.value.identifier
    ensures r == Err(InvalidParameter) <==> |s| - p < 3
    ensures r == Err(MalformedParameter) <==> |s| - p >= 3 && s[|s| - 1] != ')'
    ensures r.Err? ==> r.error == InvalidParameter || r.error == MalformedParameter
  {
    if |s| - p < 3 then Err(InvalidParameter)
    else
      var start := IdentifierStart(s);
      var identifier := s[start..p];
      AbsentFromSlice(s[..p], '(', start, p);
      assert s[..p][start..p] == identifier;
      if s[|s| - 1] != ')' then Err(MalformedParameter)
      else Ok(RuleCondition(identifier, s[p + 1..|s| - 1], s[0] == '!'))
  }

  /** Without a `(`, the identifier is everything after the optional `!` and
      the parameter is empty. */
  lemma SplitWithoutParenthesis(s: string)
    requires s != [] && '(' !in s
    ensures var k := IdentifierStart(s);
      Split(s) == if |s| == k then Err(MissingIdentifier)
                  else Ok(RuleCondition(s[k..], "", s[0] == '!'))
  {
  }

  /** With the first `(` at `p`, the identifier is what lies between the
      optional `!` and `p` (possibly nothing), and the parameter is what lies
      between `p` and the closing `)` at the end (at least one character, which
      may itself be a parenthesis). */
  lemma SplitWithParenthesis(s: string, p: nat)
    requires FirstParenthesisAt(s, p)
    ensures var k := IdentifierStart(s);
      Split(s) == if |s| - p < 3 then Err(InvalidParameter)
                  else if s[|s| - 1] != ')' then Err(MalformedParameter)
                  else Ok(RuleCondition(s[k..p], s[p + 1..|s| - 1], s[0] == '!'))
    ensures Split(s).Ok? ==> |Split(s).value.parameter| >= 1
  {
  }

  /** There is only one first `(`. */
  lemma FirstParenthesisUnique(s: string, p: nat, q: nat)
    requires FirstParenthesisAt(s, p) && FirstParenthesisAt(s, q)
    ensures p == q
  {
  }

  /** Which error the parser reports, in terms of the text alone. */
  lemma SplitErrors(s: string)
    ensures Split(s) == Err(MissingIdentifier) <==>
              s != [] && '(' !in s && |s| == IdentifierStart(s)
    ensures Split(s) == Err(InvalidParameter) <==>
              exists p :: FirstParenthesisAt(s, p) && |s| - p < 3
    ensures Split(s) == Err(MalformedParameter) <==>
              (exists p :: FirstParenthesisAt(s, p) && |s| - p >= 3) && s[|s| - 1] != ')'
  {
    if s != [] {
      match FindFirst(s, '(')
      case None =>
        SplitWithoutParenthesis(s);
        assert forall p :: !FirstParenthesisAt(s, p);
      case Some(p) =>
        SplitWithParenthesis(s, p);
        assert FirstParenthesisAt(s, p);
        forall q | FirstParenthesisAt(s, q) ensures q == p {
          FirstParenthesisUnique(s, p, q);
        }
    }
  }

  /** Whatever the parser accepts is written back exactly as it was read. */
  lemma SplitThenToString(s: string)
    requires Split(s).Ok?
    ensures ToString(Split(s).value) == s
  {
    match FindFirst(s, '(')
    case None =>
      SplitWithoutParenthesis(s);
      NegationPrefix(s);
    case Some(p) =>
      SplitWithParenthesis(s, p);
      NegationPrefix(s);
      var k := IdentifierStart(s);
      Enclosed(s, p);
      ThreeParts(s, k, p);
  }

  /** Cutting a sequence at two points and joining the pieces gives it back. */
  lemma ThreeParts(s: string, i: nat, j: nat)
    requires i <= j <= |s|
    ensures s == s[..i] + s[i..j] + s[j..|s|]
  {
  }

  /** A slice of at least two characters is its first character, its middle
      and its last character. */
  lemma Enclosed(s: string, p: nat)
    requires p + 2 <= |s|
    ensures s[p..|s|] == [s[p]] + s[p + 1..|s| - 1] + [s[|s| - 1]]
  {
  }

  /** The text before the identifier is the negation marker, if any. */
  lemma NegationPrefix(s: string)
    requires s != []
    ensures s[..IdentifierStart(s)] == if s[0] == '!' then "!" else ""
    ensures s == s[..IdentifierStart(s)] + s[IdentifierStart(s)..]
  {
  }

  /** The conditions under which a base condition survives encoding and
      parsing: something to write besides the `!`, no `(` in the identifier,
      and no leading `!` in the identifier unless the condition is negated. */
  predicate Reparsable(c: RuleCondition)
  {
    (c.identifier != [] || HasParameter(c)) &&
    '(' !in c.identifier &&
    (c.identifier != [] && c.identifier[0] == '!' ==> c.negated)
  }

  /** Parsing the encoding of a condition gives the same identifier, parameter
      and negation back exactly when the condition is `Reparsable`; the
      parameter may contain any characters. */
  lemma ToStringThenSplit(c: RuleCondition)
    ensures Split(ToString(c)) == Ok(c) <==> Reparsable(c)
  {
    if Split(ToString(c)) == Ok(c) {
      SplitOfToStringIsReparsable(c);
    }
    if Reparsable(c) {
      ReparsableSplits(c);
    }
  }

  /** Only a `Reparsable` condition can come back from parsing its own encoding. */
  lemma SplitOfToStringIsReparsable(c: RuleCondition)
    requires Split(ToString(c)) == Ok(c)
    ensures Reparsable(c)
  {
    var s := ToString(c);
    if c.identifier != [] && !c.negated {
      assert s[0] == s[0..|c.identifier|][0] == c.identifier[0];
    }
  }

  /** A `Reparsable` condition comes back from parsing its own encoding. */
  lemma ReparsableSplits(c: RuleCondition)
    requires Reparsable(c)
    ensures Split(ToString(c)) == Ok(c)
  {
    EncodedPrefix(c);
    if HasParameter(c) {
      ReparsableWithParameterSplits(c);
    } else {
      ReparsableWithoutParameterSplits(c);
    }
  }

  /** The case of `ReparsableSplits` with a parameter. */
  lemma ReparsableWithParameterSplits(c: RuleCondition)
    requires Reparsable(c) && HasParameter(c)
    ensures Split(ToString(c)) == Ok(c)
  {
    var s := ToString(c);
    var k, n := PrefixLength(c), |c.identifier|;
    EncodedPrefix(c);
    assert FirstParenthesisAt(s, k + n);
    SplitWithParenthesis(s, k + n);
    assert s[k..k + n] == c.identifier;
    assert s[k + n + 1..|s| - 1] == c.parameter;
    assert (s[0] == '!') == c.negated;
  }

  /** The case of `ReparsableSplits` without a parameter. */
  lemma ReparsableWithoutParameterSplits(c: RuleCondition)
    requires Reparsable(c) && !HasParameter(c)
    ensures Split(ToString(c)) == Ok(c)
  {
    var s := ToString(c);
    var k, n := PrefixLength(c), |c.identifier|;
    EncodedPrefix(c);
    assert s == s[..k + n];
    SplitWithoutParenthesis(s);
    assert s[k..] == c.identifier;
    assert (s[0] == '!') == c.negated;
  }

  /** In the encoding of a `Reparsable` condition the identifier starts right
      after the optional `!`, and no `(` comes before the end of the
      identifier. */
  lemma EncodedPrefix(c: RuleCondition)
    requires Reparsable(c)
    ensures var s, k, n := ToString(c), PrefixLength(c), |c.identifier|;
      s != [] && IdentifierStart(s) == k && '(' !in s[..k + n]
  {
    var s := ToString(c);
    var k, n := PrefixLength(c), |c.identifier|;
    assert IdentifierStart(s) == k by {
      if !c.negated {
        if n > 0 {
          assert s[0] == s[k..k + n][0] == c.identifier[0];
        } else {
          assert s[0] == '(';
        }
      }
    }
    assert s[..k + n] == s[..k] + c.identifier;
    assert '(' !in s[..k] by {
      if k == 1 { assert s[..k] == [s[0]]; }
    }
  }

  /** The factory: a closed table from identifier to condition kind. Every
      kind keeps the parameter and the negation flag it is given, except that
      `true` and `false` ignore the parameter. */
  function Create(identifier: string, parameter: string, negated: bool): (r: Result<Variant>)
    ensures r.Ok? <==> identifier in KnownIdentifiers
    ensures r.Err? ==> r.error == UnknownCondition
    ensures r.Ok? ==> Base(r.value).identifier == identifier && r.value.negated == negated
    ensures r.Ok? && !r.value.FixedState? ==> r.value.parameter == parameter
    ensures r.Ok? ==> (r.value.FixedState? <==> identifier == "true" || identifier == "false")
  {
    if identifier == "allowed-matches" then Ok(AllowedMatches(parameter, negated))
    else if identifier == "localtime" then Ok(Localtime(parameter, negated))
    else if identifier == "true" then Ok(FixedState(true, negated))
    else if identifier == "false" then Ok(FixedState(false, negated))
    else if identifier == "random" then Ok(RandomState(parameter, negated))
    else if identifier == "rule-applied" then Ok(RuleApplied(parameter, negated))
    else if identifier == "rule-evaluated" then Ok(RuleEvaluated(parameter, negated))
    else Err(UnknownCondition)
  }

  /** The factory rebuilds every kind from the base condition it carries. */
  lemma CreateFromBase(v: Variant)
    ensures Create(Base(v).identifier, Base(v).parameter, Base(v).negated) == Ok(v)
  {
  }

  /** `true` and `false` build a fixed state whatever the parameter is. */
  lemma FixedStateIgnoresParameter(state: bool, parameter: string, negated: bool)
    ensures Create(if state then "true" else "false", parameter, negated) == Ok(FixedState(state, negated))
  {
  }

  /** Parse a condition from text and build it: the parser's errors are passed
      on unchanged, and an identifier outside the table is an unknown
      condition. */
  function Parse(s: string): (r: Result<Variant>)
    ensures Split(s).Err? ==> r == Err(Split(s).error)
    ensures r == Err(UnknownCondition) <==>
              Split(s).Ok? && Split(s).value.identifier !in KnownIdentifiers
    ensures r.Ok? ==> s != [] && r.value.negated == (s[0] == '!')
    ensures r.Ok? && !r.value.FixedState? ==> ToRuleString(Base(r.value)) == s
    ensures r.Ok? <==> Split(s).Ok? && Split(s).value.identifier in KnownIdentifiers
    ensures r.Ok? ==> Base(r.value).identifier == Split(s).value.identifier
    ensures r.Ok? && !r.value.FixedState? ==> r.value.parameter == Split(s).value.parameter
    ensures r.Ok? && r.value.FixedState? ==> r.value.state == (Split(s).value.identifier == "true")
  {
    match Split(s)
    case Err(e) => Err(e)
    case Ok(c) =>
      SplitThenToString(s);
      Create(c.identifier, c.parameter, c.negated)
  }

  /** Every condition kind is written in a form that parses back to itself. */
  lemma ParseToRuleString(v: Variant)
    ensures Parse(ToRuleString(Base(v))) == Ok(v)
  {
    var c := Base(v);
    BaseIsReparsable(v);
    ReparsableSplits(c);
    CreateFromBase(v);
  }

  /** No known identifier holds `(` or starts with `!`. */
  lemma BaseIsReparsable(v: Variant)
    ensures Reparsable(Base(v))
    ensures var id := Base(v).identifier; id != [] && id[0] != '!' && '(' !in id
  {
    var id := Base(v).identifier;
    assert forall i | 0 <= i < |id| :: id[i] != '(';
  }
}
