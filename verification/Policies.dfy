/**
  The policy evaluator: Allow and Deny statements, their actions, resources and conditions, evaluated in the order and
  with the early exits and errors of the source, and the meaning of a policy it is proved against.
 */
module Policies {
  import opened Utf16
  import opened Globs
  import opened PolicyVariables

  datatype Effect = Allow | Deny

  /** The condition keys of one operator, each with the values it allows. */
  type KeyConditions = seq<(string, seq<JsString>)>

  datatype Statement = Statement(
    effect: Effect,
    actions: seq<JsString>,
    resources: seq<JsString>,
    conditions: seq<(string, KeyConditions)>)

  datatype Request = Request(action: JsString, resourceArn: JsString, contextKeys: map<string, seq<JsString>>)

  datatype Comparison = StringEquals | StringLike

  datatype Operator = Operator(forAllValues: bool, comparison: Comparison)

  const FOR_ALL_VALUES := "ForAllValues:"

  function ParseOperator(name: string): Outcome<Operator> {
    var forAllValues := |FOR_ALL_VALUES| <= |name| && name[..|FOR_ALL_VALUES|] == FOR_ALL_VALUES;
    var comparison := if forAllValues then name[|FOR_ALL_VALUES|..] else name;
    if comparison == "StringEquals" then Value(Operator(forAllValues, StringEquals))
    else if comparison == "StringLike" then Value(Operator(forAllValues, StringLike))
    else Threw(UnsupportedOperator(name))
  }

  /** The name that a policy writes for an operator. */
  function OperatorName(op: Operator): string {
    (if op.forAllValues then "ForAllValues:" else "")
    + match op.comparison case StringEquals => "StringEquals" case StringLike => "StringLike"
  }

  /** A name is read as an operator exactly when it is that operator's name. */
  lemma ParseOperatorIff(name: string, op: Operator)
    ensures ParseOperator(name) == Value(op) <==> name == OperatorName(op)
  {
    var n := |FOR_ALL_VALUES|;
    if n <= |name| && name[..n] == FOR_ALL_VALUES {
      assert name == FOR_ALL_VALUES + name[n..];
      assert name[0] == 'F';
    }
    if name == OperatorName(op) {
      if op.forAllValues {
        assert name[..n] == FOR_ALL_VALUES && FOR_ALL_VALUES + name[n..] == name;
      } else {
        assert name[0] == 'S';
      }
    }
  }

  /** No folding: code units are compared as they are. */
  function Same(u: CodeUnit): CodeUnit {
    u
  }

  predicate ValueMatches(comparison: Comparison, allowed: seq<JsString>, value: JsString) {
    exists candidate | candidate in allowed ::
      (match comparison case StringEquals => candidate == value case StringLike => MatchesGlob(candidate, value, Same))
  }

  function SubstituteAll(values: seq<JsString>, tags: Tags): Outcome<seq<JsString>> {
    if values == [] then Value([])
    else
      match SubstituteTags(values[0], tags)
      case Threw(e) => Threw(e)
      case Value(first) =>
        match SubstituteAll(values[1..], tags)
        case Threw(e) => Threw(e)
        case Value(rest) => Value([first] + rest)
  }

  /** The values of a request satisfy an operator. */
  predicate ValuesHold(op: Operator, allowed: seq<JsString>, values: seq<JsString>) {
    if op.forAllValues then forall v | v in values :: ValueMatches(op.comparison, allowed, v)
    else exists v | v in values :: ValueMatches(op.comparison, allowed, v)
  }

  /** One condition key. The allowed values are substituted before the request is looked at. */
  function KeyOutcome(op: Operator, key: string, rawAllowed: seq<JsString>, request: Request,
                      tags: Tags): Outcome<bool> {
    match SubstituteAll(rawAllowed, tags)
    case Threw(e) => Threw(e)
    case Value(allowed) =>
      if key !in request.contextKeys then Value(op.forAllValues)
      else Value(ValuesHold(op, allowed, request.contextKeys[key]))
  }

  function KeysOutcome(op: Operator, keys: KeyConditions, request: Request, tags: Tags): Outcome<bool> {
    if keys == [] then Value(true)
    else
      var first := KeyOutcome(op, keys[0].0, keys[0].1, request, tags);
      if first == Value(true) then KeysOutcome(op, keys[1..], request, tags) else first
  }

  /** All conditions in order: the first that fails or throws decides. */
  function ConditionsOutcome(conditions: seq<(string, KeyConditions)>, request: Request, tags: Tags): Outcome<bool> {
    if conditions == [] then Value(true)
    else
      match ParseOperator(conditions[0].0)
      case Threw(e) => Threw(e)
      case Value(op) =>
        var first := KeysOutcome(op, conditions[0].1, request, tags);
        if first == Value(true) then ConditionsOutcome(conditions[1..], request, tags) else first
  }

  method ConditionHolds(statement: Statement, request: Request, tags: Tags) returns (r: Outcome<bool>)
    ensures r == ConditionsOutcome(statement.conditions, request, tags)
  {
    var entries := statement.conditions;
    for i := 0 to |entries|
      invariant ConditionsOutcome(entries[i..], request, tags) == ConditionsOutcome(entries, request, tags)
    {
      var keys := entries[i].1;
      assert entries[i..][1..] == entries[i + 1..];
      var parsed := ParseOperator(entries[i].0);
      if parsed.Threw? {
        return Threw(parsed.error);
      }
      var operator := parsed.value;
      for j := 0 to |keys|
        invariant KeysOutcome(operator, keys[j..], request, tags) == KeysOutcome(operator, keys, request, tags)
      {
        assert keys[j..][1..] == keys[j + 1..];
        var key := keys[j].0;
        var substituted := SubstituteAll(keys[j].1, tags);
        if substituted.Threw? {
          return Threw(substituted.error);
        }
        if key !in request.contextKeys {
          if operator.forAllValues {
            continue;
          }
          return Value(false);
        }
        var values := request.contextKeys[key];
        var holds := if operator.forAllValues
                     then forall v | v in values :: ValueMatches(operator.comparison, substituted.value, v)
                     else exists v | v in values :: ValueMatches(operator.comparison, substituted.value, v);
        if !holds {
          return Value(false);
        }
      }
    }
    r := Value(true);
  }

  /** Some resource matches; the resources are substituted one by one until one does. */
  function ResourceOutcome(resources: seq<JsString>, request: Request, tags: Tags): Outcome<bool> {
    if resources == [] then Value(false)
    else
      match SubstituteTags(resources[0], tags)
      case Threw(e) => Threw(e)
      case Value(resource) =>
        if MatchesGlob(resource, request.resourceArn, Same) then Value(true)
        else ResourceOutcome(resources[1..], request, tags)
  }

  /** `fold` is the case folding that actions are compared with. */
  function StatementOutcome(s: Statement, request: Request, tags: Tags, fold: CodeUnit -> CodeUnit): Outcome<bool> {
    if !(exists action | action in s.actions :: MatchesGlob(action, request.action, fold)) then Value(false)
    else
      var resource := ResourceOutcome(s.resources, request, tags);
      if resource == Value(true) then ConditionsOutcome(s.conditions, request, tags) else resource
  }

  /** The statements that match, in order. */
  function MatchingStatements(statements: seq<Statement>, tags: Tags, request: Request, fold: CodeUnit -> CodeUnit)
    : Outcome<seq<Statement>>
  {
    if statements == [] then Value([])
    else
      match StatementOutcome(statements[0], request, tags, fold)
      case Threw(e) => Threw(e)
      case Value(matches) =>
        match MatchingStatements(statements[1..], tags, request, fold)
        case Threw(e) => Threw(e)
        case Value(rest) => Value(if matches then [statements[0]] + rest else rest)
  }

  function PolicyAllows(statements: seq<Statement>, tags: Tags, request: Request,
                        fold: CodeUnit -> CodeUnit): Outcome<bool> {
    match MatchingStatements(statements, tags, request, fold)
    case Threw(e) => Threw(e)
    case Value(matching) =>
      if exists s | s in matching :: s.effect == Deny then Value(false)
      else Value(exists s | s in matching :: s.effect == Allow)
  }

  // -------------------------------------------------------------------------------------------------------------------
  // What a policy means
  // -------------------------------------------------------------------------------------------------------------------

  /** The session carries every tag the text names. */
  predicate Resolvable(text: JsString, tags: Tags) {
    NamedTags(text) <= tags.Keys
  }

  function Resolved(text: JsString, tags: Tags): JsString
    requires Resolvable(text, tags)
  {
    SubstitutionSucceedsIff(text, tags);
    SubstituteTags(text, tags).value
  }

  ghost predicate AllResolvable(texts: seq<JsString>, tags: Tags) {
    forall text | text in texts :: Resolvable(text, tags)
  }

  /** A value is one of the allowed values, after the variables are filled in. */
  ghost predicate ValueMeant(comparison: Comparison, raw: seq<JsString>, tags: Tags, value: JsString)
    requires AllResolvable(raw, tags)
  {
    exists text | text in raw ::
      match comparison
      case StringEquals => Resolved(text, tags) == value
      case StringLike => GlobMeans(Resolved(text, tags), value, Same)
  }

  /** A condition key is true: a key the request does not carry satisfies only an operator over all values. */
  ghost predicate KeyTrue(op: Operator, key: string, raw: seq<JsString>, request: Request, tags: Tags)
    requires AllResolvable(raw, tags)
  {
    if key !in request.contextKeys then op.forAllValues
    else if op.forAllValues then
      forall v | v in request.contextKeys[key] :: ValueMeant(op.comparison, raw, tags, v)
    else exists v | v in request.contextKeys[key] :: ValueMeant(op.comparison, raw, tags, v)
  }

  /** The name is one of the four operator names. */
  ghost predicate Supported(name: string) {
    exists op :: name == OperatorName(op)
  }

  /** The operator that a name stands for. */
  ghost function MeaningOf(name: string): Operator
    requires Supported(name)
  {
    var op :| name == OperatorName(op); op
  }

  /** Names are read as what they stand for, and every other name is refused. */
  lemma ParsedIsMeant(name: string)
    ensures ParseOperator(name).Value? <==> Supported(name)
    ensures Supported(name) ==> ParseOperator(name) == Value(MeaningOf(name))
    ensures !Supported(name) ==> ParseOperator(name) == Threw(UnsupportedOperator(name))
  {
    if ParseOperator(name).Value? {
      ParseOperatorIff(name, ParseOperator(name).value);
    }
    if Supported(name) {
      ParseOperatorIff(name, MeaningOf(name));
    }
  }

  /** An understood condition that holds. */
  ghost predicate KeyHolds(name: string, entry: (string, seq<JsString>), request: Request, tags: Tags) {
    Supported(name) && AllResolvable(entry.1, tags)
      && KeyTrue(MeaningOf(name), entry.0, entry.1, request, tags)
  }

  /** An understood condition that does not hold. */
  ghost predicate KeyFails(name: string, entry: (string, seq<JsString>), request: Request, tags: Tags) {
    Supported(name) && AllResolvable(entry.1, tags)
      && !KeyTrue(MeaningOf(name), entry.0, entry.1, request, tags)
  }

  ghost predicate ConditionsHold(conditions: seq<(string, KeyConditions)>, request: Request, tags: Tags) {
    forall c | c in conditions ::
      Supported(c.0) && forall entry | entry in c.1 :: KeyHolds(c.0, entry, request, tags)
  }

  ghost predicate SomeConditionFails(conditions: seq<(string, KeyConditions)>, request: Request, tags: Tags) {
    exists c | c in conditions :: exists entry | entry in c.1 :: KeyFails(c.0, entry, request, tags)
  }

  ghost predicate ActionNamed(s: Statement, request: Request, fold: CodeUnit -> CodeUnit) {
    exists action | action in s.actions :: GlobMeans(action, request.action, fold)
  }

  ghost predicate ResourceMeant(text: JsString, request: Request, tags: Tags) {
    Resolvable(text, tags) && GlobMeans(Resolved(text, tags), request.resourceArn, Same)
  }

  ghost predicate ResourceNamed(resources: seq<JsString>, request: Request, tags: Tags) {
    exists text | text in resources :: ResourceMeant(text, request, tags)
  }

  /** The statement names the action and the resource, and every condition is understood and true. */
  ghost predicate Applies(s: Statement, request: Request, tags: Tags, fold: CodeUnit -> CodeUnit) {
    ActionNamed(s, request, fold) && ResourceNamed(s.resources, request, tags)
      && ConditionsHold(s.conditions, request, tags)
  }

  /** The statement is out for a reason the evaluator understood. */
  ghost predicate DoesNotApply(s: Statement, request: Request, tags: Tags, fold: CodeUnit -> CodeUnit) {
    || !ActionNamed(s, request, fold)
    || (AllResolvable(s.resources, tags) && !ResourceNamed(s.resources, request, tags))
    || SomeConditionFails(s.conditions, request, tags)
  }

  /** Every tag the statement names is carried, and every operator is supported. */
  ghost predicate Understood(s: Statement, tags: Tags) {
    && AllResolvable(s.resources, tags)
    && forall c | c in s.conditions :: Supported(c.0) && forall entry | entry in c.1 :: AllResolvable(entry.1, tags)
  }

  // ----- Where an evaluation stops with an error -----

  /** Some element is bad, and all elements before it are good. */
  ghost predicate FirstBad<T>(s: seq<T>, bad: T -> bool, good: T -> bool) {
    exists i | 0 <= i < |s| :: bad(s[i]) && forall j | 0 <= j < i :: good(s[j])
  }

  lemma FirstBadLater<T>(s: seq<T>, bad: T -> bool, good: T -> bool)
    requires s != [] && good(s[0]) && FirstBad(s[1..], bad, good)
    ensures FirstBad(s, bad, good)
  {
    var rest := s[1..];
    var i :| 0 <= i < |rest| && bad(rest[i]) && forall j | 0 <= j < i :: good(rest[j]);
    forall j | 0 <= j < i + 1
      ensures good(s[j])
    {
      assert j > 0 ==> s[j] == rest[j - 1];
    }
    assert bad(s[i + 1]);
  }

  lemma FirstBadStep<T>(s: seq<T>, bad: T -> bool, good: T -> bool)
    requires s != []
    ensures FirstBad(s, bad, good) <==> bad(s[0]) || (good(s[0]) && FirstBad(s[1..], bad, good))
  {
    var rest := s[1..];
    if FirstBad(s, bad, good) && !bad(s[0]) {
      var i :| 0 <= i < |s| && bad(s[i]) && forall j | 0 <= j < i :: good(s[j]);
      assert bad(rest[i - 1]) && forall j | 0 <= j < i - 1 :: rest[j] == s[j + 1];
    }
    if good(s[0]) && FirstBad(rest, bad, good) {
      FirstBadLater(s, bad, good);
    }
  }

  /** A resource names a missing tag, and no resource before it matches. */
  ghost predicate ResourcesStuck(resources: seq<JsString>, request: Request, tags: Tags) {
    FirstBad(resources, (x: JsString) => !Resolvable(x, tags),
             (x: JsString) => Resolvable(x, tags) && !ResourceMeant(x, request, tags))
  }

  /** An allowed value names a missing tag, and every condition key before it holds. */
  ghost predicate KeysStuck(name: string, keys: KeyConditions, request: Request, tags: Tags) {
    FirstBad(keys, (entry: (string, seq<JsString>)) => !AllResolvable(entry.1, tags),
             (entry: (string, seq<JsString>)) => KeyHolds(name, entry, request, tags))
  }

  ghost predicate ConditionStuck(c: (string, KeyConditions), request: Request, tags: Tags) {
    !Supported(c.0) || KeysStuck(c.0, c.1, request, tags)
  }

  ghost predicate WholeConditionHolds(c: (string, KeyConditions), request: Request, tags: Tags) {
    Supported(c.0) && forall entry | entry in c.1 :: KeyHolds(c.0, entry, request, tags)
  }

  /** A condition is not understood, and every condition before it holds. */
  ghost predicate ConditionsStuck(conditions: seq<(string, KeyConditions)>, request: Request, tags: Tags) {
    FirstBad(conditions, (c: (string, KeyConditions)) => ConditionStuck(c, request, tags),
             (c: (string, KeyConditions)) => WholeConditionHolds(c, request, tags))
  }

  ghost predicate StatementStuck(s: Statement, request: Request, tags: Tags, fold: CodeUnit -> CodeUnit) {
    && ActionNamed(s, request, fold)
    && (|| ResourcesStuck(s.resources, request, tags)
        || (ResourceNamed(s.resources, request, tags) && ConditionsStuck(s.conditions, request, tags)))
  }

  lemma ResourcesStuckStep(resources: seq<JsString>, request: Request, tags: Tags)
    requires resources != []
    ensures var x := resources[0];
            ResourcesStuck(resources, request, tags) <==>
              || !Resolvable(x, tags)
              || (!ResourceMeant(x, request, tags) && ResourcesStuck(resources[1..], request, tags))
  {
    FirstBadStep(resources, (x: JsString) => !Resolvable(x, tags),
                 (x: JsString) => Resolvable(x, tags) && !ResourceMeant(x, request, tags));
  }

  lemma KeysStuckStep(name: string, keys: KeyConditions, request: Request, tags: Tags)
    requires keys != []
    ensures KeysStuck(name, keys, request, tags) <==>
              || !AllResolvable(keys[0].1, tags)
              || (KeyHolds(name, keys[0], request, tags) && KeysStuck(name, keys[1..], request, tags))
  {
    FirstBadStep(keys, (entry: (string, seq<JsString>)) => !AllResolvable(entry.1, tags),
                 (entry: (string, seq<JsString>)) => KeyHolds(name, entry, request, tags));
  }

  lemma ConditionsStuckStep(conditions: seq<(string, KeyConditions)>, request: Request, tags: Tags)
    requires conditions != []
    ensures var c := conditions[0];
            ConditionsStuck(conditions, request, tags) <==>
              || ConditionStuck(c, request, tags)
              || (WholeConditionHolds(c, request, tags) && ConditionsStuck(conditions[1..], request, tags))
  {
    FirstBadStep(conditions, (c: (string, KeyConditions)) => ConditionStuck(c, request, tags),
                 (c: (string, KeyConditions)) => WholeConditionHolds(c, request, tags));
  }

  // -------------------------------------------------------------------------------------------------------------------
  // The evaluator computes the meaning
  // -------------------------------------------------------------------------------------------------------------------

  lemma {:induction false} SubstituteAllResolves(values: seq<JsString>, tags: Tags)
    ensures SubstituteAll(values, tags).Value? <==> AllResolvable(values, tags)
    ensures SubstituteAll(values, tags).Value? ==>
              |SubstituteAll(values, tags).value| == |values|
              && forall i | 0 <= i < |values| ::
                   Resolvable(values[i], tags) && SubstituteAll(values, tags).value[i] == Resolved(values[i], tags)
  {
    if values == [] {
    } else {
      SubstitutionSucceedsIff(values[0], tags);
      SubstituteAllResolves(values[1..], tags);
      assert values == [values[0]] + values[1..];
      assert AllResolvable(values, tags) <==> Resolvable(values[0], tags) && AllResolvable(values[1..], tags);
    }
  }

  /** One value against the substituted list. */
  lemma ValueMatchesMeans(comparison: Comparison, raw: seq<JsString>, allowed: seq<JsString>, tags: Tags,
                          value: JsString)
    requires AllResolvable(raw, tags) && SubstituteAll(raw, tags) == Value(allowed)
    ensures ValueMatches(comparison, allowed, value) <==> ValueMeant(comparison, raw, tags, value)
  {
    SubstituteAllResolves(raw, tags);
    forall candidate | candidate in allowed
      ensures MatchesGlob(candidate, value, Same) <==> GlobMeans(candidate, value, Same)
    {
      CompilerPreservesMeaning(candidate, value, Same);
    }
    if ValueMatches(comparison, allowed, value) {
      var candidate :| candidate in allowed && (match comparison case StringEquals => candidate == value
                                                case StringLike => MatchesGlob(candidate, value, Same));
      var i :| 0 <= i < |allowed| && allowed[i] == candidate;
      assert raw[i] in raw && Resolved(raw[i], tags) == candidate;
    }
    if ValueMeant(comparison, raw, tags, value) {
      var text :| text in raw && (match comparison case StringEquals => Resolved(text, tags) == value
                                  case StringLike => GlobMeans(Resolved(text, tags), value, Same));
      var i :| 0 <= i < |raw| && raw[i] == text;
      assert allowed[i] in allowed && allowed[i] == Resolved(text, tags);
    }
  }

  /** A condition key is evaluated to its meaning, and throws exactly when a tag is missing. */
  lemma KeyOutcomeMeans(name: string, entry: (string, seq<JsString>), request: Request, tags: Tags)
    requires Supported(name)
    ensures var r := KeyOutcome(MeaningOf(name), entry.0, entry.1, request, tags);
            && (r == Value(true) <==> KeyHolds(name, entry, request, tags))
            && (r == Value(false) <==> KeyFails(name, entry, request, tags))
  {
    var op := MeaningOf(name);
    SubstituteAllResolves(entry.1, tags);
    if AllResolvable(entry.1, tags) && entry.0 in request.contextKeys {
      var allowed := SubstituteAll(entry.1, tags).value;
      forall v | v in request.contextKeys[entry.0]
        ensures ValueMatches(op.comparison, allowed, v) <==> ValueMeant(op.comparison, entry.1, tags, v)
      {
        ValueMatchesMeans(op.comparison, entry.1, allowed, tags, v);
      }
    }
  }

  lemma {:induction false} KeysOutcomeMeans(name: string, keys: KeyConditions, request: Request, tags: Tags)
    requires Supported(name)
    ensures var r := KeysOutcome(MeaningOf(name), keys, request, tags);
            && (r == Value(true) <==> forall entry | entry in keys :: KeyHolds(name, entry, request, tags))
            && (r == Value(false) ==> exists entry | entry in keys :: KeyFails(name, entry, request, tags))
  {
    if keys == [] {
    } else {
      KeyOutcomeMeans(name, keys[0], request, tags);
      KeysOutcomeMeans(name, keys[1..], request, tags);
      assert keys == [keys[0]] + keys[1..];
      assert keys[0] in keys && forall entry | entry in keys[1..] :: entry in keys;
    }
  }

  lemma {:induction false} ConditionsOutcomeMeans(conditions: seq<(string, KeyConditions)>, request: Request,
                                                  tags: Tags)
    ensures var r := ConditionsOutcome(conditions, request, tags);
            && (r == Value(true) <==> ConditionsHold(conditions, request, tags))
            && (r == Value(false) ==> SomeConditionFails(conditions, request, tags))
  {
    if conditions == [] {
    } else {
      var c := conditions[0];
      assert c in conditions && forall d | d in conditions[1..] :: d in conditions;
      assert conditions == [c] + conditions[1..];
      ParsedIsMeant(c.0);
      if Supported(c.0) {
        KeysOutcomeMeans(c.0, c.1, request, tags);
        ConditionsOutcomeMeans(conditions[1..], request, tags);
      }
    }
  }

  /**
    One condition, by the name the policy writes: "StringEquals" asks that some value of the request equals some allowed
    text, "StringLike" that some value is meant by some allowed glob; with "ForAllValues:" in front every value must be,
    and a request without the key satisfies it.
   */
  lemma OneCondition(comparison: Comparison, forAllValues: bool, key: string, raw: seq<JsString>, request: Request,
                     tags: Tags)
    requires AllResolvable(raw, tags)
    ensures var name := (if forAllValues then "ForAllValues:" else "")
                        + (if comparison == StringEquals then "StringEquals" else "StringLike");
            var r := ConditionsOutcome([(name, [(key, raw)])], request, tags);
            r == Value(if key !in request.contextKeys then forAllValues
                       else if forAllValues then
                         forall v | v in request.contextKeys[key] :: ValueMeant(comparison, raw, tags, v)
                       else exists v | v in request.contextKeys[key] :: ValueMeant(comparison, raw, tags, v))
  {
    var op := Operator(forAllValues, comparison);
    var name := OperatorName(op);
    var entry := (key, raw);
    ParseOperatorIff(name, op);
    ParsedIsMeant(name);
    assert ParseOperator(name) == Value(op);
    KeyOutcomeMeans(name, entry, request, tags);
    assert [entry][1..] == [] && [(name, [entry])][1..] == [];
    assert KeysOutcome(op, [entry], request, tags) == KeyOutcome(op, key, raw, request, tags);
  }

  lemma {:induction false} ResourceOutcomeMeans(resources: seq<JsString>, request: Request, tags: Tags)
    ensures var r := ResourceOutcome(resources, request, tags);
            && (r == Value(true) ==> ResourceNamed(resources, request, tags))
            && (r == Value(false) ==> AllResolvable(resources, tags) && !ResourceNamed(resources, request, tags))
  {
    if resources == [] {
    } else {
      var text := resources[0];
      assert text in resources && forall x | x in resources[1..] :: x in resources;
      SubstitutionSucceedsIff(text, tags);
      if Resolvable(text, tags) {
        CompilerPreservesMeaning(Resolved(text, tags), request.resourceArn, Same);
        ResourceOutcomeMeans(resources[1..], request, tags);
        assert resources == [text] + resources[1..];
      }
    }
  }

  lemma ActionOutcomeMeans(s: Statement, request: Request, fold: CodeUnit -> CodeUnit)
    ensures (exists action | action in s.actions :: MatchesGlob(action, request.action, fold))
            <==> ActionNamed(s, request, fold)
  {
    forall action | action in s.actions
      ensures MatchesGlob(action, request.action, fold) <==> GlobMeans(action, request.action, fold)
    {
      CompilerPreservesMeaning(action, request.action, fold);
    }
  }

  lemma {:induction false} KeysThrowIff(name: string, keys: KeyConditions, request: Request, tags: Tags)
    requires Supported(name)
    ensures KeysOutcome(MeaningOf(name), keys, request, tags).Threw? <==> KeysStuck(name, keys, request, tags)
  {
    if keys == [] {
    } else {
      KeysStuckStep(name, keys, request, tags);
      KeyOutcomeMeans(name, keys[0], request, tags);
      KeysThrowIff(name, keys[1..], request, tags);
    }
  }

  lemma {:induction false} ConditionsThrowIff(conditions: seq<(string, KeyConditions)>, request: Request, tags: Tags)
    ensures ConditionsOutcome(conditions, request, tags).Threw? <==> ConditionsStuck(conditions, request, tags)
  {
    if conditions == [] {
    } else {
      var c := conditions[0];
      ConditionsStuckStep(conditions, request, tags);
      ParsedIsMeant(c.0);
      if Supported(c.0) {
        KeysOutcomeMeans(c.0, c.1, request, tags);
        KeysThrowIff(c.0, c.1, request, tags);
        ConditionsThrowIff(conditions[1..], request, tags);
      }
    }
  }

  lemma {:induction false} ResourcesThrowIff(resources: seq<JsString>, request: Request, tags: Tags)
    ensures ResourceOutcome(resources, request, tags).Threw? <==> ResourcesStuck(resources, request, tags)
  {
    if resources == [] {
    } else {
      var text := resources[0];
      ResourcesStuckStep(resources, request, tags);
      SubstitutionSucceedsIff(text, tags);
      if Resolvable(text, tags) {
        CompilerPreservesMeaning(Resolved(text, tags), request.resourceArn, Same);
        ResourcesThrowIff(resources[1..], request, tags);
      }
    }
  }

  /** An error is thrown exactly when the evaluation comes to something it does not understand. */
  lemma StatementThrowsIff(s: Statement, request: Request, tags: Tags, fold: CodeUnit -> CodeUnit)
    ensures StatementOutcome(s, request, tags, fold).Threw? <==> StatementStuck(s, request, tags, fold)
  {
    ActionOutcomeMeans(s, request, fold);
    ResourcesThrowIff(s.resources, request, tags);
    ResourceOutcomeMeans(s.resources, request, tags);
    ConditionsThrowIff(s.conditions, request, tags);
    var resource := ResourceOutcome(s.resources, request, tags);
    if resource.Threw? {
      assert ResourcesStuck(s.resources, request, tags);
    } else if resource.value {
      assert resource == Value(true);
      assert ResourceNamed(s.resources, request, tags) && !ResourcesStuck(s.resources, request, tags);
    } else {
      assert resource == Value(false);
      assert !ResourceNamed(s.resources, request, tags) && !ResourcesStuck(s.resources, request, tags);
    }
  }

  /** A statement that counts as matching applies; one that counts as not matching is out for an understood reason. */
  lemma StatementOutcomeMeans(s: Statement, request: Request, tags: Tags, fold: CodeUnit -> CodeUnit)
    ensures var r := StatementOutcome(s, request, tags, fold);
            && (r == Value(true) ==> Applies(s, request, tags, fold))
            && (r == Value(false) ==> DoesNotApply(s, request, tags, fold))
  {
    ActionOutcomeMeans(s, request, fold);
    ResourceOutcomeMeans(s.resources, request, tags);
    ConditionsOutcomeMeans(s.conditions, request, tags);
  }

  /** A statement cannot both apply and be out. */
  lemma AppliesExcludes(s: Statement, request: Request, tags: Tags, fold: CodeUnit -> CodeUnit)
    ensures !(Applies(s, request, tags, fold) && DoesNotApply(s, request, tags, fold))
  {
  }

  lemma {:induction false} MatchingMeans(statements: seq<Statement>, tags: Tags, request: Request,
                                         fold: CodeUnit -> CodeUnit)
    ensures var r := MatchingStatements(statements, tags, request, fold);
            && (r.Value? ==> forall s :: s in r.value <==> s in statements && Applies(s, request, tags, fold))
            && (r.Value? ==>
                  forall s | s in statements :: Applies(s, request, tags, fold) || DoesNotApply(s, request, tags, fold))
            && (r.Threw? <==> exists s | s in statements :: StatementStuck(s, request, tags, fold))
  {
    if statements == [] {
    } else {
      var first := statements[0];
      assert first in statements && forall s | s in statements[1..] :: s in statements;
      assert statements == [first] + statements[1..];
      StatementOutcomeMeans(first, request, tags, fold);
      StatementThrowsIff(first, request, tags, fold);
      AppliesExcludes(first, request, tags, fold);
      MatchingMeans(statements[1..], tags, request, fold);
    }
  }

  /** Some Allow statement applies and no Deny statement does. */
  ghost predicate Granted(statements: seq<Statement>, tags: Tags, request: Request, fold: CodeUnit -> CodeUnit) {
    && (exists s | s in statements :: s.effect == Allow && Applies(s, request, tags, fold))
    && !(exists s | s in statements :: s.effect == Deny && Applies(s, request, tags, fold))
  }

  /**
    Every answer is right, whatever the policy holds: an answered request is allowed if and only if some Allow statement
    applies with every condition understood and true and no Deny statement applies, and every statement that does not
    apply is out for a reason that was understood.
   */
  lemma AnswersAreRight(statements: seq<Statement>, tags: Tags, request: Request, fold: CodeUnit -> CodeUnit)
    requires PolicyAllows(statements, tags, request, fold).Value?
    ensures PolicyAllows(statements, tags, request, fold).value <==> Granted(statements, tags, request, fold)
    ensures forall s | s in statements ::
              Applies(s, request, tags, fold) <==> !DoesNotApply(s, request, tags, fold)
  {
    MatchingMeans(statements, tags, request, fold);
    forall s | s in statements
      ensures Applies(s, request, tags, fold) <==> !DoesNotApply(s, request, tags, fold)
    {
      AppliesExcludes(s, request, tags, fold);
    }
    var matching := MatchingStatements(statements, tags, request, fold).value;
    if s :| s in statements && s.effect == Deny && Applies(s, request, tags, fold) {
      assert s in matching;
    } else if s :| s in statements && s.effect == Allow && Applies(s, request, tags, fold) {
      assert s in matching;
    }
  }

  /** Exactly when a request is not answered: some statement, wherever it stands, stops the evaluation. */
  lemma PolicyThrowsIff(statements: seq<Statement>, tags: Tags, request: Request, fold: CodeUnit -> CodeUnit)
    ensures PolicyAllows(statements, tags, request, fold).Threw? <==>
              exists s | s in statements :: StatementStuck(s, request, tags, fold)
  {
    MatchingMeans(statements, tags, request, fold);
  }

  lemma UnderstoodIsNotStuck(s: Statement, tags: Tags, request: Request, fold: CodeUnit -> CodeUnit)
    requires Understood(s, tags)
    ensures !StatementStuck(s, request, tags, fold)
  {
    assert forall i | 0 <= i < |s.resources| :: s.resources[i] in s.resources;
    forall i | 0 <= i < |s.conditions|
      ensures !ConditionStuck(s.conditions[i], request, tags)
    {
      var c := s.conditions[i];
      assert c in s.conditions;
      assert forall k | 0 <= k < |c.1| :: c.1[k] in c.1;
    }
  }

  ghost predicate AllUnderstood(statements: seq<Statement>, tags: Tags) {
    forall s | s in statements :: Understood(s, tags)
  }

  /**
    When every named tag is carried and every operator supported, the evaluator answers, and the answer is the meaning.
   */
  lemma UnderstoodPolicyIsAnswered(statements: seq<Statement>, tags: Tags, request: Request, fold: CodeUnit -> CodeUnit)
    requires AllUnderstood(statements, tags)
    ensures PolicyAllows(statements, tags, request, fold).Value?
    ensures PolicyAllows(statements, tags, request, fold).value <==> Granted(statements, tags, request, fold)
  {
    PolicyThrowsIff(statements, tags, request, fold);
    forall s | s in statements
      ensures !StatementStuck(s, request, tags, fold)
    {
      UnderstoodIsNotStuck(s, tags, request, fold);
    }
    AnswersAreRight(statements, tags, request, fold);
  }

  // ----- The algebra of policies -----

  /**
    Whether there is an answer, and which, depends only on the set of statements: not on their order, nor on
    repetitions. Only which of several errors is thrown depends on the order.
   */
  lemma OnlyTheSetMatters(a: seq<Statement>, b: seq<Statement>, tags: Tags, request: Request,
                          fold: CodeUnit -> CodeUnit)
    requires forall s :: s in a <==> s in b
    ensures PolicyAllows(a, tags, request, fold).Threw? <==> PolicyAllows(b, tags, request, fold).Threw?
    ensures PolicyAllows(a, tags, request, fold).Value? ==>
              PolicyAllows(a, tags, request, fold) == PolicyAllows(b, tags, request, fold)
  {
    PolicyThrowsIff(a, tags, request, fold);
    PolicyThrowsIff(b, tags, request, fold);
    if PolicyAllows(a, tags, request, fold).Value? {
      AnswersAreRight(a, tags, request, fold);
      AnswersAreRight(b, tags, request, fold);
    }
  }

  /**
    Adding a statement anywhere keeps the answer unless the statement itself stops the evaluation; then an Allow
    statement never removes an allowed request, and a Deny statement never admits one.
   */
  lemma AddingStatements(a: seq<Statement>, s: Statement, b: seq<Statement>, tags: Tags, request: Request,
                         fold: CodeUnit -> CodeUnit)
    ensures var before := PolicyAllows(a + b, tags, request, fold);
            var after := PolicyAllows(a + [s] + b, tags, request, fold);
            && (after.Value? <==> before.Value? && !StatementStuck(s, request, tags, fold))
            && (after.Value? && s.effect == Allow && before.value ==> after.value)
            && (after.Value? && s.effect == Deny && after.value ==> before.value)
  {
    forall x
      ensures x in a + [s] + b <==> x in a + b || x == s
    {
    }
    PolicyThrowsIff(a + b, tags, request, fold);
    PolicyThrowsIff(a + [s] + b, tags, request, fold);
    if PolicyAllows(a + [s] + b, tags, request, fold).Value? {
      AnswersAreRight(a + b, tags, request, fold);
      AnswersAreRight(a + [s] + b, tags, request, fold);
    }
  }

  // ----- Reading an object -----

  datatype ReadOutcome = Returned | NoSuchKey | AccessDenied

  /** "s3:GetObject" */
  const GET_OBJECT: JsString := [0x73, 0x33, 0x3A, 0x47, 0x65, 0x74, 0x4F, 0x62, 0x6A, 0x65, 0x63, 0x74]

  /** "s3:ListBucket" */
  const LIST_BUCKET: JsString := [0x73, 0x33, 0x3A, 0x4C, 0x69, 0x73, 0x74, 0x42, 0x75, 0x63, 0x6B, 0x65, 0x74]

  lemma ActionNames()
    ensures Spells(GET_OBJECT, "s3:GetObject") && Spells(LIST_BUCKET, "s3:ListBucket") && Spells([0x2F], "/")
  {
  }

  function ObjectReadOutcome(statements: seq<Statement>, tags: Tags, bucketArn: JsString, key: JsString,
                             keyExists: bool, fold: CodeUnit -> CodeUnit): Outcome<ReadOutcome>
  {
    match PolicyAllows(statements, tags, Request(GET_OBJECT, bucketArn + [0x2F] + key, map[]), fold)
    case Threw(e) => Threw(e)
    case Value(mayGet) =>
      if !mayGet then Value(AccessDenied)
      else if keyExists then Value(Returned)
      else
        match PolicyAllows(statements, tags, Request(LIST_BUCKET, bucketArn, map[]), fold)
        case Threw(e) => Threw(e)
        case Value(mayList) => Value(if mayList then NoSuchKey else AccessDenied)
  }

  /**
    What an answered read reveals, whatever the policy holds: an existing object is returned exactly to a caller that
    may get it; a missing key is named as missing exactly to a caller that may get it and list the bucket; so the
    answers for an existing and for a missing key are the same exactly when the caller may not get the object.
   */
  lemma ReadReveals(statements: seq<Statement>, tags: Tags, bucketArn: JsString, key: JsString,
                    fold: CodeUnit -> CodeUnit)
    ensures var get := Request(GET_OBJECT, bucketArn + [0x2F] + key, map[]);
            var listing := Request(LIST_BUCKET, bucketArn, map[]);
            var existing := ObjectReadOutcome(statements, tags, bucketArn, key, true, fold);
            var missing := ObjectReadOutcome(statements, tags, bucketArn, key, false, fold);
            && (existing.Value? ==>
                  existing.value == if Granted(statements, tags, get, fold) then Returned else AccessDenied)
            && (missing.Value? ==>
                  missing.value == if Granted(statements, tags, get, fold) && Granted(statements, tags, listing, fold)
                                   then NoSuchKey else AccessDenied)
            && (existing.Value? && missing.Value? ==> (existing == missing <==> !Granted(statements, tags, get, fold)))
  {
    var get := Request(GET_OBJECT, bucketArn + [0x2F] + key, map[]);
    var listing := Request(LIST_BUCKET, bucketArn, map[]);
    if PolicyAllows(statements, tags, get, fold).Value? {
      AnswersAreRight(statements, tags, get, fold);
    }
    if PolicyAllows(statements, tags, listing, fold).Value? {
      AnswersAreRight(statements, tags, listing, fold);
    }
  }

  /** Adding a Deny statement anywhere changes the answer of a read, if there still is one, only to AccessDenied. */
  lemma DenyOnlyHides(a: seq<Statement>, s: Statement, b: seq<Statement>, tags: Tags, bucketArn: JsString,
                      key: JsString, keyExists: bool, fold: CodeUnit -> CodeUnit)
    requires s.effect == Deny
    ensures var after := ObjectReadOutcome(a + [s] + b, tags, bucketArn, key, keyExists, fold);
            after.Value? ==>
              after == ObjectReadOutcome(a + b, tags, bucketArn, key, keyExists, fold) || after == Value(AccessDenied)
  {
    AddingStatements(a, s, b, tags, Request(GET_OBJECT, bucketArn + [0x2F] + key, map[]), fold);
    AddingStatements(a, s, b, tags, Request(LIST_BUCKET, bucketArn, map[]), fold);
  }

  // ----- Variables in resources -----

  /** The value stands literally between what the two globs mean. */
  ghost predicate Around(p: JsString, value: JsString, q: JsString, arn: JsString) {
    exists a, b :: GlobMeans(p, a, Same) && GlobMeans(q, b, Same) && arn == a + value + b
  }

  lemma PlainMeansItself(value: JsString, x: JsString)
    requires HasNoWildcard(value)
    ensures GlobMeans(value, x, Same) <==> x == value
  {
    PlainGlobMeansItself(value, x, Same);
  }

  lemma MeantIsAround(p: JsString, value: JsString, q: JsString, arn: JsString)
    requires HasNoWildcard(value) && GlobMeans(p + (value + q), arn, Same)
    ensures Around(p, value, q, arn)
  {
    var a, rest := JoinedGlobSplits(p, value + q, arn, Same);
    var literal, b := JoinedGlobSplits(value, q, rest, Same);
    PlainMeansItself(value, literal);
    assert arn == a + value + b;
  }

  lemma AroundIsMeant(p: JsString, value: JsString, q: JsString, a: JsString, b: JsString)
    requires HasNoWildcard(value) && GlobMeans(p, a, Same) && GlobMeans(q, b, Same)
    ensures GlobMeans(p + (value + q), a + value + b, Same)
  {
    PlainMeansItself(value, value);
    SplitsJoined(value, q, value, b, Same);
    SplitsJoined(p, value + q, a, value + b, Same);
    assert a + (value + b) == a + value + b;
  }

  lemma WildcardShows(a: JsString, value: JsString, b: JsString)
    requires !HasNoWildcard(value)
    ensures !HasNoWildcard(a + value + b)
  {
  }

  /** The instance of a glob that holds a wildcard in its middle does not hold that middle. */
  lemma WildcardEscapes(p: JsString, value: JsString, q: JsString)
    requires !HasNoWildcard(value)
    ensures var arn := Instance(p + (value + q)); GlobMeans(p + (value + q), arn, Same) && !Around(p, value, q, arn)
  {
    var arn := Instance(p + (value + q));
    InstanceIsMeant(p + (value + q), Same);
    forall a, b
      ensures arn != a + value + b
    {
      WildcardShows(a, value, b);
    }
  }

  /**
    A tag value is read as a part of the glob. Exactly when a variable in a resource confines it to the literal tag
    value: when the value holds no star and no question mark. Otherwise some ARN is matched in which the value does not
    stand.
   */
  lemma VariableConfinesIff(p: JsString, key: JsString, q: JsString, tags: Tags)
    requires Proper([Plain(p), Variable(key), Plain(q)]) && key in tags
    ensures var text := p + (VariableText(key) + q);
            HasNoWildcard(tags[key]) <==>
              forall arn :: ResourceMeant(text, Request([], arn, map[]), tags) <==> Around(p, tags[key], q, arn)
  {
    var text, value := p + (VariableText(key) + q), tags[key];
    ResolvedAround(p, key, q, tags);
    forall arn
      ensures ResourceMeant(text, Request([], arn, map[]), tags) <==> GlobMeans(p + (value + q), arn, Same)
    {
    }
    if HasNoWildcard(value) {
      forall arn
        ensures ResourceMeant(text, Request([], arn, map[]), tags) <==> Around(p, value, q, arn)
      {
        if GlobMeans(p + (value + q), arn, Same) {
          MeantIsAround(p, value, q, arn);
        }
        if a, b :| GlobMeans(p, a, Same) && GlobMeans(q, b, Same) && arn == a + value + b {
          AroundIsMeant(p, value, q, a, b);
        }
      }
    } else {
      WildcardEscapes(p, value, q);
      var arn := Instance(p + (value + q));
      assert ResourceMeant(text, Request([], arn, map[]), tags) && !Around(p, value, q, arn);
    }
  }

  lemma ResolvedAround(p: JsString, key: JsString, q: JsString, tags: Tags)
    requires Proper([Plain(p), Variable(key), Plain(q)]) && key in tags
    ensures var text := p + (VariableText(key) + q);
            Resolvable(text, tags) && Resolved(text, tags) == p + (tags[key] + q)
  {
    var parts := [Plain(p), Variable(key), Plain(q)];
    var text := p + (VariableText(key) + q);
    assert parts[1..] == [Variable(key), Plain(q)] && parts[1..][1..] == [Plain(q)] && [Plain(q)][1..] == [];
    assert TemplateText([Plain(q)]) == q;
    assert TemplateText(parts) == text;
    SubstitutionFillsTemplate(parts, tags);
    assert Filled([Plain(q)], tags) == q;
    SubstitutionSucceedsIff(text, tags);
  }

  /** A session whose tag value is a star is matched by a variable on its own with every ARN. */
  lemma StarTagMatchesEverything(key: JsString, tags: Tags, request: Request)
    requires key != [] && (forall u | u in key :: IsKeyUnit(u)) && key in tags && tags[key] == [STAR]
    ensures ResourceMeant(VariableText(key), request, tags)
  {
    var text := VariableText(key);
    VariableReadBack(key, []);
    assert text + [] == text;
    assert SubstituteTags(text, tags) == Value([STAR] + []);
    SubstitutionSucceedsIff(text, tags);
    assert Resolved(text, tags) == [STAR];
    var arn := request.resourceArn;
    assert arn[|arn|..] == [] && [STAR][1..] == [];
    assert GlobMeans([STAR][1..], arn[|arn|..], Same);
  }
}
