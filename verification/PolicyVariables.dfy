/**
  Policy variables: `${aws:PrincipalTag/key}` in the text of a policy is replaced by the value of the session tag `key`.
 */
module PolicyVariables {
  import opened Options
  import opened Utf16

  /** "${aws:PrincipalTag/" */
  const VARIABLE_START: JsString :=
    [0x24, 0x7B, 0x61, 0x77, 0x73, 0x3A, 0x50, 0x72, 0x69, 0x6E, 0x63, 0x69, 0x70, 0x61, 0x6C, 0x54, 0x61, 0x67, 0x2F]

  const CLOSING_BRACE: CodeUnit := 0x7D

  type Tags = map<JsString, JsString>

  datatype EvaluationError = MissingTag(key: JsString) | UnsupportedOperator(name: string)

  /** A value, or the error that ends the evaluation. */
  datatype Outcome<+T> = Value(value: T) | Threw(error: EvaluationError)

  /** The characters a tag key may hold: letters, digits and _ . : / = + @ - */
  predicate IsKeyUnit(u: CodeUnit) {
    0x41 <= u <= 0x5A || 0x61 <= u <= 0x7A || 0x30 <= u <= 0x39 || u in {0x5F, 0x2E, 0x3A, 0x2F, 0x3D, 0x2B, 0x40, 0x2D}
  }

  lemma Constants()
    ensures Spells(VARIABLE_START, "${aws:PrincipalTag/") && Spells([CLOSING_BRACE], "}")
  {
  }

  /** Which characters a tag key may hold. */
  lemma KeyUnits(u: CodeUnit, c: char)
    requires c as int == u as int
    ensures IsKeyUnit(u) <==>
              || 'A' <= c <= 'Z' || 'a' <= c <= 'z' || '0' <= c <= '9'
              || c in {'_', '.', ':', '/', '=', '+', '@', '-'}
  {
  }

  lemma KeyUnitsAreCharacters(u: CodeUnit)
    requires IsKeyUnit(u)
    ensures u < 0x80
  {
  }

  function KeyLength(t: JsString): (n: nat)
    ensures n <= |t| && (forall i | 0 <= i < n :: IsKeyUnit(t[i])) && (n < |t| ==> !IsKeyUnit(t[n]))
  {
    if t == [] || !IsKeyUnit(t[0]) then 0 else 1 + KeyLength(t[1..])
  }

  /** The key of the variable that the text starts with, if it starts with one. */
  function VariableAt(t: JsString): (r: Option<JsString>)
    ensures r.Some? ==> r.value != [] && |VARIABLE_START| + |r.value| + 1 <= |t|
  {
    if |t| >= |VARIABLE_START| && t[..|VARIABLE_START|] == VARIABLE_START then
      var rest := t[|VARIABLE_START|..];
      var n := KeyLength(rest);
      if 0 < n < |rest| && rest[n] == CLOSING_BRACE then Some(rest[..n]) else None
    else None
  }

  function VariableText(key: JsString): JsString {
    VARIABLE_START + key + [CLOSING_BRACE]
  }

  /** The text after the variable it starts with. */
  function AfterVariable(t: JsString, key: JsString): JsString
    requires VariableAt(t) == Some(key)
  {
    t[|VARIABLE_START| + |key| + 1..]
  }

  function SubstituteTags(t: JsString, tags: Tags): Outcome<JsString>
    decreases |t|
  {
    if t == [] then Value([])
    else
      match VariableAt(t)
      case Some(key) =>
        if key !in tags then Threw(MissingTag(key))
        else
          var rest := SubstituteTags(AfterVariable(t, key), tags);
          if rest.Threw? then rest else Value(tags[key] + rest.value)
      case None =>
        var rest := SubstituteTags(t[1..], tags);
        if rest.Threw? then rest else Value([t[0]] + rest.value)
  }

  /** The tag keys that a text names. */
  function NamedTags(t: JsString): set<JsString>
    decreases |t|
  {
    if t == [] then {}
    else
      match VariableAt(t)
      case Some(key) => {key} + NamedTags(AfterVariable(t, key))
      case None => NamedTags(t[1..])
  }

  /** The substitution succeeds exactly when the session carries every tag the text names. */
  lemma {:induction false} SubstitutionSucceedsIff(t: JsString, tags: Tags)
    ensures SubstituteTags(t, tags).Value? <==> NamedTags(t) <= tags.Keys
    ensures SubstituteTags(t, tags).Threw? ==>
              SubstituteTags(t, tags).error.MissingTag? && SubstituteTags(t, tags).error.key in NamedTags(t) - tags.Keys
    decreases |t|
  {
    if t == [] {
    } else {
      match VariableAt(t)
      case Some(key) => SubstitutionSucceedsIff(AfterVariable(t, key), tags);
      case None => SubstitutionSucceedsIff(t[1..], tags);
    }
  }

  // ----- A variable is read back wherever it is written -----

  lemma {:induction false} KeyLengthOf(key: JsString, rest: JsString)
    requires (forall u | u in key :: IsKeyUnit(u)) && (rest == [] || !IsKeyUnit(rest[0]))
    ensures KeyLength(key + rest) == |key|
  {
    if key != [] {
      assert (key + rest)[1..] == key[1..] + rest;
      KeyLengthOf(key[1..], rest);
    } else {
      assert key + rest == rest;
    }
  }

  lemma VariableReadBack(key: JsString, rest: JsString)
    requires key != [] && forall u | u in key :: IsKeyUnit(u)
    ensures VariableAt(VariableText(key) + rest) == Some(key)
    ensures AfterVariable(VariableText(key) + rest, key) == rest
  {
    var t := VariableText(key) + rest;
    assert t[..|VARIABLE_START|] == VARIABLE_START;
    assert t[|VARIABLE_START|..] == key + ([CLOSING_BRACE] + rest);
    KeyLengthOf(key, [CLOSING_BRACE] + rest);
  }

  /** A policy text as alternating plain parts and variables. */
  datatype Part = Plain(text: JsString) | Variable(key: JsString)

  function PartText(part: Part): JsString {
    match part case Plain(text) => text case Variable(key) => VariableText(key)
  }

  function TemplateText(parts: seq<Part>): JsString {
    if parts == [] then [] else PartText(parts[0]) + TemplateText(parts[1..])
  }

  /** Every variable of the parts is carried. */
  predicate Carried(parts: seq<Part>, tags: Tags) {
    forall p | p in parts :: p.Variable? ==> p.key in tags
  }

  function Filled(parts: seq<Part>, tags: Tags): JsString
    requires Carried(parts, tags)
  {
    if parts == [] then []
    else (match parts[0] case Plain(text) => text case Variable(key) => tags[key]) + Filled(parts[1..], tags)
  }

  /** No variable starts in the text when `rest` follows it. A dollar sign may. */
  ghost predicate NoVariableIn(text: JsString, rest: JsString) {
    forall k | 0 <= k < |text| :: VariableAt(text[k..] + rest) == None
  }

  /** The parts are the variables of their text and what stands between them. */
  ghost predicate Proper(parts: seq<Part>) {
    parts == [] ||
    (&& Proper(parts[1..])
     && match parts[0]
        case Plain(text) => NoVariableIn(text, TemplateText(parts[1..]))
        case Variable(key) => key != [] && forall u | u in key :: IsKeyUnit(u))
  }

  lemma SubstituteUnit(t: JsString, rest: JsString, filled: JsString, tags: Tags)
    requires t != [] && VariableAt(t) == None && rest == t[1..] && SubstituteTags(rest, tags) == Value(filled)
    ensures SubstituteTags(t, tags) == Value([t[0]] + filled)
  {
  }

  lemma {:induction false} SubstitutePlain(text: JsString, rest: JsString, tags: Tags)
    requires NoVariableIn(text, rest) && SubstituteTags(rest, tags).Value?
    ensures SubstituteTags(text + rest, tags) == Value(text + SubstituteTags(rest, tags).value)
  {
    var filled := SubstituteTags(rest, tags).value;
    if text == [] {
      assert text + rest == rest && text + filled == filled;
    } else {
      var tail := text[1..];
      assert text[0..] + rest == text + rest;
      assert forall k | 0 <= k < |tail| :: tail[k..] == text[k + 1..];
      SubstitutePlain(tail, rest, tags);
      SubstituteUnit(text + rest, tail + rest, tail + filled, tags);
      assert [text[0]] + (tail + filled) == text + filled;
    }
  }

  /**
    What a substitution means: in a text made of plain parts and variables, every variable is replaced by its tag value
    and the plain parts are kept. A tag value is not read again: a value that itself looks like a variable stays as it
    is.
   */
  lemma {:induction false} SubstitutionFillsTemplate(parts: seq<Part>, tags: Tags)
    requires Proper(parts) && Carried(parts, tags)
    ensures SubstituteTags(TemplateText(parts), tags) == Value(Filled(parts, tags))
  {
    if parts == [] {
    } else {
      assert parts[0] in parts && forall p | p in parts[1..] :: p in parts;
      SubstitutionFillsTemplate(parts[1..], tags);
      var rest := TemplateText(parts[1..]);
      match parts[0]
      case Plain(text) => SubstitutePlain(text, rest, tags);
      case Variable(key) => VariableReadBack(key, rest);
    }
  }

  /** The parts of any text. */
  function PartsOf(t: JsString): seq<Part>
    decreases |t|
  {
    if t == [] then []
    else
      match VariableAt(t)
      case Some(key) => [Variable(key)] + PartsOf(AfterVariable(t, key))
      case None => [Plain(t[..1])] + PartsOf(t[1..])
  }

  lemma VariableIsWritten(t: JsString, key: JsString)
    requires VariableAt(t) == Some(key)
    ensures key != [] && (forall u | u in key :: IsKeyUnit(u)) && t == VariableText(key) + AfterVariable(t, key)
  {
    var rest := t[|VARIABLE_START|..];
    assert t == VARIABLE_START + rest;
    assert rest == key + [CLOSING_BRACE] + AfterVariable(t, key);
  }

  /** Every text is made of such parts, and its variables are the tags it names. */
  lemma {:induction false} PartsOfText(t: JsString)
    ensures Proper(PartsOf(t)) && TemplateText(PartsOf(t)) == t
    ensures forall p | p in PartsOf(t) :: p.Variable? ==> p.key in NamedTags(t)
    decreases |t|
  {
    if t == [] {
    } else {
      var parts := PartsOf(t);
      match VariableAt(t)
      case Some(key) =>
        PartsOfText(AfterVariable(t, key));
        VariableIsWritten(t, key);
        assert parts[1..] == PartsOf(AfterVariable(t, key));
      case None =>
        PartsOfText(t[1..]);
        assert parts[1..] == PartsOf(t[1..]);
        assert t[..1][0..] + t[1..] == t;
    }
  }

  /** The substitution of every text whose tags are carried. */
  lemma SubstitutionMeans(t: JsString, tags: Tags)
    requires NamedTags(t) <= tags.Keys
    ensures Carried(PartsOf(t), tags) && SubstituteTags(t, tags) == Value(Filled(PartsOf(t), tags))
  {
    PartsOfText(t);
    SubstitutionFillsTemplate(PartsOf(t), tags);
  }
}
