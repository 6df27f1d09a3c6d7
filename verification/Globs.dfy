/**
  The glob matcher of the policy evaluator. A glob is compiled to the text of a regular expression by three
  replacements, and the regular expression decides. The compilation preserves the meaning of every glob.
 */
module Globs {
  import opened Options
  import opened Utf16

  const STAR: CodeUnit := 0x2A
  const QUESTION: CodeUnit := 0x3F
  const BACKSLASH: CodeUnit := 0x5C
  const CARET: CodeUnit := 0x5E
  const DOLLAR: CodeUnit := 0x24

  /** The characters the compiler escapes: . + ^ $ { } ( ) | [ ] \\ */
  predicate IsEscaped(u: CodeUnit) {
    u in {0x2E, 0x2B, 0x5E, 0x24, 0x7B, 0x7D, 0x28, 0x29, 0x7C, 0x5B, 0x5D, 0x5C}
  }

  /** SyntaxCharacter of section 22.2.1 of ECMA-262. */
  predicate IsSyntaxCharacter(u: CodeUnit) {
    u in {0x5E, 0x24, 0x5C, 0x2E, 0x2A, 0x2B, 0x3F, 0x28, 0x29, 0x5B, 0x5D, 0x7B, 0x7D, 0x7C}
  }

  lemma Constants()
    ensures Spells([STAR, QUESTION, DOT, BACKSLASH, CARET, DOLLAR], "*?.\\^$")
  {
  }

  // ----- The compiler -----

  /** A global replacement of single code units. */
  function ReplaceEach(s: JsString, f: CodeUnit -> JsString): JsString {
    if s == [] then [] else f(s[0]) + ReplaceEach(s[1..], f)
  }

  function Escape(u: CodeUnit): JsString {
    if IsEscaped(u) then [BACKSLASH, u] else [u]
  }

  function StarToAny(u: CodeUnit): JsString {
    if u == STAR then [DOT, STAR] else [u]
  }

  function QuestionToAny(u: CodeUnit): JsString {
    if u == QUESTION then [DOT] else [u]
  }

  function Escaped(glob: JsString): JsString {
    ReplaceEach(ReplaceEach(ReplaceEach(glob, Escape), StarToAny), QuestionToAny)
  }

  /** The regular expression text. */
  function CompileGlob(glob: JsString): JsString {
    [CARET] + (Escaped(glob) + [DOLLAR])
  }

  // ----- Regular expressions: the fragment without groups, classes, alternatives and counted quantifiers -----

  datatype Atom = Any | Literal(u: CodeUnit)

  datatype Term = Start | End | One(atom: Atom) | Many(atom: Atom)

  /** The atom at the front and the number of code units it takes; `None` when the text is outside the fragment. */
  function ParseAtom(t: JsString): (r: Option<(Atom, nat)>)
    ensures r.Some? ==> 1 <= r.value.1 <= |t|
  {
    if t == [] then None
    else if t[0] == DOT then Some((Any, 1))
    else if t[0] == BACKSLASH then
      if |t| >= 2 && IsSyntaxCharacter(t[1]) then Some((Literal(t[1]), 2)) else None
    else if IsSyntaxCharacter(t[0]) then None
    else Some((Literal(t[0]), 1))
  }

  predicate StartsWithUnit(t: JsString, u: CodeUnit) {
    t != [] && t[0] == u
  }

  /** The terms of a regular expression text, read from the left; a greedy `*` binds to the atom before it. */
  function ParseRegex(t: JsString): Option<seq<Term>>
    decreases |t|
  {
    if t == [] then Some([])
    else if t[0] == CARET then Prepend(Start, ParseRegex(t[1..]))
    else if t[0] == DOLLAR then Prepend(End, ParseRegex(t[1..]))
    else
      var atom := ParseAtom(t);
      if atom.None? then None
      else
        var rest := t[atom.value.1..];
        if StartsWithUnit(rest, STAR) then
          if StartsWithUnit(rest[1..], QUESTION) then None
          else Prepend(Many(atom.value.0), ParseRegex(rest[1..]))
        else Prepend(One(atom.value.0), ParseRegex(rest))
  }

  function Prepend(term: Term, rest: Option<seq<Term>>): Option<seq<Term>> {
    if rest.None? then None else Some([term] + rest.value)
  }

  /** With the dot-all flag the dot stands for any code unit; literals are compared after folding. */
  predicate AtomMatches(atom: Atom, u: CodeUnit, fold: CodeUnit -> CodeUnit) {
    match atom
    case Any => true
    case Literal(l) => fold(l) == fold(u)
  }

  /** The terms match the value from `i` on, in some way of repeating the starred atoms. */
  predicate MatchesFrom(terms: seq<Term>, value: JsString, i: nat, fold: CodeUnit -> CodeUnit)
    requires i <= |value|
    decreases |terms|, |value| - i
  {
    if terms == [] then true
    else
      var rest := terms[1..];
      match terms[0]
      case Start => i == 0 && MatchesFrom(rest, value, i, fold)
      case End => i == |value| && MatchesFrom(rest, value, i, fold)
      case One(atom) => i < |value| && AtomMatches(atom, value[i], fold) && MatchesFrom(rest, value, i + 1, fold)
      case Many(atom) =>
        || MatchesFrom(rest, value, i, fold)
        || (i < |value| && AtomMatches(atom, value[i], fold) && MatchesFrom(terms, value, i + 1, fold))
  }

  /** `test`: the terms match from some place on. */
  predicate RegexTest(terms: seq<Term>, value: JsString, fold: CodeUnit -> CodeUnit) {
    exists i | 0 <= i <= |value| :: MatchesFrom(terms, value, i, fold)
  }

  /**
    The evaluator's matcher. `fold` is the identity, or the case folding of the regular expression flag for ignoring
    case.
   */
  predicate MatchesGlob(glob: JsString, value: JsString, fold: CodeUnit -> CodeUnit) {
    var terms := ParseRegex(CompileGlob(glob));
    terms.Some? && RegexTest(terms.value, value, fold)
  }

  // ----- What a glob means -----

  /** `*` stands for any text, `?` for one code unit, everything else for itself. */
  predicate GlobMeans(glob: JsString, value: JsString, fold: CodeUnit -> CodeUnit)
    decreases |glob|
  {
    if glob == [] then value == []
    else if glob[0] == STAR then exists k | 0 <= k <= |value| :: GlobMeans(glob[1..], value[k..], fold)
    else if glob[0] == QUESTION then value != [] && GlobMeans(glob[1..], value[1..], fold)
    else value != [] && fold(glob[0]) == fold(value[0]) && GlobMeans(glob[1..], value[1..], fold)
  }

  // ----- The three passes in one -----

  /** The regular expression text of one glob character. */
  function CompileUnit(u: CodeUnit): JsString {
    if u == STAR then [DOT, STAR]
    else if u == QUESTION then [DOT]
    else if IsEscaped(u) then [BACKSLASH, u]
    else [u]
  }

  lemma {:induction false} ReplaceEachConcat(a: JsString, b: JsString, f: CodeUnit -> JsString)
    ensures ReplaceEach(a + b, f) == ReplaceEach(a, f) + ReplaceEach(b, f)
  {
    if a == [] {
      assert a + b == b;
    } else {
      assert (a + b)[1..] == a[1..] + b;
      ReplaceEachConcat(a[1..], b, f);
    }
  }

  lemma ReplaceOne(u: CodeUnit, f: CodeUnit -> JsString)
    ensures ReplaceEach([u], f) == f(u)
  {
    assert [u][1..] == [];
    assert f(u) + [] == f(u);
  }

  lemma ReplaceTwo(u: CodeUnit, v: CodeUnit, f: CodeUnit -> JsString)
    ensures ReplaceEach([u, v], f) == f(u) + f(v)
  {
    assert [u, v] == [u] + [v];
    ReplaceEachConcat([u], [v], f);
    ReplaceOne(u, f);
    ReplaceOne(v, f);
  }

  /** Each pass leaves what the passes before it wrote. */
  lemma EscapedUnit(u: CodeUnit)
    ensures ReplaceEach(ReplaceEach(Escape(u), StarToAny), QuestionToAny) == CompileUnit(u)
  {
    if IsEscaped(u) {
      ReplaceTwo(BACKSLASH, u, StarToAny);
      ReplaceTwo(BACKSLASH, u, QuestionToAny);
    } else {
      ReplaceOne(u, StarToAny);
      ReplaceOne(u, QuestionToAny);
      ReplaceTwo(DOT, STAR, QuestionToAny);
    }
  }

  lemma EscapedStep(glob: JsString)
    requires glob != []
    ensures Escaped(glob) == CompileUnit(glob[0]) + Escaped(glob[1..])
  {
    var rest := ReplaceEach(glob[1..], Escape);
    ReplaceEachConcat(Escape(glob[0]), rest, StarToAny);
    ReplaceEachConcat(ReplaceEach(Escape(glob[0]), StarToAny), ReplaceEach(rest, StarToAny), QuestionToAny);
    EscapedUnit(glob[0]);
  }

  // ----- The compiled text parses to the intended terms -----

  function TermOf(u: CodeUnit): Term {
    if u == STAR then Many(Any) else if u == QUESTION then One(Any) else One(Literal(u))
  }

  function TermsOf(glob: JsString): seq<Term> {
    if glob == [] then [End] else [TermOf(glob[0])] + TermsOf(glob[1..])
  }

  /** No compiled text starts with a quantifier, so nothing is repeated by accident. */
  lemma TailStart(glob: JsString)
    ensures var tail := Escaped(glob) + [DOLLAR]; !StartsWithUnit(tail, STAR) && !StartsWithUnit(tail, QUESTION)
  {
    if glob != [] {
      EscapedStep(glob);
    }
  }

  lemma ParseUnit(u: CodeUnit, tail: JsString)
    requires !StartsWithUnit(tail, STAR) && !StartsWithUnit(tail, QUESTION)
    ensures ParseRegex(CompileUnit(u) + tail) == Prepend(TermOf(u), ParseRegex(tail))
  {
    var t := CompileUnit(u) + tail;
    var atom := ParseAtom(t);
    assert atom.Some?;
    var rest := t[atom.value.1..];
    if u == STAR {
      assert rest[1..] == tail;
    } else {
      assert rest == tail;
    }
  }

  lemma {:induction false} ParseTail(glob: JsString)
    ensures ParseRegex(Escaped(glob) + [DOLLAR]) == Some(TermsOf(glob))
  {
    if glob == [] {
      var t: JsString := [DOLLAR];
      assert Escaped(glob) + [DOLLAR] == t;
      assert t[1..] == [] && ParseRegex(t[1..]) == Some([]);
      assert [End] + [] == [End];
    } else {
      ParseTail(glob[1..]);
      EscapedStep(glob);
      TailStart(glob[1..]);
      var tail := Escaped(glob[1..]) + [DOLLAR];
      assert Escaped(glob) + [DOLLAR] == CompileUnit(glob[0]) + tail;
      ParseUnit(glob[0], tail);
    }
  }

  /** The compiled text is a well-formed expression of the fragment: both anchors around one term per glob character. */
  lemma CompiledGlobParses(glob: JsString)
    ensures ParseRegex(CompileGlob(glob)) == Some([Start] + TermsOf(glob))
  {
    ParseTail(glob);
    assert CompileGlob(glob)[1..] == Escaped(glob) + [DOLLAR];
  }

  // ----- The terms mean the glob -----

  /** The terms match the value from `i` or some later place on. */
  ghost predicate MatchesLater(terms: seq<Term>, value: JsString, i: nat, fold: CodeUnit -> CodeUnit) {
    exists k: nat | i <= k <= |value| :: MatchesFrom(terms, value, k, fold)
  }

  /** A starred dot skips to some later place. */
  lemma {:induction false} ManyAnySkips(rest: seq<Term>, value: JsString, i: nat, fold: CodeUnit -> CodeUnit)
    requires i <= |value|
    ensures MatchesFrom([Many(Any)] + rest, value, i, fold) <==> MatchesLater(rest, value, i, fold)
    decreases |value| - i
  {
    var terms := [Many(Any)] + rest;
    assert terms[1..] == rest && terms[0] == Many(Any);
    assert MatchesFrom(terms, value, i, fold) <==>
             MatchesFrom(rest, value, i, fold) || (i < |value| && MatchesFrom(terms, value, i + 1, fold));
    if i < |value| {
      ManyAnySkips(rest, value, i + 1, fold);
      LaterStep(rest, value, i, fold);
    }
  }

  lemma LaterStep(terms: seq<Term>, value: JsString, i: nat, fold: CodeUnit -> CodeUnit)
    requires i < |value|
    ensures MatchesLater(terms, value, i, fold) <==>
              MatchesFrom(terms, value, i, fold) || MatchesLater(terms, value, i + 1, fold)
  {
    if MatchesLater(terms, value, i, fold) && !MatchesFrom(terms, value, i, fold) {
      var k: nat :| i <= k <= |value| && MatchesFrom(terms, value, k, fold);
      assert k != i;
    }
  }

  lemma {:induction false} TermsMeanGlob(glob: JsString, value: JsString, i: nat, fold: CodeUnit -> CodeUnit)
    requires i <= |value|
    ensures MatchesFrom(TermsOf(glob), value, i, fold) <==> GlobMeans(glob, value[i..], fold)
    decreases |glob|
  {
    if glob == [] {
    } else {
      var rest := TermsOf(glob[1..]);
      assert TermsOf(glob)[1..] == rest;
      if glob[0] == STAR {
        forall k: nat | i <= k <= |value|
          ensures MatchesFrom(rest, value, k, fold) <==> GlobMeans(glob[1..], value[k..], fold)
        {
          TermsMeanGlob(glob[1..], value, k, fold);
        }
        ManyAnySkips(rest, value, i, fold);
        LaterMeansLater(rest, glob[1..], value, i, fold);
        StarShift(glob, value, i, fold);
      } else if i < |value| {
        TermsMeanGlob(glob[1..], value, i + 1, fold);
        assert value[i..][1..] == value[i + 1..];
      }
    }
  }

  lemma LaterMeansLater(terms: seq<Term>, glob: JsString, value: JsString, i: nat, fold: CodeUnit -> CodeUnit)
    requires forall k: nat | i <= k <= |value| ::
               MatchesFrom(terms, value, k, fold) <==> GlobMeans(glob, value[k..], fold)
    ensures MatchesLater(terms, value, i, fold) <==> MeansLater(glob, value, i, fold)
  {
    if MatchesLater(terms, value, i, fold) {
      var k: nat :| i <= k <= |value| && MatchesFrom(terms, value, k, fold);
      assert GlobMeans(glob, value[k..], fold);
    }
    if MeansLater(glob, value, i, fold) {
      var k: nat :| i <= k <= |value| && GlobMeans(glob, value[k..], fold);
      assert MatchesFrom(terms, value, k, fold);
    }
  }

  /** The glob means the rest of the value from `i` or some later place on. */
  ghost predicate MeansLater(glob: JsString, value: JsString, i: nat, fold: CodeUnit -> CodeUnit) {
    exists k: nat | i <= k <= |value| :: GlobMeans(glob, value[k..], fold)
  }

  lemma StarShift(glob: JsString, value: JsString, i: nat, fold: CodeUnit -> CodeUnit)
    requires glob != [] && glob[0] == STAR && i <= |value|
    ensures GlobMeans(glob, value[i..], fold) <==> MeansLater(glob[1..], value, i, fold)
  {
    var suffix := value[i..];
    if GlobMeans(glob, suffix, fold) {
      var k :| 0 <= k <= |suffix| && GlobMeans(glob[1..], suffix[k..], fold);
      assert suffix[k..] == value[i + k..];
    }
    if MeansLater(glob[1..], value, i, fold) {
      var k: nat :| i <= k <= |value| && GlobMeans(glob[1..], value[k..], fold);
      assert suffix[k - i..] == value[k..];
      assert GlobMeans(glob[1..], suffix[k - i..], fold);
    }
  }

  /**
    The glob compiler preserves meaning: for every glob and value, the compiled regular expression decides as the glob
    means.
   */
  lemma CompilerPreservesMeaning(glob: JsString, value: JsString, fold: CodeUnit -> CodeUnit)
    ensures MatchesGlob(glob, value, fold) <==> GlobMeans(glob, value, fold)
  {
    CompiledGlobParses(glob);
    var terms := [Start] + TermsOf(glob);
    assert terms[1..] == TermsOf(glob);
    TermsMeanGlob(glob, value, 0, fold);
    assert value[0..] == value;
    assert MatchesFrom(terms, value, 0, fold) <==> GlobMeans(glob, value, fold);
  }

  /** A glob without wildcards stands for itself and nothing else, whatever regular expression syntax it holds. */
  lemma {:induction false} PlainGlobMeansItself(glob: JsString, value: JsString, fold: CodeUnit -> CodeUnit)
    requires STAR !in glob && QUESTION !in glob
    ensures GlobMeans(glob, value, fold) <==>
              |value| == |glob| && forall i | 0 <= i < |glob| :: fold(glob[i]) == fold(value[i])
  {
    if glob == [] || value == [] {
    } else {
      PlainGlobMeansItself(glob[1..], value[1..], fold);
      assert forall i | 0 < i < |glob| :: glob[i] == glob[1..][i - 1];
      assert forall i | 0 < i < |value| :: value[i] == value[1..][i - 1];
    }
  }

  // ----- Globs put together -----

  /** What one character of a glob stands for. */
  predicate UnitMeans(u: CodeUnit, head: JsString, fold: CodeUnit -> CodeUnit) {
    u == STAR || (|head| == 1 && (u == QUESTION || fold(u) == fold(head[0])))
  }

  /** A glob stands for what its first character stands for, followed by what the rest means. */
  lemma GlobTakes(glob: JsString, value: JsString, fold: CodeUnit -> CodeUnit) returns (m: nat)
    requires glob != [] && GlobMeans(glob, value, fold)
    ensures m <= |value| && UnitMeans(glob[0], value[..m], fold) && GlobMeans(glob[1..], value[m..], fold)
  {
    if glob[0] == STAR {
      m :| m <= |value| && GlobMeans(glob[1..], value[m..], fold);
    } else {
      m := 1;
    }
  }

  lemma GlobHead(glob: JsString, head: JsString, tail: JsString, fold: CodeUnit -> CodeUnit)
    requires glob != [] && UnitMeans(glob[0], head, fold) && GlobMeans(glob[1..], tail, fold)
    ensures GlobMeans(glob, head + tail, fold)
  {
    var value := head + tail;
    assert value[|head|..] == tail;
  }

  lemma JoinedGlobTakes(p: JsString, q: JsString, value: JsString, fold: CodeUnit -> CodeUnit) returns (m: nat)
    requires p != [] && GlobMeans(p + q, value, fold)
    ensures m <= |value| && UnitMeans(p[0], value[..m], fold) && GlobMeans(p[1..] + q, value[m..], fold)
  {
    m := GlobTakes(p + q, value, fold);
    assert (p + q)[1..] == p[1..] + q;
  }

  /** Two globs one after the other mean what splits into a part for each. */
  lemma {:induction false} JoinedGlobSplits(p: JsString, q: JsString, value: JsString, fold: CodeUnit -> CodeUnit)
      returns (a: JsString, b: JsString)
    requires GlobMeans(p + q, value, fold)
    ensures value == a + b && GlobMeans(p, a, fold) && GlobMeans(q, b, fold)
    decreases |p|
  {
    if p == [] {
      a, b := [], value;
      assert p + q == q;
    } else {
      var m := JoinedGlobTakes(p, q, value, fold);
      a, b := JoinedGlobSplits(p[1..], q, value[m..], fold);
      GlobHead(p, value[..m], a, fold);
      a := value[..m] + a;
    }
  }

  /** And the other way round. */
  lemma {:induction false} SplitsJoined(p: JsString, q: JsString, a: JsString, b: JsString, fold: CodeUnit -> CodeUnit)
    requires GlobMeans(p, a, fold) && GlobMeans(q, b, fold)
    ensures GlobMeans(p + q, a + b, fold)
    decreases |p|
  {
    if p == [] {
      assert p + q == q && a + b == b;
    } else {
      var m := GlobTakes(p, a, fold);
      SplitsJoined(p[1..], q, a[m..], b, fold);
      assert (p + q)[1..] == p[1..] + q;
      GlobHead(p + q, a[..m], a[m..] + b, fold);
      assert a[..m] + (a[m..] + b) == a + b;
    }
  }

  predicate HasNoWildcard(text: JsString) {
    STAR !in text && QUESTION !in text
  }

  /**
    A value of the glob in which no wildcard character stands: every star stands for nothing, every question mark for
    "a".
   */
  function Instance(glob: JsString): JsString {
    if glob == [] then []
    else (if glob[0] == STAR then [] else if glob[0] == QUESTION then [0x61] else [glob[0]]) + Instance(glob[1..])
  }

  lemma {:induction false} InstanceIsMeant(glob: JsString, fold: CodeUnit -> CodeUnit)
    ensures GlobMeans(glob, Instance(glob), fold) && HasNoWildcard(Instance(glob))
  {
    if glob == [] {
    } else {
      InstanceIsMeant(glob[1..], fold);
      var head := if glob[0] == STAR then [] else if glob[0] == QUESTION then [0x61] else [glob[0]];
      GlobHead(glob, head, Instance(glob[1..]), fold);
    }
  }
}
