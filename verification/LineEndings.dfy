/**
  Line endings of a file's text: which style a text has, its form with plain line feeds, and the way back.
 */
module LineEndings {
  import opened Utf16
  import opened Substrings

  lemma Constants()
    ensures Spells([LF], "\n") && Spells([CR], "\r")
  {
  }

  datatype LineEnding = Lf | CrLf

  function DetectLineEnding(content: JsString): LineEnding {
    var lineFeed := IndexOf(content, [LF]);
    if lineFeed == -1 then Lf
    else
      var carriageReturnLineFeed := IndexOf(content, [CR, LF]);
      if carriageReturnLineFeed != -1 && carriageReturnLineFeed < lineFeed then CrLf else Lf
  }

  predicate StartsCrLf(s: JsString) {
    |s| >= 2 && s[0] == CR && s[1] == LF
  }

  /** Every CR LF replaced by LF. */
  function ReplaceCrLf(s: JsString): JsString {
    if s == [] then []
    else if StartsCrLf(s) then [LF] + ReplaceCrLf(s[2..])
    else [s[0]] + ReplaceCrLf(s[1..])
  }

  /** Every CR replaced by LF. */
  function ReplaceCr(s: JsString): JsString {
    if s == [] then [] else [if s[0] == CR then LF else s[0]] + ReplaceCr(s[1..])
  }

  function NormalizeToLineFeed(text: JsString): JsString {
    ReplaceCr(ReplaceCrLf(text))
  }

  /** Every LF replaced by CR LF. */
  function ToCrLf(s: JsString): JsString {
    if s == [] then [] else (if s[0] == LF then [CR, LF] else [s[0]]) + ToCrLf(s[1..])
  }

  /** The text in a given style. */
  function Restore(s: JsString, ending: LineEnding): JsString {
    match ending case Lf => s case CrLf => ToCrLf(s)
  }

  ghost predicate CrFree(s: JsString) {
    CR !in s
  }

  /** A line feed follows a carriage return, and a carriage return precedes a line feed. */
  ghost predicate Paired(s: JsString, i: int)
    requires 0 <= i < |s|
  {
    (s[i] == LF ==> i > 0 && s[i - 1] == CR) && (s[i] == CR ==> i + 1 < |s| && s[i + 1] == LF)
  }

  /** All line endings are CR LF, and no carriage return stands alone. */
  ghost predicate OnlyCrLf(s: JsString) {
    forall i | 0 <= i < |s| :: Paired(s, i)
  }

  /** The text has one line ending style: plain line feeds only, or CR LF only. */
  ghost predicate Uniform(s: JsString) {
    CrFree(s) || OnlyCrLf(s)
  }

  /** The two replacements in one pass. */
  lemma NormalizeStep(s: JsString)
    requires s != []
    ensures NormalizeToLineFeed(s) ==
              (if StartsCrLf(s) then [LF] + NormalizeToLineFeed(s[2..])
               else [if s[0] == CR then LF else s[0]] + NormalizeToLineFeed(s[1..]))
  {
    assert ReplaceCrLf(s)[1..] == if StartsCrLf(s) then ReplaceCrLf(s[2..]) else ReplaceCrLf(s[1..]);
  }

  lemma {:induction false} NormalizedIsCrFree(s: JsString)
    ensures CrFree(NormalizeToLineFeed(s))
    decreases |s|
  {
    if s == [] {
    } else {
      NormalizeStep(s);
      if StartsCrLf(s) {
        NormalizedIsCrFree(s[2..]);
      } else {
        NormalizedIsCrFree(s[1..]);
      }
    }
  }

  lemma {:induction false} NormalizeKeepsCrFree(s: JsString)
    requires CrFree(s)
    ensures NormalizeToLineFeed(s) == s
  {
    if s == [] {
    } else {
      NormalizeStep(s);
      NormalizeKeepsCrFree(s[1..]);
    }
  }

  /** Writing CR LF and normalising undo each other. */
  lemma {:induction false} NormalizeToCrLf(s: JsString)
    requires CrFree(s)
    ensures NormalizeToLineFeed(ToCrLf(s)) == s
  {
    if s == [] {
    } else {
      var t := ToCrLf(s);
      NormalizeStep(t);
      NormalizeToCrLf(s[1..]);
      if s[0] == LF {
        assert t[2..] == ToCrLf(s[1..]);
      } else {
        assert t[1..] == ToCrLf(s[1..]);
      }
    }
  }

  lemma NormalizeRestored(s: JsString, ending: LineEnding)
    requires CrFree(s)
    ensures NormalizeToLineFeed(Restore(s, ending)) == s
  {
    if ending == Lf {
      NormalizeKeepsCrFree(s);
    } else {
      NormalizeToCrLf(s);
    }
  }

  lemma {:induction false} ToCrLfConcat(a: JsString, b: JsString)
    ensures ToCrLf(a + b) == ToCrLf(a) + ToCrLf(b)
  {
    if a == [] {
      assert a + b == b;
    } else {
      assert (a + b)[1..] == a[1..] + b;
      ToCrLfConcat(a[1..], b);
    }
  }

  lemma RestoreConcat(a: JsString, b: JsString, ending: LineEnding)
    ensures Restore(a + b, ending) == Restore(a, ending) + Restore(b, ending)
  {
    ToCrLfConcat(a, b);
  }

  /** Writing CR LF gives a text with CR LF only. */
  lemma {:induction false} ToCrLfIsOnlyCrLf(s: JsString)
    requires CrFree(s)
    ensures OnlyCrLf(ToCrLf(s))
  {
    if s == [] {
    } else {
      ToCrLfIsOnlyCrLf(s[1..]);
      var head := if s[0] == LF then [CR, LF] else [s[0]];
      OnlyCrLfPrepend(head, ToCrLf(s[1..]));
    }
  }

  lemma OnlyCrLfPrepend(head: JsString, t: JsString)
    requires OnlyCrLf(t) && (head == [CR, LF] || (|head| == 1 && head[0] != CR && head[0] != LF))
    ensures OnlyCrLf(head + t)
  {
    var all := head + t;
    forall i | 0 <= i < |all|
      ensures Paired(all, i)
    {
      if i >= |head| {
        assert Paired(t, i - |head|);
      }
    }
  }

  lemma OnlyCrLfTail(s: JsString)
    requires OnlyCrLf(s) && s != []
    ensures if s[0] == CR then StartsCrLf(s) && OnlyCrLf(s[2..]) else s[0] != LF && OnlyCrLf(s[1..])
  {
    assert Paired(s, 0);
    var n := if s[0] == CR then 2 else 1;
    var t := s[n..];
    forall i | 0 <= i < |t|
      ensures Paired(t, i)
    {
      assert Paired(s, i + n);
    }
  }

  /** A text with CR LF only survives the trip. */
  lemma {:induction false} OnlyCrLfRoundTrip(s: JsString)
    requires OnlyCrLf(s)
    ensures ToCrLf(NormalizeToLineFeed(s)) == s
    decreases |s|
  {
    if s == [] {
    } else {
      OnlyCrLfTail(s);
      NormalizeStep(s);
      if s[0] == CR {
        OnlyCrLfRoundTrip(s[2..]);
        assert NormalizeToLineFeed(s)[1..] == NormalizeToLineFeed(s[2..]);
        assert s == [CR, LF] + s[2..];
      } else {
        OnlyCrLfRoundTrip(s[1..]);
        assert NormalizeToLineFeed(s)[1..] == NormalizeToLineFeed(s[1..]);
        assert s == [s[0]] + s[1..];
      }
    }
  }

  // ----- Detection -----

  lemma MatchOne(s: JsString, u: CodeUnit, i: int)
    ensures MatchAt(s, [u], i) <==> 0 <= i < |s| && s[i] == u
  {
    if 0 <= i < |s| {
      assert s[i..i + 1] == [s[i]];
    }
  }

  lemma MatchTwo(s: JsString, u: CodeUnit, v: CodeUnit, i: int)
    ensures MatchAt(s, [u, v], i) <==> 0 <= i < |s| - 1 && s[i] == u && s[i + 1] == v
  {
    if 0 <= i < |s| - 1 {
      assert s[i..i + 2] == [s[i], s[i + 1]];
    }
  }

  /** The style is CR LF exactly when the first line feed follows a carriage return. */
  lemma DetectsFirstLineFeed(s: JsString)
    ensures DetectLineEnding(s) == CrLf <==>
              exists i | 0 < i < |s| :: s[i] == LF && s[i - 1] == CR && LF !in s[..i]
  {
    IndexOfIsLeftmost(s, [LF]);
    IndexOfIsLeftmost(s, [CR, LF]);
    var lf, crlf := IndexOf(s, [LF]), IndexOf(s, [CR, LF]);
    MatchOne(s, LF, lf);
    MatchTwo(s, CR, LF, crlf);
    if DetectLineEnding(s) == CrLf {
      MatchOne(s, LF, crlf + 1);
      assert lf == crlf + 1;
      forall k | 0 <= k < lf
        ensures s[k] != LF
      {
        MatchOne(s, LF, k);
      }
      assert LF !in s[..lf];
    }
    if i :| 0 < i < |s| && s[i] == LF && s[i - 1] == CR && LF !in s[..i] {
      MatchOne(s, LF, i);
      MatchTwo(s, CR, LF, i - 1);
      assert forall k | 0 <= k < i :: s[k] == s[..i][k];
    }
  }

  lemma CrFreeDetectsLf(s: JsString)
    requires CrFree(s)
    ensures DetectLineEnding(s) == Lf
  {
    DetectsFirstLineFeed(s);
  }

  /** In a text with CR LF only, any line ending at all shows the style. */
  lemma OnlyCrLfDetected(s: JsString)
    requires OnlyCrLf(s)
    ensures DetectLineEnding(s) == (if CR in s then CrLf else Lf)
    ensures CR in s <==> LF in s
  {
    DetectsFirstLineFeed(s);
    if k :| 0 <= k < |s| && s[k] == LF {
      assert Paired(s, k);
    }
    if CR in s {
      var k :| 0 <= k < |s| && s[k] == CR;
      assert Paired(s, k);
      IndexOfIsLeftmost(s, [LF]);
      MatchOne(s, LF, k + 1);
      var i := IndexOf(s, [LF]);
      MatchOne(s, LF, i);
      forall m | 0 <= m < i
        ensures s[m] != LF
      {
        MatchOne(s, LF, m);
      }
      assert LF !in s[..i];
      assert Paired(s, i);
    }
  }

  /** All line endings of the text are in the given style. */
  ghost predicate InStyle(s: JsString, ending: LineEnding) {
    match ending case Lf => CrFree(s) case CrLf => OnlyCrLf(s)
  }

  /** Writing a normalised text back in a style gives the text exactly when it was in that style. */
  lemma RestoreIsIdentityIff(s: JsString, ending: LineEnding)
    ensures Restore(NormalizeToLineFeed(s), ending) == s <==> InStyle(s, ending)
  {
    NormalizedIsCrFree(s);
    if ending == Lf {
      if CrFree(s) {
        NormalizeKeepsCrFree(s);
      }
    } else {
      ToCrLfIsOnlyCrLf(NormalizeToLineFeed(s));
      if OnlyCrLf(s) {
        OnlyCrLfRoundTrip(s);
      }
    }
  }

  /** Normalising never makes a text longer, and writing CR LF back never leaves it shorter than it was. */
  lemma {:induction false} NormalizeLengths(s: JsString)
    ensures |NormalizeToLineFeed(s)| <= |s| <= |ToCrLf(NormalizeToLineFeed(s))|
    decreases |s|
  {
    if s == [] {
    } else {
      NormalizeStep(s);
      var n := if StartsCrLf(s) then 2 else 1;
      NormalizeLengths(s[n..]);
      assert NormalizeToLineFeed(s)[1..] == NormalizeToLineFeed(s[n..]);
    }
  }

  /** Every cut of the normalised text is a cut of the text itself, between its line endings. */
  lemma {:induction false} RawSplit(s: JsString, k: nat) returns (m: nat)
    requires k <= |NormalizeToLineFeed(s)|
    ensures m <= |s|
    ensures NormalizeToLineFeed(s[..m]) == NormalizeToLineFeed(s)[..k]
    ensures NormalizeToLineFeed(s[m..]) == NormalizeToLineFeed(s)[k..]
    decreases |s|
  {
    if k == 0 {
      m := 0;
      assert s[0..] == s;
    } else {
      NormalizeStep(s);
      var n := if StartsCrLf(s) then 2 else 1;
      var rest := RawSplit(s[n..], k - 1);
      m := n + rest;
      NormalizeFront(s, n, rest);
      assert s[m..] == s[n..][rest..];
    }
  }

  /** Every region of the normalised text is a region of the text itself. */
  lemma RawRegion(s: JsString, i: nat, length: nat) returns (before: JsString, matched: JsString, after: JsString)
    requires i + length <= |NormalizeToLineFeed(s)|
    ensures s == before + matched + after
    ensures NormalizeToLineFeed(before) == NormalizeToLineFeed(s)[..i]
    ensures NormalizeToLineFeed(matched) == NormalizeToLineFeed(s)[i..i + length]
    ensures NormalizeToLineFeed(after) == NormalizeToLineFeed(s)[i + length..]
  {
    var m := RawSplit(s, i);
    var rest := s[m..];
    var k := RawSplit(rest, length);
    before, matched, after := s[..m], rest[..k], rest[k..];
    CutTwice(s, m, k);
    CutTwice(NormalizeToLineFeed(s), i, length);
  }

  lemma CutTwice(s: JsString, i: nat, length: nat)
    requires i + length <= |s|
    ensures s == s[..i] + s[i..][..length] + s[i..][length..]
    ensures s[i..][..length] == s[i..i + length] && s[i..][length..] == s[i + length..]
  {
  }

  lemma NormalizeFront(s: JsString, n: nat, rest: nat)
    requires s != [] && n == (if StartsCrLf(s) then 2 else 1) && n + rest <= |s|
    ensures NormalizeToLineFeed(s[..n + rest])
            == [if s[0] == CR then LF else s[0]] + NormalizeToLineFeed(s[n..][..rest])
  {
    var front := s[..n + rest];
    NormalizeStep(front);
    assert front[n..] == s[n..][..rest];
  }

  /** Exactly which texts survive normalising and writing back in the detected style: those of one uniform style. */
  lemma RoundTripIffUniform(s: JsString)
    ensures Restore(NormalizeToLineFeed(s), DetectLineEnding(s)) == s <==> Uniform(s)
  {
    NormalizedIsCrFree(s);
    if CrFree(s) {
      CrFreeDetectsLf(s);
      NormalizeKeepsCrFree(s);
    } else if OnlyCrLf(s) {
      OnlyCrLfDetected(s);
      OnlyCrLfRoundTrip(s);
    } else if DetectLineEnding(s) == CrLf {
      ToCrLfIsOnlyCrLf(NormalizeToLineFeed(s));
    }
  }
}
