/**
  The exact edit: one text in a file is found and replaced in a form of the file that has plain line feeds only, and the
  result is written back. What the edit finds, what it leaves alone outside the replaced text, and when it can be
  undone.
 */
module ExactEdits {
  import opened Utf16
  import opened Substrings
  import opened LineEndings

  const BOM: CodeUnit := 0xFEFF

  datatype Refusal = EmptyOld | NotFound | NotUnique(occurrences: nat) | NothingChanged

  datatype EditResult = Edited(content: JsString) | Refused(reason: Refusal)

  function Bom(content: JsString): JsString {
    if content != [] && content[0] == BOM then [BOM] else []
  }

  function Body(content: JsString): JsString {
    content[|Bom(content)|..]
  }

  /** `text` with the `length` code units at `i` replaced. */
  function ReplaceAt(text: JsString, i: nat, length: nat, inserted: JsString): JsString
    requires i + length <= |text|
  {
    text[..i] + inserted + text[i + length..]
  }

  function ApplyExactEdit(content: JsString, oldText: JsString, newText: JsString): EditResult {
    var body := Body(content);
    var lineEnding := DetectLineEnding(body);
    var normalizedContent := NormalizeToLineFeed(body);
    var normalizedOld := NormalizeToLineFeed(oldText);
    var normalizedNew := NormalizeToLineFeed(newText);
    if normalizedOld == [] then Refused(EmptyOld)
    else
      var occurrences := Occurrences(normalizedContent, normalizedOld);
      if occurrences == 0 then Refused(NotFound)
      else if occurrences > 1 then Refused(NotUnique(occurrences))
      else
        var index := IndexOf(normalizedContent, normalizedOld);
        var edited := ReplaceAt(normalizedContent, index, |normalizedOld|, normalizedNew);
        if edited == normalizedContent then Refused(NothingChanged)
        else Edited(Bom(content) + Restore(edited, lineEnding))
  }

  // ----- What an edit finds -----

  /** The normalised text of the file. */
  function FileText(content: JsString): JsString {
    NormalizeToLineFeed(Body(content))
  }

  /** Where the edit takes place in the normalised text. */
  function Place(content: JsString, oldText: JsString): int {
    IndexOf(FileText(content), NormalizeToLineFeed(oldText))
  }

  lemma {:induction false} NormalizedIsEmptyIff(s: JsString)
    ensures NormalizeToLineFeed(s) == [] <==> s == []
  {
    if s != [] {
      NormalizeStep(s);
    }
  }

  lemma SplitAtMatch(text: JsString, pattern: JsString, i: int)
    requires MatchAt(text, pattern, i)
    ensures text == text[..i] + pattern + text[i + |pattern|..]
  {
  }

  /** A replacement changes nothing exactly when it puts in what was there. */
  lemma ReplacementIsIdleIff(text: JsString, pattern: JsString, i: int, inserted: JsString)
    requires MatchAt(text, pattern, i)
    ensures ReplaceAt(text, i, |pattern|, inserted) == text <==> inserted == pattern
  {
    SplitAtMatch(text, pattern, i);
    var edited := ReplaceAt(text, i, |pattern|, inserted);
    if edited == text {
      assert |inserted| == |pattern|;
      assert edited[i..i + |inserted|] == inserted;
    }
  }

  /** The old text stands somewhere, and nowhere twice without overlapping. */
  ghost predicate StandsOnce(text: JsString, pattern: JsString) {
    && (exists p :: MatchAt(text, pattern, p))
    && (forall p, q | MatchAt(text, pattern, p) && MatchAt(text, pattern, q) :: q < p + |pattern|)
  }

  lemma StandsOnceIffOccursOnce(text: JsString, pattern: JsString)
    requires pattern != []
    ensures StandsOnce(text, pattern) <==> Occurrences(text, pattern) == 1
    ensures StandsOnce(text, pattern) ==> MatchAt(text, pattern, IndexOf(text, pattern))
  {
    NoOccurrenceIffNoMatch(text, pattern);
    OccursOftenIffDisjointMatches(text, pattern);
    OccursOnceIffAllMatchesOverlap(text, pattern);
  }

  /** `n` is the largest number of places where the old text stands without overlapping. */
  ghost predicate MostDisjoint(text: JsString, pattern: JsString, n: nat) {
    && (exists places :: Disjoint(text, pattern, 0, places) && |places| == n)
    && (forall places :: Disjoint(text, pattern, 0, places) ==> |places| <= n)
  }

  /**
    Exactly when each answer is given, in terms of the places where the old text stands; the number in a refusal is the
    largest number of such places that do not overlap.
   */
  lemma AnswersExactly(content: JsString, oldText: JsString, newText: JsString)
    ensures var r := ApplyExactEdit(content, oldText, newText);
            var text := FileText(content); var o := NormalizeToLineFeed(oldText); var n := NormalizeToLineFeed(newText);
            && (r == Refused(EmptyOld) <==> oldText == [])
            && (r == Refused(NotFound) <==> oldText != [] && forall q :: !MatchAt(text, o, q))
            && (r == Refused(NothingChanged) <==> oldText != [] && StandsOnce(text, o) && n == o)
            && (r.Edited? <==> oldText != [] && StandsOnce(text, o) && n != o)
            && (r.Refused? && r.reason.NotUnique? ==>
                  r.reason.occurrences > 1 && MostDisjoint(text, o, r.reason.occurrences))
  {
    NormalizedIsEmptyIff(oldText);
    var text, o := FileText(content), NormalizeToLineFeed(oldText);
    if oldText != [] {
      NoOccurrenceIffNoMatch(text, o);
      StandsOnceIffOccursOnce(text, o);
      OccurrencesIsMostDisjoint(text, o);
      if Occurrences(text, o) == 1 {
        ReplacementIsIdleIff(text, o, Place(content, oldText), NormalizeToLineFeed(newText));
      }
    }
  }

  /**
    On success the replaced match is the leftmost one, and every other place where the old text stands overlaps it; an
    old text without a border stands nowhere else.
   */
  lemma EditedPlaceIsUnique(content: JsString, oldText: JsString, newText: JsString)
    requires ApplyExactEdit(content, oldText, newText).Edited?
    ensures var text := FileText(content); var o := NormalizeToLineFeed(oldText); var i := Place(content, oldText);
            && MatchAt(text, o, i)
            && (forall q :: MatchAt(text, o, q) ==> i <= q < i + |o|)
            && (Unbordered(o) ==> OnlyMatch(text, o, i))
  {
    var text, o := FileText(content), NormalizeToLineFeed(oldText);
    OccursOnceIffAllMatchesOverlap(text, o);
    if Unbordered(o) {
      UnborderedOccursOnce(text, o);
    }
  }

  // ----- What an edit keeps -----

  /** The normalised text after the edit. */
  function EditedText(content: JsString, oldText: JsString, newText: JsString): JsString
    requires ApplyExactEdit(content, oldText, newText).Edited?
  {
    ReplaceAt(FileText(content), Place(content, oldText), |NormalizeToLineFeed(oldText)|, NormalizeToLineFeed(newText))
  }

  lemma EditedShape(content: JsString, oldText: JsString, newText: JsString)
    requires ApplyExactEdit(content, oldText, newText).Edited?
    ensures var i := Place(content, oldText); var o := NormalizeToLineFeed(oldText);
            && o != [] && MatchAt(FileText(content), o, i)
            && CrFree(FileText(content)) && CrFree(EditedText(content, oldText, newText))
            && EditedText(content, oldText, newText) != FileText(content)
            && ApplyExactEdit(content, oldText, newText).content
               == Bom(content) + Restore(EditedText(content, oldText, newText), DetectLineEnding(Body(content)))
  {
    EditedPlaceIsUnique(content, oldText, newText);
    NormalizedIsCrFree(Body(content));
    NormalizedIsCrFree(newText);
  }

  /**
    For any file: the byte order mark is kept, and the normalised result is the normalised text with the one region
    replaced.
   */
  lemma EditReplacesOneRegion(content: JsString, oldText: JsString, newText: JsString)
    requires ApplyExactEdit(content, oldText, newText).Edited?
    ensures var r := ApplyExactEdit(content, oldText, newText).content;
            var text := FileText(content); var i := Place(content, oldText);
            var o := NormalizeToLineFeed(oldText);
            && 0 <= i && i + |o| <= |text| && |Bom(content)| <= |r|
            && text == text[..i] + o + text[i + |o|..]
            && r[..|Bom(content)|] == Bom(content)
            && NormalizeToLineFeed(r[|Bom(content)|..]) == text[..i] + NormalizeToLineFeed(newText) + text[i + |o|..]
  {
    EditedShape(content, oldText, newText);
    SplitAtMatch(FileText(content), NormalizeToLineFeed(oldText), Place(content, oldText));
    var edited := EditedText(content, oldText, newText);
    NormalizeRestored(edited, DetectLineEnding(Body(content)));
    var r := ApplyExactEdit(content, oldText, newText).content;
    assert r[|Bom(content)|..] == Restore(edited, DetectLineEnding(Body(content)));
  }

  /** A byte order mark in front is no part of the searched text, and stays in front. */
  lemma EditKeepsMark(content: JsString, oldText: JsString, newText: JsString)
    requires ApplyExactEdit(content, oldText, newText).Edited? && content != [] && content[0] == 0xFEFF
    ensures FileText(content) == NormalizeToLineFeed(content[1..])
    ensures var r := ApplyExactEdit(content, oldText, newText).content; r != [] && r[0] == 0xFEFF
  {
    EditReplacesOneRegion(content, oldText, newText);
  }

  /** Without a mark in front the whole file is searched. */
  lemma UnmarkedFileIsSearchedWhole(content: JsString)
    requires content == [] || content[0] != 0xFEFF
    ensures FileText(content) == NormalizeToLineFeed(content)
  {
    assert content[0..] == content;
  }

  /** Every edited file has one line ending style afterwards, whatever it had before. */
  lemma EditedFileIsUniform(content: JsString, oldText: JsString, newText: JsString)
    requires ApplyExactEdit(content, oldText, newText).Edited?
    ensures var r := ApplyExactEdit(content, oldText, newText).content;
            |Bom(content)| <= |r|
            && (if DetectLineEnding(Body(content)) == CrLf then OnlyCrLf(r[|Bom(content)|..])
                else CrFree(r[|Bom(content)|..]))
  {
    EditedShape(content, oldText, newText);
    var edited := EditedText(content, oldText, newText);
    var r := ApplyExactEdit(content, oldText, newText).content;
    assert r[|Bom(content)|..] == Restore(edited, DetectLineEnding(Body(content)));
    ToCrLfIsOnlyCrLf(edited);
  }

  /** Restoring a text piece by piece. */
  lemma RestoreThree(a: JsString, b: JsString, c: JsString, ending: LineEnding)
    ensures Restore(a + b + c, ending) == Restore(a, ending) + Restore(b, ending) + Restore(c, ending)
  {
    RestoreConcat(a + b, c, ending);
    RestoreConcat(a, b, ending);
  }

  /** A replacement in a text is the same replacement in the restored text. */
  lemma RestoreAround(text: JsString, i: int, o: JsString, n: JsString, ending: LineEnding)
      returns (prefix: JsString, suffix: JsString)
    requires MatchAt(text, o, i)
    ensures Restore(text, ending) == prefix + Restore(o, ending) + suffix
    ensures Restore(ReplaceAt(text, i, |o|, n), ending) == prefix + Restore(n, ending) + suffix
  {
    SplitAtMatch(text, o, i);
    var before, after := text[..i], text[i + |o|..];
    prefix, suffix := Restore(before, ending), Restore(after, ending);
    RestoreThree(before, o, after, ending);
    RestoreThree(before, n, after, ending);
  }

  lemma MarkAndBody(content: JsString)
    ensures content == Bom(content) + Body(content)
  {
  }

  /**
    For a file of one line ending style, everything outside the edit is preserved code unit for code unit: the file is
    bom + prefix + old + suffix and the result is bom + prefix + new + suffix, with the old and the new text in the
    style of the file.
   */
  lemma EditPreservesOutside(content: JsString, oldText: JsString, newText: JsString)
      returns (prefix: JsString, suffix: JsString)
    requires ApplyExactEdit(content, oldText, newText).Edited? && Uniform(Body(content))
    ensures var ending := DetectLineEnding(Body(content));
            && content == Bom(content) + (prefix + Restore(NormalizeToLineFeed(oldText), ending) + suffix)
            && ApplyExactEdit(content, oldText, newText).content
               == Bom(content) + (prefix + Restore(NormalizeToLineFeed(newText), ending) + suffix)
  {
    var ending := DetectLineEnding(Body(content));
    EditedShape(content, oldText, newText);
    RoundTripIffUniform(Body(content));
    MarkAndBody(content);
    prefix, suffix := RestoreAround(FileText(content), Place(content, oldText), NormalizeToLineFeed(oldText),
                                    NormalizeToLineFeed(newText), ending);
  }

  // ----- Files of mixed styles -----

  /** The parts of the file around the replaced text, as they stand in the file. */
  ghost predicate IsRegion(content: JsString, oldText: JsString, before: JsString, matched: JsString, after: JsString)
    requires MatchAt(FileText(content), NormalizeToLineFeed(oldText), Place(content, oldText))
  {
    var text := FileText(content); var i := Place(content, oldText); var o := NormalizeToLineFeed(oldText);
    && Body(content) == before + matched + after
    && NormalizeToLineFeed(before) == text[..i]
    && NormalizeToLineFeed(matched) == o
    && NormalizeToLineFeed(after) == text[i + |o|..]
  }

  /** Every successful edit has such parts. */
  lemma EditedRegion(content: JsString, oldText: JsString, newText: JsString)
      returns (before: JsString, matched: JsString, after: JsString)
    requires ApplyExactEdit(content, oldText, newText).Edited?
    ensures MatchAt(FileText(content), NormalizeToLineFeed(oldText), Place(content, oldText))
    ensures IsRegion(content, oldText, before, matched, after)
  {
    EditedShape(content, oldText, newText);
    before, matched, after := RawRegion(Body(content), Place(content, oldText), |NormalizeToLineFeed(oldText)|);
  }

  /** Equal texts around the same middle, when neither side shrinks or neither side grows, are equal on both sides. */
  lemma CancelMiddle(a: JsString, b: JsString, middle: JsString, c: JsString, d: JsString)
    requires (|a| <= |c| && |b| <= |d|) || (|c| <= |a| && |d| <= |b|)
    ensures a + middle + b == c + middle + d <==> a == c && b == d
  {
    var x, y := a + middle + b, c + middle + d;
    if x == y {
      assert |x| == |a| + |middle| + |b| && |y| == |c| + |middle| + |d|;
      assert a == x[..|a|] && c == y[..|c|];
      assert b == x[|a| + |middle|..] && d == y[|c| + |middle|..];
    }
  }

  /** Writing back a text with a replaced middle keeps both sides exactly when both sides are in the style. */
  lemma RestoreKeepsOutsideIff(before: JsString, n: JsString, after: JsString, ending: LineEnding)
    ensures Restore(NormalizeToLineFeed(before) + n + NormalizeToLineFeed(after), ending)
            == before + Restore(n, ending) + after
            <==> InStyle(before, ending) && InStyle(after, ending)
  {
    var b, a := NormalizeToLineFeed(before), NormalizeToLineFeed(after);
    RestoreThree(b, n, a, ending);
    NormalizeLengths(before);
    NormalizeLengths(after);
    CancelMiddle(Restore(b, ending), Restore(a, ending), Restore(n, ending), before, after);
    RestoreIsIdentityIff(before, ending);
    RestoreIsIdentityIff(after, ending);
  }

  /**
    Exactly when a successful edit keeps everything outside the replaced text code unit for code unit: when the text
    before it and the text after it are each in the style that is detected in the file. What the replaced text itself
    looks like does not matter.
   */
  lemma EditKeepsOutsideIff(content: JsString, oldText: JsString, newText: JsString, before: JsString,
                            matched: JsString, after: JsString)
    requires ApplyExactEdit(content, oldText, newText).Edited?
    requires MatchAt(FileText(content), NormalizeToLineFeed(oldText), Place(content, oldText))
    requires IsRegion(content, oldText, before, matched, after)
    ensures var ending := DetectLineEnding(Body(content));
            ApplyExactEdit(content, oldText, newText).content
            == Bom(content) + (before + Restore(NormalizeToLineFeed(newText), ending) + after)
            <==> InStyle(before, ending) && InStyle(after, ending)
  {
    var ending, n := DetectLineEnding(Body(content)), NormalizeToLineFeed(newText);
    EditedShape(content, oldText, newText);
    var edited := EditedText(content, oldText, newText);
    assert edited == NormalizeToLineFeed(before) + n + NormalizeToLineFeed(after);
    SamePrefixSameRest(Bom(content), Restore(edited, ending), before + Restore(n, ending) + after);
    RestoreKeepsOutsideIff(before, n, after, ending);
  }

  lemma SamePrefixSameRest(p: JsString, a: JsString, b: JsString)
    ensures p + a == p + b <==> a == b
  {
    if p + a == p + b {
      assert (p + a)[|p|..] == a && (p + b)[|p|..] == b;
    }
  }

  /** An edit of a file in which the old text stands at one place. */
  lemma EditAtOnlyMatch(content: JsString, oldText: JsString, newText: JsString, text: JsString, o: JsString,
                        n: JsString, i: nat)
    requires FileText(content) == text && NormalizeToLineFeed(oldText) == o && NormalizeToLineFeed(newText) == n
    requires OnlyMatch(text, o, i) && o != [] && n != o
    ensures ApplyExactEdit(content, oldText, newText)
            == Edited(Bom(content) + Restore(ReplaceAt(text, i, |o|, n), DetectLineEnding(Body(content))))
  {
    IndexOfIsLeftmost(text, o);
    OccursOnceIffAllMatchesOverlap(text, o);
    ReplacementIsIdleIff(text, o, i, n);
  }

  lemma ReplaceUnit(text: JsString, i: nat, v: CodeUnit)
    requires i < |text|
    ensures ReplaceAt(text, i, 1, [v]) == text[i := v]
  {
  }

  /** One code unit that stands at one place. */
  lemma OnlyUnit(text: JsString, u: CodeUnit, i: nat)
    requires i < |text| && text[i] == u && forall k | 0 <= k < |text| && k != i :: text[k] != u
    ensures OnlyMatch(text, [u], i)
  {
    forall q
      ensures MatchAt(text, [u], q) <==> q == i
    {
      MatchOne(text, u, q);
    }
  }

  const A: CodeUnit := 0x61
  const B: CodeUnit := 0x62
  const C: CodeUnit := 0x63

  /** Replacing one code unit by another, in a file without a byte order mark. */
  lemma EditOneUnit(content: JsString, text: JsString, i: nat, u: CodeUnit, v: CodeUnit, ending: LineEnding)
    requires Bom(content) == [] && NormalizeToLineFeed(content) == text && DetectLineEnding(content) == ending
    requires i < |text| && text[i] == u && forall k | 0 <= k < |text| && k != i :: text[k] != u
    requires u != CR && v != CR && u != v
    ensures ApplyExactEdit(content, [u], [v]) == Edited(Restore(text[i := v], ending))
  {
    var o, n := [u], [v];
    NormalizeKeepsCrFree(o);
    NormalizeKeepsCrFree(n);
    OnlyUnit(text, u, i);
    assert [] + Restore(text[i := v], ending) == Restore(text[i := v], ending);
    EditAtOnlyMatch(content, o, n, text, o, n, i);
    ReplaceUnit(text, i, v);
  }

  lemma NormalizeMixed()
    ensures NormalizeToLineFeed([A, LF, B, CR, LF]) == [A, LF, B, LF]
  {
    NormalizeUnits(A, [LF, B, CR, LF]);
    NormalizeUnits(LF, [B, CR, LF]);
    NormalizeUnits(B, [CR, LF]);
    NormalizeStep([CR, LF]);
    assert [A] + ([LF] + ([B] + [LF])) == [A, LF, B, LF];
  }

  /** A mixed file: replacing its first letter also rewrites the line ending at its end. */
  lemma MixedFileIsRewritten()
    ensures ApplyExactEdit([A, LF, B, CR, LF], [A], [C]) == Edited([C, LF, B, LF])
  {
    var content := [A, LF, B, CR, LF];
    NormalizeMixed();
    DetectsFirstLineFeed(content);
    assert forall i | 1 < i < |content| :: content[..i][1] == LF;
    EditOneUnit(content, [A, LF, B, LF], 0, A, C, Lf);
    assert [A, LF, B, LF][0 := C] == [C, LF, B, LF];
  }

  /** A code unit that starts no CR LF is normalised by itself. */
  lemma NormalizeUnits(u: CodeUnit, rest: JsString)
    requires u != CR
    ensures NormalizeToLineFeed([u] + rest) == [u] + NormalizeToLineFeed(rest)
  {
    NormalizeStep([u] + rest);
    assert ([u] + rest)[1..] == rest;
  }

  // ----- Editing back -----

  lemma {:induction false} FirstOfRestored(s: JsString, ending: LineEnding)
    ensures s == [] <==> Restore(s, ending) == []
    ensures s != [] ==> (Restore(s, ending)[0] == BOM <==> s[0] == BOM)
  {
  }

  /** The file after the edit, read again. */
  lemma EditedFile(content: JsString, edited: JsString, ending: LineEnding)
    requires CrFree(edited) && (Bom(content) != [] || edited == [] || edited[0] != BOM)
    ensures var r := Bom(content) + Restore(edited, ending);
            Bom(r) == Bom(content) && Body(r) == Restore(edited, ending) && FileText(r) == edited
  {
    FirstOfRestored(edited, ending);
    NormalizeRestored(edited, ending);
    var r := Bom(content) + Restore(edited, ending);
    assert r[|Bom(content)|..] == Restore(edited, ending);
  }

  lemma {:induction false} ToCrLfWithoutLf(s: JsString)
    requires CrFree(s)
    ensures LF in s <==> CR in ToCrLf(s)
    ensures ToCrLf(s) == s <==> LF !in s
  {
    if s == [] {
    } else {
      ToCrLfWithoutLf(s[1..]);
    }
  }

  /** The style that is found in a restored text. */
  lemma RestoredStyle(s: JsString, ending: LineEnding)
    requires CrFree(s)
    ensures DetectLineEnding(Restore(s, ending)) == (if ending == CrLf && LF in s then CrLf else Lf)
  {
    if ending == Lf {
      CrFreeDetectsLf(s);
    } else {
      ToCrLfIsOnlyCrLf(s);
      OnlyCrLfDetected(ToCrLf(s));
      ToCrLfWithoutLf(s);
    }
  }

  /** Replacing back. */
  lemma ReplaceBack(text: JsString, pattern: JsString, i: int, inserted: JsString)
    requires MatchAt(text, pattern, i)
    ensures var edited := ReplaceAt(text, i, |pattern|, inserted);
            && i + |inserted| <= |edited|
            && ReplaceAt(edited, i, |inserted|, pattern) == text
  {
    SplitAtMatch(text, pattern, i);
    var edited := ReplaceAt(text, i, |pattern|, inserted);
    assert edited[..i] == text[..i] && edited[i + |inserted|..] == text[i + |pattern|..];
  }

  /** The new text is found once in the edited text, at the edited place. */
  predicate FoundAtEditedPlace(content: JsString, oldText: JsString, newText: JsString)
    requires ApplyExactEdit(content, oldText, newText).Edited?
  {
    var n := NormalizeToLineFeed(newText);
    var edited := EditedText(content, oldText, newText);
    n != [] && Occurrences(edited, n) == 1 && IndexOf(edited, n) == Place(content, oldText)
  }

  /** The edit does not put a byte order mark in front of a file that had none. */
  predicate KeepsMark(content: JsString, edited: JsString) {
    Bom(content) != [] || edited == [] || edited[0] != BOM
  }

  /** The edit does not take the last line ending out of a CR LF file. */
  predicate KeepsStyle(content: JsString, edited: JsString) {
    DetectLineEnding(Body(content)) == Lf || LF in edited
  }

  lemma DetectedCrLfHasLineFeed(s: JsString)
    requires DetectLineEnding(s) == CrLf
    ensures LF in NormalizeToLineFeed(s)
  {
    DetectsFirstLineFeed(s);
    var i :| 0 < i < |s| && s[i] == LF;
    NormalizeKeepsLineFeed(s, i);
  }

  lemma {:induction false} NormalizeKeepsLineFeed(s: JsString, i: nat)
    requires i < |s| && s[i] == LF
    ensures LF in NormalizeToLineFeed(s)
    decreases |s|
  {
    NormalizeStep(s);
    if !StartsCrLf(s) && s[0] != CR && s[0] != LF {
      NormalizeKeepsLineFeed(s[1..], i - 1);
    }
  }

  /** Undoing within the kept mark: the answer is the file in the style that is found after the edit. */
  lemma UndoAnswer(content: JsString, oldText: JsString, newText: JsString)
    requires ApplyExactEdit(content, oldText, newText).Edited? && FoundAtEditedPlace(content, oldText, newText)
    requires KeepsMark(content, EditedText(content, oldText, newText))
    ensures var edited := EditedText(content, oldText, newText);
            var ending := DetectLineEnding(Body(content));
            ApplyExactEdit(ApplyExactEdit(content, oldText, newText).content, newText, oldText)
            == Edited(Bom(content) + Restore(FileText(content), if ending == CrLf && LF in edited then CrLf else Lf))
  {
    var edited := EditedText(content, oldText, newText);
    var ending := DetectLineEnding(Body(content));
    EditedShape(content, oldText, newText);
    EditedFile(content, edited, ending);
    RestoredStyle(edited, ending);
    ReplaceBack(FileText(content), NormalizeToLineFeed(oldText), Place(content, oldText), NormalizeToLineFeed(newText));
  }

  lemma UndoWithKeptMark(content: JsString, oldText: JsString, newText: JsString)
    requires ApplyExactEdit(content, oldText, newText).Edited? && Uniform(Body(content))
    requires FoundAtEditedPlace(content, oldText, newText) && KeepsMark(content, EditedText(content, oldText, newText))
    ensures ApplyExactEdit(ApplyExactEdit(content, oldText, newText).content, newText, oldText) == Edited(content)
            <==> KeepsStyle(content, EditedText(content, oldText, newText))
  {
    EditedShape(content, oldText, newText);
    UndoAnswer(content, oldText, newText);
    RoundTripIffUniform(Body(content));
    MarkAndBody(content);
    if !KeepsStyle(content, EditedText(content, oldText, newText)) {
      DetectedCrLfHasLineFeed(Body(content));
      ToCrLfWithoutLf(FileText(content));
      SamePrefixSameRest(Bom(content), FileText(content), Body(content));
    }
  }

  /** A file that got a byte order mark keeps it. */
  lemma UndoKeepsForeignMark(content: JsString, oldText: JsString, newText: JsString)
    requires ApplyExactEdit(content, oldText, newText).Edited?
    requires !KeepsMark(content, EditedText(content, oldText, newText))
    ensures ApplyExactEdit(ApplyExactEdit(content, oldText, newText).content, newText, oldText) != Edited(content)
  {
    EditedShape(content, oldText, newText);
    FirstOfRestored(EditedText(content, oldText, newText), DetectLineEnding(Body(content)));
    assert Bom(ApplyExactEdit(content, oldText, newText).content) == [BOM];
  }

  /** When the undo gives the file back, the new text was found at the edited place. */
  lemma UndoFindsPlace(content: JsString, oldText: JsString, newText: JsString)
    requires ApplyExactEdit(content, oldText, newText).Edited?
    requires KeepsMark(content, EditedText(content, oldText, newText))
    requires ApplyExactEdit(ApplyExactEdit(content, oldText, newText).content, newText, oldText) == Edited(content)
    ensures FoundAtEditedPlace(content, oldText, newText)
  {
    var r := ApplyExactEdit(content, oldText, newText).content;
    var text, edited := FileText(content), EditedText(content, oldText, newText);
    var o, n := NormalizeToLineFeed(oldText), NormalizeToLineFeed(newText);
    var i, p := Place(content, oldText), Place(r, newText);
    EditedShape(content, oldText, newText);
    EditedFile(content, edited, DetectLineEnding(Body(content)));
    assert FileText(r) == edited && Bom(r) == Bom(content);
    EditedPlaceIsUnique(content, oldText, newText);
    EditedPlaceIsUnique(r, newText, oldText);
    EditReplacesOneRegion(r, newText, oldText);
    assert text == edited[..p] + o + edited[p + |n|..];
    assert text[p..p + |o|] == o;
    assert MatchAt(text, o, p);
    assert edited[i..i + |n|] == n;
    assert MatchAt(edited, n, i);
  }

  /** When the undo gives the file back, the file has one line ending style. */
  lemma UndoneFileIsUniform(content: JsString, oldText: JsString, newText: JsString)
    requires ApplyExactEdit(content, oldText, newText).Edited?
    requires KeepsMark(content, EditedText(content, oldText, newText))
    requires ApplyExactEdit(ApplyExactEdit(content, oldText, newText).content, newText, oldText) == Edited(content)
    ensures Uniform(Body(content))
  {
    var r := ApplyExactEdit(content, oldText, newText).content;
    EditedShape(content, oldText, newText);
    EditedFile(content, EditedText(content, oldText, newText), DetectLineEnding(Body(content)));
    EditedFileIsUniform(r, newText, oldText);
  }

  /**
    Exactly when editing back restores the file, for every successful edit: the file had one line ending style, the new
    text is found once and at the edited place, and the edit did not put a byte order mark in front and did not take the
    last line ending out of a CR LF file.
   */
  lemma UndoRestoresIff(content: JsString, oldText: JsString, newText: JsString)
    requires ApplyExactEdit(content, oldText, newText).Edited?
    ensures var edited := EditedText(content, oldText, newText);
            ApplyExactEdit(ApplyExactEdit(content, oldText, newText).content, newText, oldText) == Edited(content) <==>
              && Uniform(Body(content)) && FoundAtEditedPlace(content, oldText, newText)
              && KeepsMark(content, edited) && KeepsStyle(content, edited)
  {
    if !KeepsMark(content, EditedText(content, oldText, newText)) {
      UndoKeepsForeignMark(content, oldText, newText);
    } else if ApplyExactEdit(ApplyExactEdit(content, oldText, newText).content, newText, oldText) == Edited(content) {
      UndoneFileIsUniform(content, oldText, newText);
      UndoFindsPlace(content, oldText, newText);
      UndoWithKeptMark(content, oldText, newText);
    } else if Uniform(Body(content)) && FoundAtEditedPlace(content, oldText, newText) {
      UndoWithKeptMark(content, oldText, newText);
    }
  }

  lemma NormalizeCrLfFile()
    ensures NormalizeToLineFeed([A, CR, LF, B]) == [A, LF, B]
    ensures DetectLineEnding([A, CR, LF, B]) == CrLf
  {
    var content := [A, CR, LF, B];
    NormalizeUnits(A, [CR, LF, B]);
    NormalizeStep([CR, LF, B]);
    NormalizeKeepsCrFree([B]);
    assert [A] + ([LF] + [B]) == [A, LF, B];
    DetectsFirstLineFeed(content);
    assert content[2] == LF && content[1] == CR && content[..2] == [A, CR];
  }

  lemma EditTakesLastEnding()
    ensures ApplyExactEdit([A, CR, LF, B], [LF], [C]) == Edited([A, C, B])
  {
    NormalizeCrLfFile();
    EditOneUnit([A, CR, LF, B], [A, LF, B], 1, LF, C, CrLf);
    var edited := [A, C, B];
    assert [A, LF, B][1 := C] == edited;
    ToCrLfWithoutLf(edited);
  }

  lemma EditPutsLineFeed()
    ensures ApplyExactEdit([A, C, B], [C], [LF]) == Edited([A, LF, B])
  {
    var content := [A, C, B];
    NormalizeKeepsCrFree(content);
    CrFreeDetectsLf(content);
    EditOneUnit(content, content, 1, C, LF, Lf);
    assert content[1 := LF] == [A, LF, B];
  }

  /** A CR LF file that loses its only line ending gets it back as a plain line feed. */
  lemma UndoLosesStyle()
    ensures ApplyExactEdit([A, CR, LF, B], [LF], [C]) == Edited([A, C, B])
    ensures ApplyExactEdit([A, C, B], [C], [LF]) == Edited([A, LF, B])
  {
    EditTakesLastEnding();
    EditPutsLineFeed();
  }
}
