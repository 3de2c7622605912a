/**
 * The document-to-records half of the bot: cutting the document's lines into
 * sections at every page marker (`split_sections`) and folding one section
 * into a six-field record by its line labels (`parse_section`).
 */
module Corpus {
  import opened Text

  /** The page marker "page number:"; it also opens every section. */
  const PageLabel: string := "شماره صفحه:"
  /** "surah name:" */
  const SurahLabel: string := "نام سوره:"
  /** "verse number:" */
  const VerseNumberLabel: string := "شماره آیه:"
  /** "verse text:" */
  const VerseTextLabel: string := "متن آیه:"
  /** "translation (Fooladvand):" */
  const TranslationLabel: string := "ترجمه (فولادوند):"
  /** "your istikhara result:" */
  const ResultLabel: string := "نتیجه استخاره شما:"

  predicate IsMarker(line: string) {
    StartsWith(line, PageLabel)
  }

  /** The kind of a line: the label it starts with, or none. */
  datatype Kind =
    | PageLine | SurahLine | VerseNumberLine | VerseTextLine | TranslationLine | ResultLine
    | Continuation

  function LabelOf(k: Kind): string
    requires k != Continuation
  {
    match k
    case PageLine => PageLabel
    case SurahLine => SurahLabel
    case VerseNumberLine => VerseNumberLabel
    case VerseTextLine => VerseTextLabel
    case TranslationLine => TranslationLabel
    case ResultLine => ResultLabel
  }

  /** Which branch of the label `if`/`elif` chain a line takes. */
  function Classify(line: string): Kind {
    if StartsWith(line, PageLabel) then PageLine
    else if StartsWith(line, SurahLabel) then SurahLine
    else if StartsWith(line, VerseNumberLabel) then VerseNumberLine
    else if StartsWith(line, VerseTextLabel) then VerseTextLine
    else if StartsWith(line, TranslationLabel) then TranslationLine
    else if StartsWith(line, ResultLabel) then ResultLine
    else Continuation
  }

  /** Every label ends in the ASCII colon and has no other colon. */
  lemma {:induction false} LabelShape(k: Kind)
    requires k != Continuation
    ensures var tag := LabelOf(k);
      |tag| > 0 && tag[|tag| - 1] == ':' && forall i :: 0 <= i < |tag| - 1 ==> tag[i] != ':'
  {
  }

  /**
   * A position where two different labels disagree: the page and verse number
   * labels share their first word, and the surah and result labels their
   * first letter; every other pair differs at once.
   */
  function DiffIndex(k: Kind, j: Kind): nat {
    if (k == PageLine && j == VerseNumberLine) || (k == VerseNumberLine && j == PageLine) then 6
    else if (k == SurahLine && j == ResultLine) || (k == ResultLine && j == SurahLine) then 1
    else 0
  }

  /** A line that starts with one label does not start with any other. */
  lemma {:induction false} LabelsExclusive(line: string, k: Kind, j: Kind)
    requires k != Continuation && j != Continuation && k != j
    requires StartsWith(line, LabelOf(k))
    ensures !StartsWith(line, LabelOf(j))
  {
    var i := DiffIndex(k, j);
    StartsWithPrefix(line, LabelOf(k));
    StartsWithPrefix(line, LabelOf(j));
    assert i < |LabelOf(k)| && i < |LabelOf(j)| && LabelOf(k)[i] != LabelOf(j)[i];
    assert line[i] == LabelOf(k)[i];
  }

  /**
   * So the order of the `elif` chain does not matter: a line takes the branch
   * of a label exactly when it starts with that label.
   */
  lemma {:induction false} ClassifyByPrefix(line: string, k: Kind)
    requires k != Continuation
    ensures Classify(line) == k <==> StartsWith(line, LabelOf(k))
  {
    if StartsWith(line, LabelOf(k)) {
      if k != PageLine { LabelsExclusive(line, k, PageLine); }
      if k != SurahLine { LabelsExclusive(line, k, SurahLine); }
      if k != VerseNumberLine { LabelsExclusive(line, k, VerseNumberLine); }
      if k != VerseTextLine { LabelsExclusive(line, k, VerseTextLine); }
      if k != TranslationLine { LabelsExclusive(line, k, TranslationLine); }
    }
  }

  // ---------------------------------------------------------------------------
  // Section splitter
  // ---------------------------------------------------------------------------

  /**
   * The sections `split_sections` produces for `lines`, given line by line: a
   * marker line opens a new section; any other line joins the section being
   * built, or opens the first one when nothing has been seen yet.
   */
  function Split(lines: seq<string>): seq<seq<string>> {
    if lines == [] then []
    else
      var front := Split(lines[..|lines| - 1]);
      var line := lines[|lines| - 1];
      if IsMarker(line) || front == [] then front + [[line]]
      else front[..|front| - 1] + [front[|front| - 1] + [line]]
  }

  /** `split_sections` with its loop, proved to produce `Split(lines)`. */
  method SplitSections(lines: seq<string>) returns (sections: seq<seq<string>>)
    ensures sections == Split(lines)
  {
    sections := [];
    var current: seq<string> := [];
    var i := 0;
    while i < |lines|
      invariant 0 <= i <= |lines|
      invariant i == 0 ==> sections == [] && current == []
      invariant i > 0 ==> current != [] && Split(lines[..i]) == sections + [current]
    {
      var line := lines[i];
      SplitSnoc(lines, i);
      assert i == 0 ==> lines[..i] == [];
      assert (sections + [current])[..|sections|] == sections;
      if StartsWith(line, PageLabel) {
        if current != [] {
          sections := sections + [current];
        }
        current := [line];
      } else {
        current := current + [line];
        assert i == 0 ==> current == [line];
      }
      i := i + 1;
    }
    if current != [] {
      sections := sections + [current];
    }
    assert lines[..i] == lines;
  }

  /** One more line extends `Split` as one turn of the loop does. */
  lemma {:induction false} SplitSnoc(lines: seq<string>, i: nat)
    requires i < |lines|
    ensures var front := Split(lines[..i]); var line := lines[i];
      Split(lines[..i + 1]) ==
        if IsMarker(line) || front == [] then front + [[line]]
        else front[..|front| - 1] + [front[|front| - 1] + [line]]
  {
    assert lines[..i + 1][..i] == lines[..i];
  }

  /** All the lines of all the sections, in order. */
  function Flatten(sections: seq<seq<string>>): seq<string> {
    if sections == [] then [] else Flatten(sections[..|sections| - 1]) + sections[|sections| - 1]
  }

  lemma {:induction false} FlattenAppend(a: seq<seq<string>>, b: seq<string>)
    ensures Flatten(a + [b]) == Flatten(a) + b
  {
    assert (a + [b])[..|a|] == a;
  }

  /** Splitting loses no line and reorders none, the lines before the first marker included. */
  lemma {:induction false} SplitFlatten(lines: seq<string>)
    ensures Flatten(Split(lines)) == lines
    decreases |lines|
  {
    if lines != [] {
      var init := lines[..|lines| - 1];
      var line := lines[|lines| - 1];
      var front := Split(init);
      SplitFlatten(init);
      if IsMarker(line) || front == [] {
        FlattenAppend(front, [line]);
      } else {
        var f := front[..|front| - 1];
        var last := front[|front| - 1];
        assert front == f + [last];
        FlattenAppend(f, last);
        FlattenAppend(f, last + [line]);
      }
      assert init + [line] == lines;
    }
  }

  /** The shape of every section list: */
  ghost predicate WellShaped(sections: seq<seq<string>>) {
    // no section is empty,
    (forall i :: 0 <= i < |sections| ==> sections[i] != []) &&
    // a marker line only ever opens a section,
    (forall i, j :: 0 <= i < |sections| && 0 < j < |sections[i]| ==> !IsMarker(sections[i][j])) &&
    // and every section but the first is opened by a marker.
    (forall i :: 0 < i < |sections| ==> IsMarker(sections[i][0]))
  }

  lemma {:induction false} SplitWellShaped(lines: seq<string>)
    ensures WellShaped(Split(lines))
    decreases |lines|
  {
    if lines != [] {
      var init := lines[..|lines| - 1];
      var line := lines[|lines| - 1];
      var front := Split(init);
      SplitWellShaped(init);
      if IsMarker(line) || front == [] {
        assert Split(lines) == front + [[line]];
      } else {
        var last := front[|front| - 1];
        assert Split(lines) == front[..|front| - 1] + [last + [line]];
        assert last != [] && (last + [line])[0] == last[0];
      }
    }
  }

  /** Markers among `lines`. */
  function MarkerCount(lines: seq<string>): nat {
    if lines == [] then 0
    else MarkerCount(lines[..|lines| - 1]) + if IsMarker(lines[|lines| - 1]) then 1 else 0
  }

  /**
   * One section per marker, plus one for the lines before the first marker
   * when there are any. In particular empty input gives no section and
   * non-empty input at least one.
   */
  lemma {:induction false} SplitCount(lines: seq<string>)
    ensures |Split(lines)| == MarkerCount(lines) + if lines != [] && !IsMarker(lines[0]) then 1 else 0
    decreases |lines|
  {
    if lines != [] {
      var init := lines[..|lines| - 1];
      SplitCount(init);
      if init != [] {
        assert init[0] == lines[0];
      }
    }
  }

  /** Non-empty input without a single marker comes out as one section holding every line. */
  lemma {:induction false} SplitWithoutMarker(lines: seq<string>)
    requires lines != []
    requires forall i :: 0 <= i < |lines| ==> !IsMarker(lines[i])
    ensures Split(lines) == [lines]
    decreases |lines|
  {
    var init := lines[..|lines| - 1];
    assert init + [lines[|lines| - 1]] == lines;
    if init != [] {
      SplitWithoutMarker(init);
    }
  }

  // ---------------------------------------------------------------------------
  // Record parser
  // ---------------------------------------------------------------------------

  /** One parsed section; each field is a column of the `istikhara` table. */
  datatype Record = Record(
    pageNumber: string,
    surahName: string,
    verseNumber: string,
    verseText: string,
    translation: string,
    istikharaResult: string)

  /** The record `parse_section` starts from: every field empty. */
  const Blank := Record("", "", "", "", "", "")

  /** The text after a labelled line's colon, trimmed. */
  function LabelValue(line: string): string {
    Strip(AfterFirstColon(line))
  }

  /**
   * The colon `split(":", 1)` cuts at is the label's own, so a labelled line's
   * value is the rest of the line after its label, trimmed.
   */
  lemma {:induction false} LabelValueAfterLabel(line: string, k: Kind)
    requires k != Continuation && Classify(line) == k
    ensures |LabelOf(k)| <= |line| && LabelValue(line) == Strip(line[|LabelOf(k)|..])
  {
    ClassifyByPrefix(line, k);
    LabelShape(k);
    AfterLabel(LabelOf(k), line);
  }

  /** `verse_text += " " + piece if verse_text else piece`. */
  function Continue(text: string, piece: string): string {
    if text != "" then text + " " + piece else piece
  }

  /** One turn of `parse_section`'s loop. */
  function ApplyLine(rec: Record, line: string): Record {
    match Classify(line)
    case PageLine => rec.(pageNumber := FirstDigitRun(line))
    case SurahLine => rec.(surahName := LabelValue(line))
    case VerseNumberLine => rec.(verseNumber := FirstDigitRun(line))
    case VerseTextLine => rec.(verseText := LabelValue(line))
    case TranslationLine => rec.(translation := LabelValue(line))
    case ResultLine => rec.(istikharaResult := LabelValue(line))
    case Continuation => rec.(verseText := Continue(rec.verseText, Strip(line)))
  }

  /** The record `parse_section` returns for `section`. */
  function Parse(section: seq<string>): Record {
    if section == [] then Blank
    else ApplyLine(Parse(section[..|section| - 1]), section[|section| - 1])
  }

  /** `parse_section` with its loop over the lines, proved to produce `Parse(section)`. */
  method ParseSection(section: seq<string>) returns (rec: Record)
    ensures rec == Parse(section)
  {
    rec := Blank;
    for i := 0 to |section|
      invariant rec == Parse(section[..i])
    {
      assert section[..i + 1][..i] == section[..i];
      rec := ParseLine(rec, section[i]);
    }
    assert section[..|section|] == section;
  }

  /**
   * One turn of `parse_section`'s loop: the `if`/`elif` chain on the line's
   * label, with the `record[...] =` assignment of each branch as the source
   * writes it; `ApplyLine` is the same step read through `Classify`.
   */
  method ParseLine(rec: Record, line: string) returns (next: Record)
    ensures next == ApplyLine(rec, line)
  {
    if StartsWith(line, PageLabel) {
      next := rec.(pageNumber := FirstDigitRun(line));
    } else if StartsWith(line, SurahLabel) {
      AfterLabel(SurahLabel, line);
      next := rec.(surahName := Strip(AfterFirstColon(line)));
    } else if StartsWith(line, VerseNumberLabel) {
      next := rec.(verseNumber := FirstDigitRun(line));
    } else if StartsWith(line, VerseTextLabel) {
      AfterLabel(VerseTextLabel, line);
      next := rec.(verseText := Strip(AfterFirstColon(line)));
    } else if StartsWith(line, TranslationLabel) {
      AfterLabel(TranslationLabel, line);
      next := rec.(translation := Strip(AfterFirstColon(line)));
    } else if StartsWith(line, ResultLabel) {
      AfterLabel(ResultLabel, line);
      next := rec.(istikharaResult := Strip(AfterFirstColon(line)));
    } else {
      var piece := Strip(line);
      next := rec.(verseText := if rec.verseText != "" then rec.verseText + " " + piece else piece);
    }
  }

  /** Index of the last line of kind `k` in `section`, or -1 when there is none. */
  function LastOf(section: seq<string>, k: Kind): (r: int)
    ensures -1 <= r < |section|
    ensures r >= 0 ==> Classify(section[r]) == k
  {
    if section == [] then -1
    else if Classify(section[|section| - 1]) == k then |section| - 1
    else LastOf(section[..|section| - 1], k)
  }

  /** `LastOf` finds the last line of kind `k`: none comes after it, and there is none at all when it gives -1. */
  lemma {:induction false} LastOfIsLast(section: seq<string>, k: Kind)
    ensures var r := LastOf(section, k);
      forall j :: r < j < |section| ==> Classify(section[j]) != k
    decreases |section|
  {
    if section != [] && Classify(section[|section| - 1]) != k {
      var init := section[..|section| - 1];
      LastOfIsLast(init, k);
      assert forall j :: 0 <= j < |init| ==> init[j] == section[j];
    }
  }

  /** The field that lines of kind `k` set (`verse_text` is treated on its own). */
  function Field(rec: Record, k: Kind): string
    requires k != Continuation && k != VerseTextLine
  {
    match k
    case PageLine => rec.pageNumber
    case SurahLine => rec.surahName
    case VerseNumberLine => rec.verseNumber
    case TranslationLine => rec.translation
    case ResultLine => rec.istikharaResult
  }

  /** The value a line of kind `k` puts in its field: a digit run for the two numbers, the trimmed text after the colon otherwise. */
  function ValueOf(line: string, k: Kind): string
    requires k != Continuation && k != VerseTextLine
    requires Classify(line) == k
  {
    if k == PageLine || k == VerseNumberLine then FirstDigitRun(line) else LabelValue(line)
  }

  /**
   * Page number, surah name, verse number, translation and result: each field
   * is empty when no line carries its label, and otherwise holds the value of
   * the LAST line that does; no other line touches it.
   */
  lemma {:induction false} ParseLabelledField(section: seq<string>, k: Kind)
    requires k != Continuation && k != VerseTextLine
    ensures var last := LastOf(section, k);
      Field(Parse(section), k) == if last < 0 then "" else ValueOf(section[last], k)
    decreases |section|
  {
    if section != [] {
      ParseLabelledField(section[..|section| - 1], k);
    }
  }

  /** The `verse_text` that continuation lines build on top of `text`; other lines leave it alone. */
  function Continued(text: string, lines: seq<string>): string {
    if lines == [] then text
    else
      var before := Continued(text, lines[..|lines| - 1]);
      var line := lines[|lines| - 1];
      if Classify(line) == Continuation then Continue(before, Strip(line)) else before
  }

  /** The value of the last "verse text:" line, or the empty string when there is none. */
  function VerseTextBase(section: seq<string>): string {
    var last := LastOf(section, VerseTextLine);
    if last < 0 then "" else LabelValue(section[last])
  }

  /**
   * `verse_text` is the value of the last "verse text:" line (or empty when
   * there is none) followed by the trimmed continuation lines after it, each
   * joined by one space once the text is non-empty; the continuation lines
   * before that labelled line are discarded.
   */
  lemma {:induction false} ParseVerseText(section: seq<string>)
    ensures Parse(section).verseText ==
      Continued(VerseTextBase(section), section[LastOf(section, VerseTextLine) + 1..])
    decreases |section|, 1
  {
    if section != [] {
      if Classify(section[|section| - 1]) == VerseTextLine {
        VerseTextAtLabel(section);
      } else {
        VerseTextAfterLabel(section);
      }
    }
  }

  /** When the last line is a "verse text:" line, it is the base and nothing follows it. */
  lemma {:induction false} BaseAtLabel(section: seq<string>)
    requires section != [] && Classify(section[|section| - 1]) == VerseTextLine
    ensures LastOf(section, VerseTextLine) == |section| - 1
    ensures VerseTextBase(section) == LabelValue(section[|section| - 1])
  {
  }

  /** The induction step of `ParseVerseText` when the last line is a "verse text:" line. */
  lemma {:induction false} VerseTextAtLabel(section: seq<string>)
    requires section != [] && Classify(section[|section| - 1]) == VerseTextLine
    ensures Parse(section).verseText ==
      Continued(VerseTextBase(section), section[LastOf(section, VerseTextLine) + 1..])
  {
    BaseAtLabel(section);
    assert section[|section|..] == [];
    ApplyLineVerseText(Parse(section[..|section| - 1]), section[|section| - 1]);
  }

  /** The induction step of `ParseVerseText` when the last line is of any other kind. */
  lemma {:induction false} VerseTextAfterLabel(section: seq<string>)
    requires section != [] && Classify(section[|section| - 1]) != VerseTextLine
    ensures Parse(section).verseText ==
      Continued(VerseTextBase(section), section[LastOf(section, VerseTextLine) + 1..])
    decreases |section|, 0
  {
    var init := section[..|section| - 1];
    var line := section[|section| - 1];
    ParseVerseText(init);
    assert Parse(section) == ApplyLine(Parse(init), line);
    ApplyLineVerseText(Parse(init), line);
    VerseTextBaseStep(section);
    ContinuedStep(VerseTextBase(section), section, LastOf(section, VerseTextLine) + 1);
  }

  lemma {:induction false} VerseTextBaseStep(section: seq<string>)
    requires section != [] && Classify(section[|section| - 1]) != VerseTextLine
    ensures var init := section[..|section| - 1];
      LastOf(section, VerseTextLine) == LastOf(init, VerseTextLine) &&
      VerseTextBase(section) == VerseTextBase(init)
  {
    var last := LastOf(section, VerseTextLine);
    assert last < 0 || section[last] == section[..|section| - 1][last];
  }

  /** How one line changes `verse_text`. */
  lemma {:induction false} ApplyLineVerseText(rec: Record, line: string)
    ensures ApplyLine(rec, line).verseText ==
      if Classify(line) == VerseTextLine then LabelValue(line)
      else if Classify(line) == Continuation then Continue(rec.verseText, Strip(line))
      else rec.verseText
  {
  }

  lemma {:induction false} ContinuedStep(start: string, lines: seq<string>, k: nat)
    requires k < |lines|
    ensures var init := lines[..|lines| - 1];
      Continued(start, lines[k..]) ==
        (var before := Continued(start, init[k..]);
         var line := lines[|lines| - 1];
         if Classify(line) == Continuation then Continue(before, Strip(line)) else before)
  {
    var tail := lines[k..];
    assert tail[..|tail| - 1] == lines[..|lines| - 1][k..];
  }

  /** A line without a label that follows a non-empty "verse text:" line is appended after one space. */
  lemma {:induction false} ContinuationAfterVerseText(prefix: seq<string>, labelled: string, line: string)
    requires Classify(labelled) == VerseTextLine && Classify(line) == Continuation
    requires ':' in labelled && LabelValue(labelled) != ""
    ensures Parse(prefix + [labelled, line]).verseText == LabelValue(labelled) + " " + Strip(line)
  {
    var s := prefix + [labelled, line];
    assert s[..|s| - 1] == prefix + [labelled];
    assert (prefix + [labelled])[..|prefix|] == prefix;
  }
}
