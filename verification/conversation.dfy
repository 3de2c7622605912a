/**
 * The decisions of the two conversations: the intent conversation
 * (`intent_handler`, `receive_intent`) and the page search conversation
 * (`search_handler`, `receive_page`), with the `cancel` fallback. Each
 * handler's return value is the conversation state it moves to; the replies
 * are reduced to what they carry.
 */
module Conversation {
  import opened Text
  import opened Corpus
  import opened Store

  /** `INTENT`, `SEARCH_PAGE` and `ConversationHandler.END`. */
  datatype ConvState = Intent | SearchPage | End

  /** A handler's outcome: the next state and the reply it sends. */
  datatype Step<R> = Step(state: ConvState, reply: R)

  datatype PageReply =
    | InvalidPage                  // "please write a valid page number"
    | NoRecords(page: string)      // "no record found for page ..."
    | Found(rows: seq<Row>)        // the matching rows, one block each

  datatype IntentReply =
    | AskIntent                    // "please write your intent"
    | EmptyDatabase                // "error: the database is empty"
    | Reading(intent: string, row: Row)

  /** `SELECT * FROM istikhara WHERE page_number = ?`: exact string equality, table order. */
  function FindByPage(rows: seq<Row>, page: string): (r: seq<Row>)
    ensures |r| <= |rows|
    ensures forall x :: x in r <==> x in rows && x.record.pageNumber == page
    ensures r == [] <==> forall x :: x in rows ==> x.record.pageNumber != page
  {
    if rows == [] then []
    else
      var front := FindByPage(rows[..|rows| - 1], page);
      var last := rows[|rows| - 1];
      assert rows == rows[..|rows| - 1] + [last];
      if last.record.pageNumber == page then front + [last] else front
  }

  /** The matches keep the table's order: their ids still increase. */
  lemma {:induction false} FindByPageOrdered(rows: seq<Row>, page: string)
    requires IdsIncreasing(rows)
    ensures IdsIncreasing(FindByPage(rows, page))
    decreases |rows|
  {
    if rows != [] {
      var init := rows[..|rows| - 1];
      var last := rows[|rows| - 1];
      assert IdsIncreasing(init);
      FindByPageOrdered(init, page);
      var front := FindByPage(init, page);
      if last.record.pageNumber == page {
        var r := front + [last];
        forall i, j | 0 <= i < j < |r|
          ensures r[i].id < r[j].id
        {
          if j == |front| {
            assert r[i] == front[i] && front[i] in front;
            var k :| 0 <= k < |init| && init[k] == r[i];
            assert rows[k] == init[k];
          } else {
            assert r[i] == front[i] && r[j] == front[j];
          }
        }
        assert FindByPage(rows, page) == r;
      }
    }
  }

  /** `receive_page`: validate the trimmed text with `isdigit`, then look the page up. */
  function ReceivePage(text: string, rows: seq<Row>): (r: Step<PageReply>)
    ensures var page := Strip(text);
      (r.state == SearchPage <==> !IsDigits(page)) &&
      (r.state == SearchPage ==> r.reply == InvalidPage) &&
      (r.state != SearchPage ==> r.state == End) &&
      (r.state == End ==> r.reply.NoRecords? || r.reply.Found?) &&
      (r.reply.NoRecords? ==> r.reply.page == page && forall x :: x in rows ==> x.record.pageNumber != page) &&
      (r.reply.Found? ==> r.reply.rows != [] && r.reply.rows == FindByPage(rows, page))
  {
    var page := Strip(text);
    if !IsDigits(page) then Step(SearchPage, InvalidPage)
    else
      var matches := FindByPage(rows, page);
      if matches == [] then Step(End, NoRecords(page)) else Step(End, Found(matches))
  }

  /**
   * A valid page number ends the search and answers with exactly the rows
   * whose stored page number is that very string, in table order; no row
   * matching is the ordinary "not found" answer.
   */
  lemma {:induction false} PageLookup(text: string, rows: seq<Row>, x: Row)
    requires IsDigits(Strip(text)) && IdsIncreasing(rows)
    ensures var r := ReceivePage(text, rows);
      r.state == End &&
      (r.reply.NoRecords? || r.reply.Found?) &&
      (x in rows && x.record.pageNumber == Strip(text) <==> r.reply.Found? && x in r.reply.rows) &&
      (r.reply.Found? ==> IdsIncreasing(r.reply.rows))
  {
    FindByPageOrdered(rows, Strip(text));
  }

  /**
   * `isdigit` also lets superscript and other non-decimal digits through, but
   * ingested page numbers only hold decimal digits, so such a request always
   * ends with "not found".
   */
  lemma {:induction false} NonDecimalPageNotFound(text: string, rows: seq<Row>, k: nat)
    requires IsDigits(Strip(text)) && k < |Strip(text)| && !IsDecimalDigit(Strip(text)[k])
    requires PageNumbersDecimal(rows)
    ensures ReceivePage(text, rows) == Step(End, NoRecords(Strip(text)))
  {
    var page := Strip(text);
    forall x | x in rows
      ensures x.record.pageNumber != page
    {
      var i :| 0 <= i < |rows| && rows[i] == x;
      assert k >= |x.record.pageNumber| || IsDecimalDigit(x.record.pageNumber[k]);
    }
  }

  /**
   * `receive_intent`: a blank message asks again; otherwise an empty table
   * ends the conversation with the empty-database message, and a non-empty
   * one with a reading of one of its rows. `random.choice` is the `draw`
   * parameter: the row at `draw` modulo the number of rows.
   */
  function ReceiveIntent(text: string, rows: seq<Row>, draw: nat): (r: Step<IntentReply>)
    ensures var intent := Strip(text);
      (r.state == Intent <==> intent == "") &&
      (r.state == Intent ==> r.reply == AskIntent) &&
      (intent != "" && rows == [] ==> r == Step(End, EmptyDatabase)) &&
      (intent != "" && rows != [] ==>
        r.state == End && r.reply.Reading? && r.reply.intent == intent && r.reply.row in rows)
  {
    var intent := Strip(text);
    if intent == "" then Step(Intent, AskIntent)
    else if rows == [] then Step(End, EmptyDatabase)
    else Step(End, Reading(intent, rows[draw % |rows|]))
  }

  /** Every row of a non-empty table is the reading for some draw. */
  lemma {:induction false} EveryRowCanBeDrawn(text: string, rows: seq<Row>, x: Row)
    requires Strip(text) != "" && x in rows
    ensures exists draw: nat :: ReceiveIntent(text, rows, draw) == Step(End, Reading(Strip(text), x))
  {
    var i :| 0 <= i < |rows| && rows[i] == x;
    assert i % |rows| == i;
    assert ReceiveIntent(text, rows, i) == Step(End, Reading(Strip(text), x));
  }

  // ---------------------------------------------------------------------------
  // The two conversations as state machines
  // ---------------------------------------------------------------------------

  /**
   * What the user does: press one of the inline buttons, send a text message,
   * or send a bot command such as "/help", which `~filters.COMMAND` keeps away
   * from the state handlers.
   */
  datatype Event = IntentButton | SearchButton | CancelButton | Message(text: string) | Command(text: string)

  /**
   * The intent conversation: the "intent" button opens it, a message in
   * `INTENT` goes to `receive_intent`, "cancel" ends it; anything else is not
   * handled by it and leaves its state as it was.
   */
  function IntentStep(s: ConvState, e: Event, rows: seq<Row>, draw: nat): (r: ConvState)
    ensures s != SearchPage ==> r != SearchPage
    ensures s == End ==> (r == Intent <==> e == IntentButton)
    ensures s == Intent ==> (r == End <==> e == CancelButton || (e.Message? && Strip(e.text) != ""))
    ensures e.Command? ==> r == s
  {
    match (s, e)
    case (End, IntentButton) => Intent
    case (Intent, Message(text)) => ReceiveIntent(text, rows, draw).state
    case (Intent, CancelButton) => End
    case _ => s
  }

  /** The page search conversation, the same way round with `receive_page`. */
  function SearchStep(s: ConvState, e: Event, rows: seq<Row>): (r: ConvState)
    ensures s != Intent ==> r != Intent
    ensures s == End ==> (r == SearchPage <==> e == SearchButton)
    ensures s == SearchPage ==> (r == End <==> e == CancelButton || (e.Message? && IsDigits(Strip(e.text))))
    ensures e.Command? ==> r == s
  {
    match (s, e)
    case (End, SearchButton) => SearchPage
    case (SearchPage, Message(text)) => ReceivePage(text, rows).state
    case (SearchPage, CancelButton) => End
    case _ => s
  }

  /** The intent conversation's state after a run of events, one draw per event. */
  function RunIntent(s: ConvState, events: seq<Event>, rows: seq<Row>, draws: seq<nat>): ConvState
    requires |draws| == |events|
    decreases events
  {
    if events == [] then s
    else RunIntent(IntentStep(s, events[0], rows, draws[0]), events[1..], rows, draws[1..])
  }

  function RunSearch(s: ConvState, events: seq<Event>, rows: seq<Row>): ConvState
    decreases events
  {
    if events == [] then s
    else RunSearch(SearchStep(s, events[0], rows), events[1..], rows)
  }

  /** The intent conversation never enters the page search state. */
  lemma {:induction false} IntentStaysOut(s: ConvState, events: seq<Event>, rows: seq<Row>, draws: seq<nat>)
    requires |draws| == |events| && s != SearchPage
    ensures RunIntent(s, events, rows, draws) != SearchPage
    decreases events
  {
    if events != [] {
      IntentStaysOut(IntentStep(s, events[0], rows, draws[0]), events[1..], rows, draws[1..]);
    }
  }

  /** The search conversation never enters the intent state. */
  lemma {:induction false} SearchStaysOut(s: ConvState, events: seq<Event>, rows: seq<Row>)
    requires s != Intent
    ensures RunSearch(s, events, rows) != Intent
    decreases events
  {
    if events != [] {
      SearchStaysOut(SearchStep(s, events[0], rows), events[1..], rows);
    }
  }

  /**
   * While awaiting an intent, any number of blank messages keep the
   * conversation waiting, and the first non-blank one ends it.
   */
  lemma {:induction false} BlankIntentsWait(blanks: seq<Event>, text: string, rows: seq<Row>, draws: seq<nat>)
    requires forall i :: 0 <= i < |blanks| ==> blanks[i].Message? && Strip(blanks[i].text) == ""
    requires Strip(text) != "" && |draws| == |blanks| + 1
    ensures RunIntent(Intent, blanks, rows, draws[..|blanks|]) == Intent
    ensures RunIntent(Intent, blanks + [Message(text)], rows, draws) == End
    decreases blanks
  {
    var events := blanks + [Message(text)];
    if blanks == [] {
      assert events[1..] == [];
    } else {
      assert events[1..] == blanks[1..] + [Message(text)];
      assert draws[..|blanks|][1..] == draws[1..][..|blanks| - 1];
      BlankIntentsWait(blanks[1..], text, rows, draws[1..]);
    }
  }

  /**
   * While awaiting a page number, messages that fail the digit check keep the
   * conversation waiting, and the first one that passes ends it.
   */
  lemma {:induction false} InvalidPagesWait(invalid: seq<Event>, text: string, rows: seq<Row>)
    requires forall i :: 0 <= i < |invalid| ==> invalid[i].Message? && !IsDigits(Strip(invalid[i].text))
    requires IsDigits(Strip(text))
    ensures RunSearch(SearchPage, invalid, rows) == SearchPage
    ensures RunSearch(SearchPage, invalid + [Message(text)], rows) == End
    decreases invalid
  {
    var events := invalid + [Message(text)];
    if invalid == [] {
      assert events[1..] == [];
      assert ReceivePage(text, rows).state == End;
    } else {
      assert events[1..] == invalid[1..] + [Message(text)];
      assert ReceivePage(invalid[0].text, rows).state == SearchPage;
      assert SearchStep(SearchPage, events[0], rows) == SearchPage;
      InvalidPagesWait(invalid[1..], text, rows);
    }
  }

  // ---------------------------------------------------------------------------
  // End to end
  // ---------------------------------------------------------------------------

  /** A marker line "page number: d" for one decimal digit d yields the page number "d". */
  lemma {:induction false} DigitsAfterPageLabel(d: string)
    requires OneDigit(d)
    ensures FirstDigitRun(PageLabel + " " + d) == d
  {
    var line := PageLabel + " " + d;
    assert forall i :: 0 <= i < 12 ==> !IsDecimalDigit(line[i]) by {
      assert forall i :: 0 <= i < 11 ==> line[i] == PageLabel[i];
    }
    assert line[12] == d[0];
    assert DigitFrom(line, 0) == 12;
    assert line[12..] == d;
  }

  /** One decimal digit, as a string. */
  predicate OneDigit(d: string) {
    |d| == 1 && IsDecimalDigit(d[0])
  }

  /** A two-section document: "page `p`", "surah `surah`", then "page `q`". */
  function Sample(p: string, surah: string, q: string): seq<string> {
    [PageLabel + " " + p, SurahLabel + " " + surah, PageLabel + " " + q]
  }

  lemma {:induction false} SampleSplit(p: string, surah: string, q: string)
    ensures var lines := Sample(p, surah, q);
      Split(lines) == [[lines[0], lines[1]], [lines[2]]]
  {
    var lines := Sample(p, surah, q);
    var first := [lines[0], lines[1]];
    StartsWithPrefix(lines[1], SurahLabel);
    StartsWithPrefix(lines[2], PageLabel);
    assert StartsWith(lines[1], SurahLabel);
    ClassifyByPrefix(lines[1], SurahLine);
    assert !IsMarker(lines[1]);
    assert StartsWith(lines[2], PageLabel);
    assert lines[..1][..0] == [];
    assert Split(lines[..1]) == [[lines[0]]];
    var two := lines[..2];
    assert two[..|two| - 1] == lines[..1] && two[|two| - 1] == lines[1];
    assert [lines[0]] + [lines[1]] == first;
    assert Split(two) == [[lines[0]]][..0] + [[lines[0]] + [lines[1]]] == [first];
    assert lines[..2] == lines[..|lines| - 1];
  }

  lemma {:induction false} SampleParse(p: string, surah: string, q: string)
    requires OneDigit(p) && OneDigit(q)
    ensures var lines := Sample(p, surah, q);
      Parse([lines[0], lines[1]]) == Blank.(pageNumber := p, surahName := Strip(surah)) &&
      Parse([lines[2]]) == Blank.(pageNumber := q)
  {
    var lines := Sample(p, surah, q);
    StartsWithPrefix(lines[0], PageLabel);
    StartsWithPrefix(lines[2], PageLabel);
    assert StartsWith(lines[0], PageLabel) && StartsWith(lines[2], PageLabel);
    DigitsAfterPageLabel(p);
    DigitsAfterPageLabel(q);
    assert [lines[0]][..0] == [] && [lines[2]][..0] == [];
    assert Parse([lines[0]]) == ApplyLine(Blank, lines[0]);
    assert Parse([lines[2]]) == ApplyLine(Blank, lines[2]);
    var first := [lines[0], lines[1]];
    assert first[..1] == [lines[0]];
    SurahValue(surah);
    assert Parse(first) == ApplyLine(Parse([lines[0]]), lines[1]);
  }

  /** The surah line "surah name: s" gives the surah name `s`, trimmed. */
  lemma {:induction false} SurahValue(surah: string)
    ensures var line := SurahLabel + " " + surah;
      Classify(line) == SurahLine && LabelValue(line) == Strip(surah)
  {
    var line := SurahLabel + " " + surah;
    StartsWithPrefix(line, SurahLabel);
    ClassifyByPrefix(line, SurahLine);
    AfterLabel(SurahLabel, line);
    assert AfterFirstColon(line) == " " + surah;
    assert (" " + surah)[1..] == surah;
    TrimStartSpace(' ', surah);
    assert " " + surah == [' '] + surah;
  }

  lemma {:induction false} SampleTable(p: string, surah: string, q: string)
    requires OneDigit(p) && OneDigit(q)
    ensures Ingested(Table([], 1), Sample(p, surah, q)) ==
      Table([Row(1, Blank.(pageNumber := p, surahName := Strip(surah))), Row(2, Blank.(pageNumber := q))], 3)
  {
    var lines := Sample(p, surah, q);
    SampleSplit(p, surah, q);
    SampleParse(p, surah, q);
    var sections := Split(lines);
    var records := Records(sections);
    assert records == [Parse(sections[0]), Parse(sections[1])];
    assert Ingested(Table([], 1), lines) == Table(Numbered(records, 1), 3);
  }

  /** A one-digit page number that some row holds is answered with the matching rows. */
  lemma {:induction false} OneDigitPageFound(d: string, rows: seq<Row>)
    requires OneDigit(d) && FindByPage(rows, d) != []
    ensures ReceivePage(d, rows) == Step(End, Found(FindByPage(rows, d)))
  {
    assert !IsSpace(d[0]);
    assert Strip(d) == d;
  }

  /** In a two-row table where only the first row holds page `d`, asking for `d` finds that row alone. */
  lemma {:induction false} FirstOfTwoFound(d: string, a: Row, b: Row)
    requires OneDigit(d) && a.record.pageNumber == d && b.record.pageNumber != d
    ensures ReceivePage(d, [a, b]) == Step(End, Found([a]))
  {
    var rows := [a, b];
    assert rows[..1] == [a] && rows[..1][..0] == [];
    assert FindByPage(rows[..1], d) == [a];
    assert FindByPage(rows, d) == [a];
    OneDigitPageFound(d, rows);
  }

  /**
   * Ingesting a two-section document into an empty table gives two rows,
   * ids 1 and 2, with the two page numbers and the trimmed surah name;
   * looking up the first page answers with the first row alone.
   */
  lemma {:induction false} TwoSectionDocument(p: string, surah: string, q: string)
    requires OneDigit(p) && OneDigit(q) && p != q
    ensures var t := Ingested(Table([], 1), Sample(p, surah, q));
      |t.rows| == 2 && t.nextId == 3 &&
      t.rows[0].id == 1 && t.rows[0].record.pageNumber == p && t.rows[0].record.surahName == Strip(surah) &&
      t.rows[1].id == 2 && t.rows[1].record.pageNumber == q &&
      ReceivePage(p, t.rows) == Step(End, Found([t.rows[0]]))
  {
    SampleTable(p, surah, q);
    var rows := Ingested(Table([], 1), Sample(p, surah, q)).rows;
    FirstOfTwoFound(p, rows[0], rows[1]);
  }
}
