# Estekhare Bartar bot: the ingestion and query core

The bot serves istikhara readings from a fixed corpus. A Word document lists
Quran passages one field per line: "page number:", "surah name:",
"verse number:", "verse text:", "translation (Fooladvand):" and
"your istikhara result:", with the "page number:" line opening each passage.
The program does four things with it:

- it cuts the document's lines into sections at every page marker (`split_sections`);
- it folds each section into a six-field record (`parse_section`);
- it stores the records once, into an empty SQLite table (`create_database`);
- it answers two Telegram conversations. One draws a random record for the
  user's intent (`receive_intent`); the other lists the records of a page
  (`receive_page`).

Long texts are sent in messages of at most 4096 characters (`start`,
`continue_handler`).

The Dafny model is split into five modules, one file each:

- `Text` (`text.dfy`) models the Python string operations the code relies on:
  - `str.strip()`;
  - `str.startswith`;
  - `str.isdigit()`;
  - the first `\d+` match;
  - `split(":", 1)[1]`.
- `Corpus` (`corpus.dfy`) has the six labels and the `if`/`elif` label chain. It models:
  - the splitter, as the method `SplitSections`, proved against the specification function `Split`;
  - the parser, as the method `ParseSection`, proved against `Parse`.
  
  Lemmas state what the sections and the fields are.
- `Store` (`store.dfy`) has the class `CorpusStore`. It holds the table's rows
  and its AUTOINCREMENT counter. `IngestIfEmpty` is the count-check-and-insert
  step, proved against the function `Ingested`.
- `Conversation` (`conversation.dfy`) has the two message handlers as
  functions returning the next conversation state (`INTENT`, `SEARCH_PAGE`,
  `END`) and what the reply carries. It also has the two conversations as
  state machines driven by button and message events. `random.choice` is a
  `draw` parameter.
- `Replies` (`replies.dfy`) has the 4096-character chunking and the rule that
  decides which chunk carries the menu.

The Unicode sets are written out:

- `IsSpace` is the set `str.isspace()` accepts.
- `IsDecimalDigit` is what `\d` matches in the digit blocks a Persian document uses.
- `IsDigitChar` is that set plus the superscript, subscript and circled digits
  that `str.isdigit()` also accepts.

## Model

| member | source | states |
|---|---|---|
| Text.StartsWithPrefix | estekhare-bartar-bot.py:62 | `line.startswith(label)` holds exactly when the label is a prefix of the line |
| Text.StripSlice | estekhare-bartar-bot.py:263 | `strip()` returns the slice of the text between its leading and trailing whitespace, and that slice neither starts nor ends with whitespace |
| Text.StripIdempotent | estekhare-bartar-bot.py:99 | stripping again a line the reader already stripped (line 50) changes nothing |
| Text.FirstDigitRun | estekhare-bartar-bot.py:85-86 | `re.search(r"\d+")` gives `""` exactly when the line has no decimal digit; otherwise it gives the maximal run of decimal digits starting at the line's first digit |
| Text.AfterLabel | estekhare-bartar-bot.py:88 | for a line that starts with a label whose only colon is its last character, the line has a colon, so `split(":", 1)[1]` cannot fail, and the part after the first colon is the rest of the line after the label |
| Corpus.LabelsExclusive | estekhare-bartar-bot.py:84-97 | a line that starts with one of the six labels starts with no other |
| Corpus.ClassifyByPrefix | estekhare-bartar-bot.py:84-99 | a line takes the branch of a label in the `elif` chain exactly when it starts with that label, so the order of the chain does not matter |
| Corpus.SplitSections | estekhare-bartar-bot.py:58-70 | the loop over the lines, with its `sections` and `current_section` lists, produces `Split(lines)` |
| Corpus.SplitFlatten | estekhare-bartar-bot.py:58-70 | concatenating the sections gives back exactly the input lines in order, including those before the first marker |
| Corpus.SplitWellShaped | estekhare-bartar-bot.py:61-69 | no section is empty, a marker line only ever opens a section, and every section but the first starts with a marker |
| Corpus.SplitCount | estekhare-bartar-bot.py:61-69 | there is one section per marker, plus one for the lines before the first marker when there are any; empty input gives no section |
| Corpus.SplitWithoutMarker | estekhare-bartar-bot.py:66-69 | non-empty input without a marker comes out as one section holding all the lines |
| Corpus.ParseSection | estekhare-bartar-bot.py:73-102 | the loop that updates the record line by line, starting from six empty fields, produces `Parse(section)` |
| Corpus.ParseLine | estekhare-bartar-bot.py:84-99 | one turn of the `elif` chain sets the field of the line's label, or appends an unlabelled line to `verse_text` |
| Corpus.LabelValueAfterLabel | estekhare-bartar-bot.py:87-97 | the value of a labelled line is the rest of the line after its label, trimmed: the colon that `split(":", 1)` cuts at is the label's own |
| Corpus.LastOfIsLast | estekhare-bartar-bot.py:83-99 | `LastOf` finds the last line with a given label: none comes after it, and it gives -1 only when no line has the label |
| Corpus.ParseLabelledField | estekhare-bartar-bot.py:74-97 | page number, surah name, verse number, translation and result are each `""` when no line carries their label; otherwise each holds the value of the last line that does, a digit run for the two numbers and the trimmed text after the colon for the others |
| Corpus.ParseVerseText | estekhare-bartar-bot.py:92-99 | `verse_text` is the value of the last "verse text:" line (`""` without one), followed by the trimmed unlabelled lines after it, joined by one space once the text is non-empty; unlabelled lines before that line are lost |
| Corpus.ContinuationAfterVerseText | estekhare-bartar-bot.py:92-99 | an unlabelled line right after a non-empty "verse text:" line is appended after exactly one space |
| Store.ParseAll | estekhare-bartar-bot.py:138 | the loop gives one record per section, each the parse of its section, in order |
| Store.IngestedRows | estekhare-bartar-bot.py:129-150 | ingestion changes the table exactly when it was empty and the reader returned lines; then the table holds one row per section with that section's record, in section order, with strictly increasing positive ids |
| Store.IngestTwice | estekhare-bartar-bot.py:129-136 | once the table is non-empty, or was filled by a call, every later ingestion leaves it as it is, whatever the document then holds |
| Store.IngestedPageNumbers | estekhare-bartar-bot.py:84-86 | every page number that ingestion stores is `""` or decimal digits only |
| Store.CorpusStore.Create | estekhare-bartar-bot.py:117-127 | a newly created table has no rows, and its first id will be 1 |
| Store.CorpusStore.Open | estekhare-bartar-bot.py:114-127 | opening a database file that already holds the table keeps its rows and its counter as they were |
| Store.CorpusStore.Insert | estekhare-bartar-bot.py:140-149 | one insert appends the record under the next id and advances the counter |
| Store.CorpusStore.InsertAll | estekhare-bartar-bot.py:139-150 | the insert loop appends the records in order, numbered from the counter's old value, and keeps the ids increasing |
| Store.CorpusStore.IngestIfEmpty | estekhare-bartar-bot.py:129-150 | the count check, the early return on no lines, the split, the parse and the insert loop leave the table as `Ingested` of the old table and the lines |
| Conversation.FindByPage | estekhare-bartar-bot.py:273 | the query returns exactly the rows whose page number equals the text, compared as strings, and it is empty exactly when no row has that page number |
| Conversation.FindByPageOrdered | estekhare-bartar-bot.py:273-274 | the matching rows come in table order: their ids still increase |
| Conversation.ReceivePage | estekhare-bartar-bot.py:262-303 | text that fails `isdigit` once trimmed keeps `SEARCH_PAGE` and queries nothing; otherwise the state is `END` and the reply is "not found" for that page or the non-empty list of matches |
| Conversation.PageLookup | estekhare-bartar-bot.py:263-286 | a valid page number ends the search; a row is listed exactly when its page number is the trimmed text, the list keeps table order, and no match is the ordinary "not found" answer |
| Conversation.NonDecimalPageNotFound | estekhare-bartar-bot.py:264-286 | text with a superscript or other non-decimal digit passes `isdigit`, but over ingested rows it always ends with "not found" |
| Conversation.ReceiveIntent | estekhare-bartar-bot.py:204-249 | a blank trimmed intent keeps `INTENT` and asks again; otherwise an empty table ends with the empty-database message, and a non-empty one ends with a reading of the trimmed intent and a row of the table |
| Conversation.EveryRowCanBeDrawn | estekhare-bartar-bot.py:225 | every row of the table is the reading for some outcome of the random pick |
| Conversation.IntentStep | estekhare-bartar-bot.py:347-353 | the intent conversation leaves `END` only by the intent button, into `INTENT`, and never enters `SEARCH_PAGE`; in `INTENT` it ends exactly on "cancel" or a non-blank message; a command message leaves its state unchanged |
| Conversation.SearchStep | estekhare-bartar-bot.py:355-361 | the search conversation leaves `END` only by the search button, into `SEARCH_PAGE`, and never enters `INTENT`; in `SEARCH_PAGE` it ends exactly on "cancel" or a message whose trimmed text passes `isdigit`; a command message leaves its state unchanged |
| Conversation.IntentStaysOut | estekhare-bartar-bot.py:347-353 | the intent conversation, driven by any events, never reaches `SEARCH_PAGE` |
| Conversation.SearchStaysOut | estekhare-bartar-bot.py:355-361 | the search conversation, driven by any events, never reaches `INTENT` |
| Conversation.BlankIntentsWait | estekhare-bartar-bot.py:205-208 | blank messages keep the intent conversation waiting, and the first non-blank one ends it |
| Conversation.InvalidPagesWait | estekhare-bartar-bot.py:263-266 | messages failing the digit check keep the search waiting, and the first one that passes ends it |
| Conversation.TwoSectionDocument | estekhare-bartar-bot.py:58-154 | a two-section document ingested into a new table gives rows 1 and 2 with their page numbers and the trimmed surah name, and asking for the first page answers with the first row alone |
| Replies.Chunks | estekhare-bartar-bot.py:173 | the chunk list is empty exactly for the empty text; every chunk has 1 to 4096 characters, and all but the last have exactly 4096 |
| Replies.ChunksConcat | estekhare-bartar-bot.py:173 | the chunks, sent one after the other, make up the whole text unchanged |
| Replies.ChunkCount | estekhare-bartar-bot.py:186 | there is one chunk per started block of 4096 characters |
| Replies.LastChunkFull | estekhare-bartar-bot.py:173 | the last chunk has 4096 characters exactly when the text's length is a multiple of 4096 |
| Replies.ChunkAt | estekhare-bartar-bot.py:173 | the k-th chunk is the slice `s[4096k:4096k+4096]`, clipped to the text, and it starts inside the text |
| Replies.LastWindow | estekhare-bartar-bot.py:176 | `s[-4096:]` is the last 4096 characters of the text, or the whole text when it is shorter |
| Replies.MenuFlags | estekhare-bartar-bot.py:176 | as written (also at line 189), one flag per step of `range(0, len(s), 4096)`; flag k is set exactly when the slice taken at step 4096k equals `s[-4096:]` |
| Replies.FinalChunkMenu | estekhare-bartar-bot.py:176 | as written, the final chunk gets the menu exactly when the text fits in one message or its length is a multiple of 4096 |
| Replies.MenuOnWrongChunk | estekhare-bartar-bot.py:176 | with 4097 copies of one character, the menu goes on the first message and not on the last |
| Replies.MenuMissing | estekhare-bartar-bot.py:189 | with one 'x' followed by 4096 'y's, no message gets the menu |
| Replies.MenuTwice | estekhare-bartar-bot.py:189 | with 8192 copies of one character, both messages get the menu |
| Replies.IntendedMenuOnce | estekhare-bartar-bot.py:176 | under the intended rule, a non-empty text gets the menu exactly once, on the chunk that completes the text |
| Replies.ShortTextAsIntended | estekhare-bartar-bot.py:176 | for a text of at most 4096 characters, the rule as written and the intended rule agree |

## Left out

- The Telegram transport, the keyboards and the wording of replies are not modelled. Replies are reduced to what they carry.
- `history_handler`, `main_menu` and `error_handler` are not modelled. They decide nothing about the corpus.
- How Telegram marks a message as a bot command is not modelled. A command is its own event (`Command`), which both conversations ignore, as `~filters.COMMAND` makes them (estekhare-bartar-bot.py:350, 358).
- Reading the `.docx` files (`read_docx`, `read_docx_for_db`) is external I/O. The reader's output is a parameter of `IngestIfEmpty`: the already trimmed non-empty lines, or an empty sequence when the file is missing or unreadable.
- SQLite I/O is not modelled. This covers connecting, the file path, creating the directory, commit and close. The table is the `CorpusStore` object.
- The exception branches around database access (estekhare-bartar-bot.py:229-230, 277-279) are not modelled. They fire only on I/O failure.
- `SELECT` has no `ORDER BY`. The model assumes the table returns rows in insertion order, which is what SQLite does for a table filled by appends.
- Conversation.ReceiveIntent: models only that the pick is a row of the table. It does not model the uniformity of `random.choice`. The pick is the row at a given `draw` modulo the number of rows.
- Timestamps, `print` debugging and the `TOKEN` configuration are not modelled. They are clock, console and environment.
- The `try`/`except` around the parsing loop (estekhare-bartar-bot.py:82, 100-101) is not modelled. It cannot fire: every labelled line holds its label's colon (`Text.AfterLabel`), so `split(":", 1)[1]` always exists.
- Text.AfterFirstColon: defined as the empty string for a line without a colon. Only labelled lines reach it, and they always hold a colon, so the case never arises.
- Text.IsDecimalDigit and Text.IsDigitChar: cover ASCII, Arabic-Indic, Extended Arabic-Indic, Devanagari and fullwidth digits, and not every Unicode digit block. Text.IsSpace covers the whitespace `str.isspace()` accepts.
- Lines before the first page marker are kept as a first section, as `split_sections` does (estekhare-bartar-bot.py:61-69).
- The routing between the two conversations is not modelled. Both handlers sit in the same handler group, and the intent conversation is registered first (estekhare-bartar-bot.py:364-365). So while both wait, a text message or a "cancel" press reaches only the intent conversation, and the search conversation stays in `SEARCH_PAGE`. The model runs each conversation on its own events (`RunIntent`, `RunSearch`).

## Findings

| source | as written | input that shows it | evidently intended | confidence | as-written member | corrected member |
|---|---|---|---|---|---|---|
| estekhare-bartar-bot.py:176, estekhare-bartar-bot.py:189 | the menu keyboard is attached to every chunk equal to the text's last 4096 characters (`chunk == s[-4096:]`) | 4097 copies of one character put the menu on the first of the two messages and not on the last; one 'x' and 4096 'y's give no menu at all; 8192 copies of one character give the menu twice | the menu goes on the final chunk only, exactly once | not executed | Replies.MenuOnWrongChunk | Replies.IntendedMenuOnce |
