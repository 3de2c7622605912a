/**
 * The `istikhara` table and the count-check-and-insert step of
 * `create_database`: the table is filled from the document only while it is
 * empty, one row per section, in section order, with increasing ids.
 */
module Store {
  import opened Corpus

  /** A table row: the AUTOINCREMENT id and the six text columns. */
  datatype Row = Row(id: int, record: Record)

  /** The table's rows in insertion order and the id the next insert receives. */
  datatype Table = Table(rows: seq<Row>, nextId: int)

  /** Ids grow strictly along the row sequence. */
  predicate IdsIncreasing(rows: seq<Row>) {
    forall i, j :: 0 <= i < j < |rows| ==> rows[i].id < rows[j].id
  }

  /** Ids are positive, increase with insertion order and stay below the next id to hand out. */
  predicate WellFormed(t: Table) {
    IdsIncreasing(t.rows) && 1 <= t.nextId &&
    forall i :: 0 <= i < |t.rows| ==> 1 <= t.rows[i].id < t.nextId
  }

  /** `[parse_section(section) for section in sections]` */
  function Records(sections: seq<seq<string>>): (r: seq<Record>)
    ensures |r| == |sections|
    ensures forall i :: 0 <= i < |sections| ==> r[i] == Parse(sections[i])
  {
    seq(|sections|, i requires 0 <= i < |sections| => Parse(sections[i]))
  }

  /** The rows that inserting `records` in order creates, the first one receiving id `first`. */
  function Numbered(records: seq<Record>, first: int): (r: seq<Row>)
    ensures |r| == |records|
    ensures forall i :: 0 <= i < |records| ==> r[i] == Row(first + i, records[i])
  {
    seq(|records|, i requires 0 <= i < |records| => Row(first + i, records[i]))
  }

  /**
   * The table after the count-check-and-insert step, given the lines the
   * document reader returned (an empty sequence when the document is missing
   * or unreadable).
   */
  function Ingested(t: Table, lines: seq<string>): Table {
    if |t.rows| != 0 || lines == [] then t
    else
      var sections := Split(lines);
      Table(Numbered(Records(sections), t.nextId), t.nextId + |sections|)
  }

  /** Numbering one more record appends one row, under the next id. */
  lemma {:induction false} NumberedSnoc(records: seq<Record>, first: int, k: nat)
    requires k < |records|
    ensures Numbered(records[..k + 1], first) == Numbered(records[..k], first) + [Row(first + k, records[k])]
  {
    assert records[..k + 1] == records[..k] + [records[k]];
  }

  /**
   * Ingesting changes the table exactly when it was empty and the reader gave
   * lines; then there is one row per section, holding that section's record,
   * in section order, with strictly increasing ids, and the result is well formed.
   */
  lemma {:induction false} IngestedRows(t: Table, lines: seq<string>)
    requires WellFormed(t)
    ensures var u := Ingested(t, lines);
      WellFormed(u) &&
      (u == t <==> |t.rows| != 0 || lines == []) &&
      (u != t ==>
        var sections := Split(lines);
        |u.rows| == |sections| &&
        (forall i :: 0 <= i < |sections| ==> u.rows[i].record == Parse(sections[i])))
  {
    if |t.rows| == 0 && lines != [] {
      SplitCount(lines);
      assert Ingested(t, lines).rows != [];
    }
  }

  /**
   * Once a call has inserted rows (or found some), every later call is a
   * no-op, whatever the document then says.
   */
  lemma {:induction false} IngestTwice(t: Table, first: seq<string>, second: seq<string>)
    requires |t.rows| != 0 || first != []
    ensures Ingested(Ingested(t, first), second) == Ingested(t, first)
  {
    if |t.rows| == 0 {
      SplitCount(first);
    }
  }

  /**
   * Every stored page number is what the digit search returns: empty, or
   * decimal digits only.
   */
  predicate PageNumbersDecimal(rows: seq<Row>) {
    forall i :: 0 <= i < |rows| ==>
      forall k :: 0 <= k < |rows[i].record.pageNumber| ==> Text.IsDecimalDigit(rows[i].record.pageNumber[k])
  }

  lemma {:induction false} ParsedPageNumberDecimal(section: seq<string>)
    ensures forall k :: 0 <= k < |Parse(section).pageNumber| ==> Text.IsDecimalDigit(Parse(section).pageNumber[k])
  {
    ParseLabelledField(section, PageLine);
  }

  /** A table filled by ingestion only holds decimal page numbers. */
  lemma {:induction false} IngestedPageNumbers(t: Table, lines: seq<string>)
    requires PageNumbersDecimal(t.rows)
    ensures PageNumbersDecimal(Ingested(t, lines).rows)
  {
    if |t.rows| == 0 && lines != [] {
      var sections := Split(lines);
      forall i | 0 <= i < |sections| {
        ParsedPageNumberDecimal(sections[i]);
      }
    }
  }

  /** `records = [parse_section(section) for section in sections]`, section by section. */
  method ParseAll(sections: seq<seq<string>>) returns (records: seq<Record>)
    ensures |records| == |sections|
    ensures forall i :: 0 <= i < |sections| ==> records[i] == Parse(sections[i])
  {
    records := [];
    for i := 0 to |sections|
      invariant |records| == i
      invariant forall j :: 0 <= j < i ==> records[j] == Parse(sections[j])
    {
      var record := ParseSection(sections[i]);
      records := records + [record];
    }
  }

  /**
   * The SQLite file: the `istikhara` table as a sequence of rows and the
   * AUTOINCREMENT counter.
   */
  class CorpusStore {
    var rows: seq<Row>
    var nextId: int

    function State(): Table
      reads this
    {
      Table(rows, nextId)
    }

    ghost predicate Valid()
      reads this
    {
      WellFormed(State())
    }

    /** `CREATE TABLE IF NOT EXISTS` on a new database file: no rows, ids start at 1. */
    constructor Create()
      ensures Valid() && State() == Table([], 1)
    {
      rows := [];
      nextId := 1;
    }

    /** `CREATE TABLE IF NOT EXISTS` on a database file that already holds the table. */
    constructor Open(persisted: Table)
      requires WellFormed(persisted)
      ensures Valid() && State() == persisted
    {
      rows := persisted.rows;
      nextId := persisted.nextId;
    }

    /** One `INSERT INTO istikhara`: the record is appended under the next id. */
    method Insert(record: Record) returns (id: int)
      requires Valid()
      modifies this
      ensures Valid()
      ensures id == old(nextId)
      ensures State() == Table(old(rows) + [Row(id, record)], old(nextId) + 1)
    {
      id := nextId;
      rows := rows + [Row(id, record)];
      nextId := nextId + 1;
    }

    /** `for record in records: cursor.execute("INSERT INTO istikhara ...", record)` */
    method InsertAll(records: seq<Record>)
      requires Valid()
      modifies this
      ensures Valid()
      ensures State() == Table(old(rows) + Numbered(records, old(nextId)), old(nextId) + |records|)
    {
      ghost var start := rows;
      var first := nextId;
      for k := 0 to |records|
        invariant Valid()
        invariant State() == Table(start + Numbered(records[..k], first), first + k)
      {
        NumberedSnoc(records, first, k);
        var _ := Insert(records[k]);
      }
      assert records[..|records|] == records;
    }

    /**
     * The count-check-and-insert step of `create_database`, given the lines
     * the document reader returned.
     */
    method IngestIfEmpty(lines: seq<string>)
      requires Valid()
      modifies this
      ensures Valid()
      ensures State() == Ingested(old(State()), lines)
    {
      if |rows| != 0 {
        return;
      }
      if lines == [] {
        return;
      }
      var sections := SplitSections(lines);
      var records := ParseAll(sections);
      assert records == Records(sections);
      InsertAll(records);
      assert rows == [] + Numbered(records, old(nextId));
    }
  }
}
