/** The CSV export of converter.py: the header line is the keys of the first
    record joined by commas, each record gives one line of its values, and
    the lines are joined by newlines. Values are written with Python's
    `str` and neither quoted nor escaped. Reading the records from disk is
    replaced by the list of records.
 */
module Converter {
  import opened Results
  import opened Text
  import opened Json

  /** `",".join(record.keys())`. */
  function Header(r: Record): string {
    Join(Keys(r), ",")
  }

  /** `str(value)` for each value of a record, in key order. */
  function Fields(r: Record): (fs: seq<string>)
    ensures |fs| == |r|
    ensures forall i :: 0 <= i < |r| ==> fs[i] == Show(r[i].1)
  {
    seq(|r|, i requires 0 <= i < |r| => Show(r[i].1))
  }

  /** `",".join(str(value) for value in record.values())`. */
  function Row(r: Record): string {
    Join(Fields(r), ",")
  }

  /** The header of the first record, then one row per record. */
  function Lines(records: seq<Record>): (ls: seq<string>)
    requires |records| > 0
    ensures |ls| == 1 + |records|
    ensures ls[0] == Header(records[0])
    ensures forall i :: 0 <= i < |records| ==> ls[i + 1] == Row(records[i])
  {
    [Header(records[0])] + seq(|records|, i requires 0 <= i < |records| => Row(records[i]))
  }

  /** `convert`: the text written to the CSV file. An empty list of records
      fails on `jsons[0]`. */
  function Convert(records: seq<Record>): (out: Result<string>)
    ensures out.Err? <==> records == []
    ensures out.Err? ==> out.error == IndexError
    ensures out.Ok? ==> out.value == Join(Lines(records), "\n")
  {
    if |records| == 0 then Err(IndexError)
    else Ok(Join(Lines(records), "\n"))
  }

  /** Text in which no key and no written value holds `c`. */
  predicate Free(records: seq<Record>, c: char) {
    forall i, j :: 0 <= i < |records| && 0 <= j < |records[i]| ==>
      c !in records[i][j].0 && c !in Show(records[i][j].1)
  }

  lemma LinesAvoid(records: seq<Record>, c: char)
    requires |records| > 0
    requires Free(records, c)
    requires c != ','
    ensures forall i :: 0 <= i < |Lines(records)| ==> c !in Lines(records)[i]
  {
    var ls := Lines(records);
    JoinAvoids(Keys(records[0]), ",", c);
    forall i | 0 <= i < |records| ensures c !in Row(records[i]) {
      JoinAvoids(Fields(records[i]), ",", c);
    }
    forall i | 1 <= i < |ls| ensures c !in ls[i] {
      assert ls[i] == Row(records[i - 1]);
    }
  }

  /** When no key or value holds a newline, the file reads back as exactly
      one line more than there are records: the header, then the rows in
      order. */
  lemma ConvertLines(records: seq<Record>)
    requires |records| > 0
    requires Free(records, '\n')
    ensures Split(Convert(records).value, '\n') == Lines(records)
  {
    LinesAvoid(records, '\n');
    SplitJoin(Lines(records), '\n');
  }

  /** When no key or value holds a comma, a row splits back into the written
      values and the header into the keys. */
  lemma RowFields(records: seq<Record>, i: nat)
    requires i < |records| && |records[i]| > 0
    requires Free(records, ',')
    ensures Split(Row(records[i]), ',') == Fields(records[i])
    ensures Split(Header(records[i]), ',') == Keys(records[i])
  {
    SplitJoin(Fields(records[i]), ',');
    SplitJoin(Keys(records[i]), ',');
  }

  /** A comma inside a value adds a column: the row of a one-key record
      whose text value holds one comma splits into two fields under a
      one-field header. */
  lemma CommaShiftsColumns(key: string, a: string, b: string)
    requires ',' !in key && ',' !in a && ',' !in b
    ensures var r := [(key, Str(a + [','] + b))];
            |Split(Header(r), ',')| == 1 && |Split(Row(r), ',')| == 2
  {
    var r := [(key, Str(a + [','] + b))];
    assert Keys(r) == [key];
    SplitNoSep(key, ',');
    assert Fields(r) == [a + [','] + b];
    SplitHead(a, ',', b);
    SplitNoSep(b, ',');
  }
}
