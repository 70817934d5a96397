/** The file that the in-memory database is written to and opened from (FileDatabase of src/engines.rs). */
module FileStore {
  import opened Wrappers
  import opened Text
  import opened LocalTime
  import opened Records
  import opened Engines

  /** The row of one record. */
  function Row(digest: string, record: Record): string {
    digest + "\t" + EncodeRecord(record)
  }

  function Rows(digests: seq<string>, store: Store): seq<string>
    requires forall d | d in digests :: d in store
  {
    if digests == [] then []
    else
      var n := |digests| - 1;
      Rows(digests[..n], store) + [Row(digests[n], store[digests[n]])]
  }

  /** A row without a tab, or whose second half is no record, is skipped. */
  function WithRow(store: Store, line: string): Store {
    var cut := SplitOnce(line, '\t');
    if cut.None? then store
    else
      var record := DecodeRecord(cut.value.1);
      if record.None? then store else store[cut.value.0 := record.value]
  }

  function WithRows(lines: seq<string>): Store {
    if lines == [] then map[] else WithRow(WithRows(lines[..|lines| - 1]), lines[|lines| - 1])
  }

  method Open(text: string) returns (records: Store)
    ensures records == WithRows(Lines(text))
  {
    hide Lines, DecodeRecord, SplitOnce;
    var lines := Lines(text);
    records := map[];
    for i := 0 to |lines|
      invariant records == WithRows(lines[..i])
    {
      assert lines[..i + 1][..i] == lines[..i];
      var cut := SplitOnce(lines[i], '\t');
      if cut.None? {
        continue;
      }
      var record := DecodeRecord(cut.value.1);
      if record.Some? {
        records := records[cut.value.0 := record.value];
      }
    }
    assert lines[..|lines|] == lines;
  }

  /** All digests of a store, in any order. */
  ghost predicate Enumerates(digests: seq<string>, store: Store) {
    (forall d | d in digests :: d in store) && (forall d | d in store :: d in digests)
  }

  /** A digest that a row can carry: it neither ends the row nor its first half. */
  predicate RowDigest(d: string) {
    '\n' !in d && '\t' !in d
  }

  // ----- a row reads back -----

  lemma TimeTextLine(value: Option<i64>)
    ensures '\n' !in EncodeTime(value) && '\r' !in EncodeTime(value)
  {
    if value.Some? {
      hide UtcComponents, Join, PaddedText, DaysInMonth;
      var t := UtcComponents(value.value);
      ComponentsFitI64(value.value);
      TripleCharacters(t.date.year, t.date.month, t.date.day, 4, '-', '\n');
      TripleCharacters(t.hour, t.minute, t.second, 2, ':', '\n');
      TripleCharacters(t.date.year, t.date.month, t.date.day, 4, '-', '\r');
      TripleCharacters(t.hour, t.minute, t.second, 2, ':', '\r');
    }
  }

  lemma {:induction false} JoinAbsent(parts: seq<string>, c: char)
    requires c != ',' && forall k | 0 <= k < |parts| :: c !in parts[k]
    ensures c !in Join(parts, ",")
  {
    if |parts| > 1 {
      JoinAbsent(parts[1..], c);
    }
  }

  lemma RecordTextLine(r: Record)
    ensures PlainLine(EncodeRecord(r)) && EncodeRecord(r) != ""
  {
    hide EncodeTime, IntText, Join;
    TimeTextLine(r.rEntered);
    TimeTextLine(r.rUpdated);
    TimeTextLine(r.wlEntered);
    TimeTextLine(r.wlUpdated);
    IntTextCharacters(r.rCount, '\n');
    IntTextCharacters(r.rCount, '\r');
    IntTextCharacters(r.wlCount, '\n');
    IntTextCharacters(r.wlCount, '\r');
    JoinAbsent(RecordParts(r), '\n');
    JoinAbsent(RecordParts(r), '\r');
    assert EncodeRecord(r) == "1" + "," + Join(RecordParts(r)[1..], ",") by {
      FirstJoined(RecordParts(r), ",");
    }
  }

  lemma FirstJoined(parts: seq<string>, separator: string)
    requires |parts| > 1
    ensures Join(parts, separator) == parts[0] + separator + Join(parts[1..], separator)
  {
  }

  lemma RowRead(store: Store, digest: string, r: Record)
    requires RowDigest(digest)
    ensures WithRow(store, Row(digest, r))
         == var record := DecodeRecord(EncodeRecord(r));
            if record.None? then store else store[digest := record.value]
  {
    hide EncodeRecord, DecodeRecord, Find;
    FindAt(digest, '\t', EncodeRecord(r));
    var row := Row(digest, r);
    assert row[..|digest|] == digest && row[|digest| + 1..] == EncodeRecord(r);
  }

  /** A line without a tab, or with no record behind its first one, is passed over, wherever it stands. */
  lemma {:induction false} BadLine(before: seq<string>, line: string, after: seq<string>)
    requires var cut := SplitOnce(line, '\t'); cut.None? || DecodeRecord(cut.value.1).None?
    ensures WithRows(before + [line] + after) == WithRows(before + after)
  {
    hide SplitOnce, DecodeRecord;
    if after == [] {
      assert (before + [line] + after)[..|before|] == before && before + after == before;
      assert (before + [line] + after)[|before|] == line;
    } else {
      var n := |after| - 1;
      BadLine(before, line, after[..n]);
      assert (before + [line] + after)[..|before| + 1 + n] == before + [line] + after[..n];
      assert (before + after)[..|before| + n] == before + after[..n];
    }
  }

  // ----- the whole file -----

  /** A row that a line reader gives back as it is: a carriage return does no harm inside it. */
  predicate FullRow(row: string) {
    row != "" && '\n' !in row && row[|row| - 1] != '\r'
  }

  predicate FullRows(rows: seq<string>) {
    forall k | 0 <= k < |rows| :: FullRow(rows[k])
  }

  lemma RowFull(digest: string, r: Record)
    requires RowDigest(digest)
    ensures FullRow(Row(digest, r))
  {
    hide EncodeRecord;
    RecordTextLine(r);
    var text, row := EncodeRecord(r), Row(digest, r);
    assert row[|row| - 1] == text[|text| - 1] && text[|text| - 1] in text;
  }

  lemma RowLine(row: string, rest: string)
    requires FullRow(row)
    ensures Lines(row + "\n" + rest) == [row] + Lines(rest)
  {
    hide Find;
    FindAt(row, '\n', rest);
    assert (row + "\n" + rest)[..|row|] == row && (row + "\n" + rest)[|row| + 1..] == rest;
  }

  lemma {:induction false} LinesOfJoined(rows: seq<string>)
    requires FullRows(rows)
    ensures Lines(Join(rows, "\n")) == rows
  {
    hide Find, FullRow;
    if |rows| == 1 {
      LastRow(rows[0]);
    } else if |rows| > 1 {
      RowLine(rows[0], Join(rows[1..], "\n"));
      LinesOfJoined(rows[1..]);
    }
  }

  lemma LastRow(row: string)
    requires FullRow(row)
    ensures Lines(row) == [row]
  {
    hide Find;
    FindNone(row, '\n');
  }

  lemma {:induction false} RowsFull(digests: seq<string>, store: Store)
    requires forall d | d in digests :: d in store && RowDigest(d)
    ensures FullRows(Rows(digests, store))
  {
    hide RowDigest, FullRow, Row;
    if digests != [] {
      var n := |digests| - 1;
      RowsFull(digests[..n], store);
      RowFull(digests[n], store[digests[n]]);
    }
  }

  /** What is read of the rows of some digests: each with its record as far as the text still tells it. */
  lemma {:induction false} RowsRead(digests: seq<string>, store: Store)
    requires forall d | d in digests :: d in store && RowDigest(d)
    ensures
      var read := WithRows(Rows(digests, store));
      && (forall d | d in read :: d in digests)
      && (forall d | d in digests ::
            var record := DecodeRecord(EncodeRecord(store[d]));
            if record.Some? then d in read && read[d] == record.value else d !in read)
  {
    hide RowDigest, Row, WithRow, DecodeRecord, EncodeRecord;
    if digests != [] {
      var n := |digests| - 1;
      RowsRead(digests[..n], store);
      RowRead(WithRows(Rows(digests[..n], store)), digests[n], store[digests[n]]);
      assert digests == digests[..n] + [digests[n]];
    }
  }

  lemma {:induction false} LinesHoldNoNewline(s: string)
    ensures forall k | 0 <= k < |Lines(s)| :: '\n' !in Lines(s)[k]
  {
    if s != "" {
      var i := Find(s, '\n');
      if i < |s| {
        LinesHoldNoNewline(s[i + 1..]);
      }
    }
  }

  /** Whatever a file holds, only such digests are read from it. */
  lemma {:induction false} OnlyRowDigests(lines: seq<string>)
    requires forall k | 0 <= k < |lines| :: '\n' !in lines[k]
    ensures forall d | d in WithRows(lines) :: RowDigest(d)
  {
    hide DecodeRecord;
    if lines != [] {
      OnlyRowDigests(lines[..|lines| - 1]);
    }
  }

  lemma ReadableRows(digests: seq<string>, store: Store)
    requires Enumerates(digests, store) && forall d | d in digests :: RowDigest(d)
    ensures WithRows(Lines(Join(Rows(digests, store), "\n"))) == store <==> forall d | d in store :: AllReadable(store[d])
  {
    hide RowDigest, Lines, Join, Rows, WithRows, DecodeRecord, EncodeRecord, AllReadable;
    RowsFull(digests, store);
    LinesOfJoined(Rows(digests, store));
    RowsRead(digests, store);
    forall d | d in store
      ensures DecodeRecord(EncodeRecord(store[d])) == Some(store[d]) <==> AllReadable(store[d])
    {
      DecodeEncodedRecord(store[d]);
    }
    var read := WithRows(Rows(digests, store));
    assert forall d | d in store :: AllReadable(store[d]) ==> d in read && read[d] == store[d];
    assert forall d | d in store :: d in read && read[d] == store[d] ==> AllReadable(store[d]);
  }

  /** The file, its rows in any order, opens to the records it was written from exactly when no digest holds a tab or a
      line feed and no time lies before year 0. */
  lemma OpenReadsWritten(digests: seq<string>, store: Store)
    requires Enumerates(digests, store)
    ensures WithRows(Lines(Join(Rows(digests, store), "\n"))) == store
       <==> forall d | d in store :: '\t' !in d && '\n' !in d && AllReadable(store[d])
  {
    hide Lines, Join, Rows, WithRows, AllReadable;
    var text := Join(Rows(digests, store), "\n");
    LinesHoldNoNewline(text);
    OnlyRowDigests(Lines(text));
    if forall d | d in digests :: RowDigest(d) {
      ReadableRows(digests, store);
    }
  }
}
