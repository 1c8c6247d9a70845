/**
 * `read_csv_files` with the file system abstracted: the directory is the
 * sequence of its entries in the order the directory iterator yields them,
 * each with its file name, whether it is a regular file and its text; price
 * parsing (`parse_long_double`, a floating-point conversion) is a parameter.
 *
 * For every selected file: the first line is the header (line 1); each later
 * line increments the line number, empty lines are skipped, and any other line
 * must have enough fields, a valid receive_ts and a valid price, or the whole
 * read stops with an error naming the file and line. Records are appended to
 * the output in file order, and stay there when a later line fails.
 */
module CsvReader {
  import opened Wrappers
  import opened LineSplitter
  import opened Unsigned
  import opened FileFilter
  import opened CsvHeader

  /** `record_t`. */
  datatype Record = Record(receiveTs: u64, price: real, sourceFile: string, lineNo: nat)

  /** The error strings `read_csv_files` returns, one constructor per message. */
  datatype ReadError =
    | MissingColumns(file: string)
    | NotEnoughColumns(file: string, lineNo: nat)
    | InvalidReceiveTs(file: string, lineNo: nat)
    | InvalidPrice(file: string, lineNo: nat)
  {
    /** The message text; every row error ends with its line number in decimal. */
    function Message(): (msg: string)
      ensures !MissingColumns? ==> |ToDecimal(lineNo)| < |msg| && msg[|msg| - |ToDecimal(lineNo)|..] == ToDecimal(lineNo)
      ensures MissingColumns? ==> |file| <= |msg| && msg[|msg| - |file|..] == file
    {
      match this
      case MissingColumns(f) => "CSV missing required columns (receive_ts, price) in file: " + f
      case NotEnoughColumns(f, n) => "Malformed CSV (not enough columns) in file " + f + " at line " + ToDecimal(n)
      case InvalidReceiveTs(f, n) => "Invalid receive_ts in file " + f + " at line " + ToDecimal(n)
      case InvalidPrice(f, n) => "Invalid price in file " + f + " at line " + ToDecimal(n)
    }
  }

  /** What a read leaves behind: the records appended to `out_records`, and the error returned. */
  datatype Outcome = Outcome(records: seq<Record>, error: Option<ReadError>)

  /** Records appended before a further read, followed by what that read appends. */
  function Prepend(records: seq<Record>, o: Outcome): (r: Outcome)
    ensures r.error == o.error && |r.records| == |records| + |o.records|
  {
    Outcome(records + o.records, o.error)
  }

  function Max(a: nat, b: nat): nat
  {
    if a < b then b else a
  }

  /**
   * One non-empty data line: enough fields for both columns, then receive_ts,
   * then price, checked in that order.
   */
  function ParseRow(path: string, lineNo: nat, line: string, idxReceive: nat, idxPrice: nat,
                    parsePrice: string -> Option<real>): (r: Result<Record, ReadError>)
    ensures r.Ok? ==> r.value.sourceFile == path && r.value.lineNo == lineNo
    ensures r.Err? ==> !r.error.MissingColumns? && r.error.file == path && r.error.lineNo == lineNo
  {
    var vals := Split(line, ';');
    if |vals| <= Max(idxReceive, idxPrice) then Err(NotEnoughColumns(path, lineNo))
    else
      match ParseU64(vals[idxReceive])
      case None => Err(InvalidReceiveTs(path, lineNo))
      case Some(ts) =>
        match parsePrice(vals[idxPrice])
        case None => Err(InvalidPrice(path, lineNo))
        case Some(price) => Ok(Record(ts, price, path, lineNo))
  }

  /**
   * A row is accepted exactly when it has a field at both indices, the
   * receive_ts field is a valid u64 and the price field parses; the record
   * carries those two values. A row that is too short is reported as such
   * before its fields are looked at.
   */
  lemma ParseRowIff(path: string, lineNo: nat, line: string, idxReceive: nat, idxPrice: nat,
                    parsePrice: string -> Option<real>)
    ensures var r := ParseRow(path, lineNo, line, idxReceive, idxPrice, parsePrice);
      var vals := Split(line, ';');
      r.Ok? <==> |vals| > idxReceive && |vals| > idxPrice
                 && ParseU64(vals[idxReceive]).Some? && parsePrice(vals[idxPrice]).Some?
    ensures var r := ParseRow(path, lineNo, line, idxReceive, idxPrice, parsePrice);
      var vals := Split(line, ';');
      r.Ok? ==> r.value == Record(ParseU64(vals[idxReceive]).value, parsePrice(vals[idxPrice]).value, path, lineNo)
    ensures var r := ParseRow(path, lineNo, line, idxReceive, idxPrice, parsePrice);
      r == Err(NotEnoughColumns(path, lineNo)) <==> |Split(line, ';')| <= Max(idxReceive, idxPrice)
  {
  }

  /** The check applied to one non-empty data line, given its line number. */
  type RowCheck = (nat, string) -> Result<Record, ReadError>

  /** `ParseRow` for the file `path` and the columns its header names. */
  function RowCheckFor(path: string, idxReceive: nat, idxPrice: nat, parsePrice: string -> Option<real>): RowCheck
  {
    (n: nat, line: string) => ParseRow(path, n, line, idxReceive, idxPrice, parsePrice)
  }

  /**
   * The data lines `rows`, the first of which is line `lineNo`, processed in
   * order: empty lines are skipped, and the first line `check` rejects ends
   * the read with its error.
   */
  function ParseRows(rows: seq<string>, lineNo: nat, check: RowCheck): Outcome
    decreases |rows|
  {
    if rows == [] then Outcome([], None)
    else if rows[0] == [] then ParseRows(rows[1..], lineNo + 1, check)
    else
      match check(lineNo, rows[0])
      case Err(e) => Outcome([], Some(e))
      case Ok(rec) => Prepend([rec], ParseRows(rows[1..], lineNo + 1, check))
  }

  /** One file: an empty file is skipped; otherwise the header must name both columns. */
  function ParseFile(path: string, content: string, parsePrice: string -> Option<real>): Outcome
  {
    var lines := Split(content, '\n');
    if lines == [] then Outcome([], None)
    else
      var cols := Split(lines[0], ';');
      var idxReceive := LastColumn(cols, "receive_ts");
      var idxPrice := LastColumn(cols, "price");
      if idxReceive < 0 || idxPrice < 0 then Outcome([], Some(MissingColumns(path)))
      else ParseRows(lines[1..], 2, RowCheckFor(path, idxReceive, idxPrice, parsePrice))
  }

  /** A directory entry as the reader sees it. */
  datatype Entry = Entry(path: string, fname: string, isRegularFile: bool, content: string)

  /** Regular file, ".csv" extension in any case, and a matching mask. */
  predicate Selected(entry: Entry, masks: seq<string>)
  {
    entry.isRegularFile && IsCsvFile(entry.fname) && MatchesMask(entry.fname, masks)
  }

  /** What reading one opened file yields, given its path and its text. */
  type FileReader = (string, string) -> Outcome

  /** `ParseFile` with the given price parser. */
  function ReaderFor(parsePrice: string -> Option<real>): FileReader
  {
    (path: string, content: string) => ParseFile(path, content, parsePrice)
  }

  /** All selected entries in iteration order; the first error ends the read. */
  function ParseEntries(entries: seq<Entry>, masks: seq<string>, readFile: FileReader): Outcome
    decreases |entries|
  {
    if entries == [] then Outcome([], None)
    else if !Selected(entries[0], masks) then ParseEntries(entries[1..], masks, readFile)
    else
      var o := readFile(entries[0].path, entries[0].content);
      if o.error.Some? then o
      else Prepend(o.records, ParseEntries(entries[1..], masks, readFile))
  }

  // ---------------------------------------------------------------------------
  // The reader's loops
  // ---------------------------------------------------------------------------

  /** The body of the per-file loop of `read_csv_files`, for one opened file. */
  method ReadOneFile(path: string, content: string, parsePrice: string -> Option<real>)
    returns (error: Option<ReadError>, records: seq<Record>)
    ensures Outcome(records, error) == ParseFile(path, content, parsePrice)
  {
    records, error := [], None;
    var lines := SplitLine(content, '\n');
    if |lines| == 0 {
      return;
    }
    var cols := SplitLine(lines[0], ';');
    var idxReceive, idxPrice := FindColumns(cols);
    if idxReceive < 0 || idxPrice < 0 {
      error := Some(MissingColumns(path));
      return;
    }
    error, records := ReadRows(path, lines, idxReceive, idxPrice, parsePrice);
  }

  /** The data-line loop of `read_csv_files`: `lines[0]` is the header, line 1. */
  method ReadRows(path: string, lines: seq<string>, idxReceive: nat, idxPrice: nat,
                  parsePrice: string -> Option<real>)
    returns (error: Option<ReadError>, records: seq<Record>)
    requires |lines| >= 1
    ensures Outcome(records, error) == ParseRows(lines[1..], 2, RowCheckFor(path, idxReceive, idxPrice, parsePrice))
  {
    records, error := [], None;
    ghost var check := RowCheckFor(path, idxReceive, idxPrice, parsePrice);
    ghost var whole := ParseRows(lines[1..], 2, check);
    var lineNo: nat := 1;
    var i := 1;
    while i < |lines|
      invariant 1 <= i <= |lines| && lineNo == i
      invariant whole == Prepend(records, ParseRows(lines[i..], i + 1, check))
    {
      var line := lines[i];
      ghost var rest := ParseRows(lines[i + 1..], i + 2, check);
      ghost var row := check(i + 1, line);
      assert row == ParseRow(path, i + 1, line, idxReceive, idxPrice, parsePrice);
      RowsStep(lines[i..], i + 1, check);
      assert lines[i..][1..] == lines[i + 1..];
      i := i + 1;
      lineNo := lineNo + 1;
      if line == [] {
        continue;
      }
      var result := CheckRow(path, lineNo, line, idxReceive, idxPrice, parsePrice);
      if result.Err? {
        error := Some(result.error);
        return;
      }
      PrependTwice(records, [result.value], rest);
      records := records + [result.value];
    }
    assert lines[i..] == [];
  }

  /** The checks the data-line loop makes on one non-empty line, in the order it makes them. */
  method CheckRow(path: string, lineNo: nat, line: string, idxReceive: nat, idxPrice: nat,
                  parsePrice: string -> Option<real>)
    returns (result: Result<Record, ReadError>)
    ensures result == ParseRow(path, lineNo, line, idxReceive, idxPrice, parsePrice)
  {
    var vals := SplitLine(line, ';');
    if |vals| <= Max(idxReceive, idxPrice) {
      return Err(NotEnoughColumns(path, lineNo));
    }
    var receiveTs := ParseU64(vals[idxReceive]);
    if receiveTs.None? {
      return Err(InvalidReceiveTs(path, lineNo));
    }
    var price := parsePrice(vals[idxPrice]);
    if price.None? {
      return Err(InvalidPrice(path, lineNo));
    }
    return Ok(Record(receiveTs.value, price.value, path, lineNo));
  }

  /** One step of `ParseRows`, unfolded for the reader's loop. */
  lemma RowsStep(rows: seq<string>, lineNo: nat, check: RowCheck)
    requires rows != []
    ensures rows[0] == [] ==> ParseRows(rows, lineNo, check) == ParseRows(rows[1..], lineNo + 1, check)
    ensures rows[0] != [] && check(lineNo, rows[0]).Err? ==>
      ParseRows(rows, lineNo, check) == Outcome([], Some(check(lineNo, rows[0]).error))
    ensures rows[0] != [] && check(lineNo, rows[0]).Ok? ==>
      ParseRows(rows, lineNo, check) == Prepend([check(lineNo, rows[0]).value], ParseRows(rows[1..], lineNo + 1, check))
  {
  }

  /** `read_csv_files` over the entries of an existing directory. */
  method ReadCsvFiles(entries: seq<Entry>, masks: seq<string>, parsePrice: string -> Option<real>)
    returns (error: Option<ReadError>, outRecords: seq<Record>)
    ensures Outcome(outRecords, error) == ParseEntries(entries, masks, ReaderFor(parsePrice))
  {
    outRecords, error := [], None;
    ghost var reader := ReaderFor(parsePrice);
    var e := 0;
    while e < |entries|
      invariant 0 <= e <= |entries|
      invariant ParseEntries(entries, masks, reader)
             == Prepend(outRecords, ParseEntries(entries[e..], masks, reader))
    {
      var entry := entries[e];
      EntriesStep(entries[e..], masks, reader);
      assert entries[e..][1..] == entries[e + 1..];
      ghost var rest := ParseEntries(entries[e + 1..], masks, reader);
      e := e + 1;
      var selected := SelectEntry(entry, masks);
      if !selected {
        continue;
      }
      var fileError, fileRecords := ReadOneFile(entry.path, entry.content, parsePrice);
      PrependTwice(outRecords, fileRecords, rest);
      outRecords := outRecords + fileRecords;
      if fileError.Some? {
        error := fileError;
        return;
      }
    }
    assert entries[e..] == [];
  }

  lemma PrependTwice(first: seq<Record>, second: seq<Record>, o: Outcome)
    ensures Prepend(first, Prepend(second, o)) == Prepend(first + second, o)
  {
    assert first + (second + o.records) == (first + second) + o.records;
  }

  /**
   * The filters the directory loop applies before opening an entry: a regular
   * file, a non-empty extension that lower-cases to ".csv", and a matching mask.
   */
  method SelectEntry(entry: Entry, masks: seq<string>) returns (selected: bool)
    ensures selected == Selected(entry, masks)
  {
    if !entry.isRegularFile {
      return false;
    }
    var ext := Extension(entry.fname);
    if |ext| == 0 {
      return false;
    }
    var extLower := ToLower(ext);
    if extLower != ".csv" {
      return false;
    }
    selected := PassesMasks(entry.fname, masks);
  }

  /** One step of `ParseEntries`, unfolded for the directory loop. */
  lemma EntriesStep(entries: seq<Entry>, masks: seq<string>, readFile: FileReader)
    requires entries != []
    ensures !Selected(entries[0], masks) ==>
      ParseEntries(entries, masks, readFile) == ParseEntries(entries[1..], masks, readFile)
    ensures Selected(entries[0], masks) && readFile(entries[0].path, entries[0].content).error.Some? ==>
      ParseEntries(entries, masks, readFile) == readFile(entries[0].path, entries[0].content)
    ensures Selected(entries[0], masks) && readFile(entries[0].path, entries[0].content).error.None? ==>
      ParseEntries(entries, masks, readFile)
      == Prepend(readFile(entries[0].path, entries[0].content).records, ParseEntries(entries[1..], masks, readFile))
  {
  }

  // ---------------------------------------------------------------------------
  // What the reader promises
  // ---------------------------------------------------------------------------

  /** A non-empty data line with its 1-based line number in the file. */
  datatype NumberedLine = NumberedLine(lineNo: nat, text: string)

  /** The non-empty lines among `rows`, the first of which is line `lineNo`. */
  function DataLines(rows: seq<string>, lineNo: nat): seq<NumberedLine>
    decreases |rows|
  {
    if rows == [] then []
    else if rows[0] == [] then DataLines(rows[1..], lineNo + 1)
    else [NumberedLine(lineNo, rows[0])] + DataLines(rows[1..], lineNo + 1)
  }

  /** Every data line is the non-empty row its number names. */
  lemma {:induction false} DataLinesAreRows(rows: seq<string>, lineNo: nat)
    ensures forall line :: line in DataLines(rows, lineNo) ==>
      lineNo <= line.lineNo < lineNo + |rows| && rows[line.lineNo - lineNo] == line.text && line.text != []
    decreases |rows|
  {
    if rows != [] {
      var tail := DataLines(rows[1..], lineNo + 1);
      DataLinesAreRows(rows[1..], lineNo + 1);
      forall line | line in tail
        ensures rows[line.lineNo - lineNo] == line.text
      {
        assert rows[1..][line.lineNo - (lineNo + 1)] == rows[line.lineNo - lineNo];
      }
      if rows[0] != [] {
        assert DataLines(rows, lineNo) == [NumberedLine(lineNo, rows[0])] + tail;
      } else {
        assert DataLines(rows, lineNo) == tail;
      }
    }
  }

  /** Data lines keep the order of the file: their numbers strictly increase. */
  lemma {:induction false} DataLinesIncrease(rows: seq<string>, lineNo: nat)
    ensures forall k :: 0 <= k < |DataLines(rows, lineNo)| ==> lineNo <= DataLines(rows, lineNo)[k].lineNo
    ensures forall k, j :: 0 <= k < j < |DataLines(rows, lineNo)| ==>
      DataLines(rows, lineNo)[k].lineNo < DataLines(rows, lineNo)[j].lineNo
    decreases |rows|
  {
    if rows != [] {
      var tail := DataLines(rows[1..], lineNo + 1);
      DataLinesIncrease(rows[1..], lineNo + 1);
      if rows[0] != [] {
        var d := DataLines(rows, lineNo);
        assert d == [NumberedLine(lineNo, rows[0])] + tail;
        assert forall k :: 1 <= k < |d| ==> d[k] == tail[k - 1];
      } else {
        assert DataLines(rows, lineNo) == tail;
      }
    }
  }

  /** No non-empty row is skipped: each appears, with its number, among the data lines. */
  lemma {:induction false} DataLinesComplete(rows: seq<string>, lineNo: nat)
    ensures forall n :: 0 <= n < |rows| && rows[n] != [] ==> NumberedLine(lineNo + n, rows[n]) in DataLines(rows, lineNo)
    decreases |rows|
  {
    if rows != [] {
      var tail := DataLines(rows[1..], lineNo + 1);
      DataLinesComplete(rows[1..], lineNo + 1);
      assert forall n :: 1 <= n < |rows| ==> rows[1..][n - 1] == rows[n];
      assert forall n :: 1 <= n < |rows| && rows[n] != [] ==> NumberedLine(lineNo + n, rows[n]) in tail;
      if rows[0] != [] {
        assert DataLines(rows, lineNo) == [NumberedLine(lineNo, rows[0])] + tail;
      }
    }
  }

  /**
   * `o` is what processing the data lines `d` in order leaves behind: one
   * record per line up to the first line that fails, whose error is
   * returned; with no failure, a record for every line.
   */
  ghost predicate ProcessedInOrder(d: seq<NumberedLine>, o: Outcome, check: RowCheck)
  {
    |o.records| <= |d|
    && (forall k :: 0 <= k < |o.records| ==> check(d[k].lineNo, d[k].text) == Ok(o.records[k]))
    && (o.error.None? ==> |o.records| == |d|)
    && (o.error.Some? ==>
          |o.records| < |d| && check(d[|o.records|].lineNo, d[|o.records|].text) == Err(o.error.value))
  }

  /** The data-line loop processes exactly the non-empty lines, in order, stopping at the first failure. */
  lemma {:induction false} ParseRowsMeaning(rows: seq<string>, lineNo: nat, check: RowCheck)
    ensures ProcessedInOrder(DataLines(rows, lineNo), ParseRows(rows, lineNo, check), check)
    decreases |rows|
  {
    if rows != [] {
      var tail := DataLines(rows[1..], lineNo + 1);
      var rest := ParseRows(rows[1..], lineNo + 1, check);
      ParseRowsMeaning(rows[1..], lineNo + 1, check);
      if rows[0] == [] {
        assert DataLines(rows, lineNo) == tail;
        assert ParseRows(rows, lineNo, check) == rest;
      } else {
        var line := NumberedLine(lineNo, rows[0]);
        assert DataLines(rows, lineNo) == [line] + tail;
        match check(lineNo, rows[0])
        case Err(e) =>
          ProcessedStopsAt(line, tail, e, check);
        case Ok(rec) =>
          ProcessedContinues(line, tail, rec, rest, check);
      }
    }
  }

  /** A failing first line ends processing with its error and no records. */
  lemma ProcessedStopsAt(line: NumberedLine, tail: seq<NumberedLine>, e: ReadError, check: RowCheck)
    requires check(line.lineNo, line.text) == Err(e)
    ensures ProcessedInOrder([line] + tail, Outcome([], Some(e)), check)
  {
  }

  /** An accepted first line contributes its record ahead of what the rest yields. */
  lemma ProcessedContinues(line: NumberedLine, tail: seq<NumberedLine>, rec: Record, rest: Outcome, check: RowCheck)
    requires check(line.lineNo, line.text) == Ok(rec)
    requires ProcessedInOrder(tail, rest, check)
    ensures ProcessedInOrder([line] + tail, Prepend([rec], rest), check)
  {
    var d := [line] + tail;
    var o := Prepend([rec], rest);
    assert forall k :: 1 <= k < |d| ==> d[k] == tail[k - 1];
    assert forall k :: 1 <= k < |o.records| ==> o.records[k] == rest.records[k - 1];
  }

  /**
   * A non-empty line that the check rejects, reached with every earlier line
   * accepted or skipped, ends the read with that line's error.
   */
  lemma {:induction false} FirstFailureStops(before: seq<string>, row: string, after: seq<string>, lineNo: nat,
                                             check: RowCheck)
    requires row != [] && check(lineNo + |before|, row).Err?
    requires ParseRows(before, lineNo, check).error.None?
    ensures ParseRows(before + [row] + after, lineNo, check).error == Some(check(lineNo + |before|, row).error)
    decreases |before|
  {
    var rows := before + [row] + after;
    if before == [] {
      assert rows == [row] + after;
      RowsStep(rows, lineNo, check);
    } else {
      assert rows == before + ([row] + after) && rows[1..] == before[1..] + [row] + after;
      ErrorCarriesOver(before, [row] + after, lineNo, check);
      FirstFailureStops(before[1..], row, after, lineNo + 1, check);
      assert lineNo + 1 + |before[1..]| == lineNo + |before|;
    }
  }

  /**
   * After lines that yield no error, the error of a longer read is decided by
   * what follows the first line.
   */
  lemma ErrorCarriesOver(before: seq<string>, rest: seq<string>, lineNo: nat, check: RowCheck)
    requires before != [] && ParseRows(before, lineNo, check).error.None?
    ensures ParseRows(before + rest, lineNo, check).error == ParseRows(before[1..] + rest, lineNo + 1, check).error
  {
    var rows := before + rest;
    assert rows[0] == before[0] && rows[1..] == before[1..] + rest;
  }

  /**
   * A non-empty line with too few fields for both columns, reached with
   * every earlier line accepted or skipped, ends the read with the error
   * naming that line.
   */
  lemma ShortRowReported(path: string, before: seq<string>, row: string, after: seq<string>, lineNo: nat,
                         idxReceive: nat, idxPrice: nat, parsePrice: string -> Option<real>)
    requires row != [] && |Split(row, ';')| <= Max(idxReceive, idxPrice)
    requires ParseRows(before, lineNo, RowCheckFor(path, idxReceive, idxPrice, parsePrice)).error.None?
    ensures ParseRows(before + [row] + after, lineNo, RowCheckFor(path, idxReceive, idxPrice, parsePrice)).error
         == Some(NotEnoughColumns(path, lineNo + |before|))
  {
    var check := RowCheckFor(path, idxReceive, idxPrice, parsePrice);
    ParseRowIff(path, lineNo + |before|, row, idxReceive, idxPrice, parsePrice);
    assert check(lineNo + |before|, row) == Err(NotEnoughColumns(path, lineNo + |before|));
    FirstFailureStops(before, row, after, lineNo, check);
  }

  /** Every record a file yields names that file, lies past the header, and records keep line order. */
  lemma RecordsOfFile(path: string, content: string, parsePrice: string -> Option<real>)
    ensures forall k :: 0 <= k < |ParseFile(path, content, parsePrice).records| ==>
      ParseFile(path, content, parsePrice).records[k].sourceFile == path
      && 2 <= ParseFile(path, content, parsePrice).records[k].lineNo
    ensures forall k, j :: 0 <= k < j < |ParseFile(path, content, parsePrice).records| ==>
      ParseFile(path, content, parsePrice).records[k].lineNo < ParseFile(path, content, parsePrice).records[j].lineNo
    ensures ParseFile(path, content, parsePrice).error.Some? && !ParseFile(path, content, parsePrice).error.value.MissingColumns?
      ==> 2 <= ParseFile(path, content, parsePrice).error.value.lineNo
  {
    var lines := Split(content, '\n');
    if lines != [] {
      var cols := Split(lines[0], ';');
      var idxReceive := LastColumn(cols, "receive_ts");
      var idxPrice := LastColumn(cols, "price");
      if idxReceive >= 0 && idxPrice >= 0 {
        var check := RowCheckFor(path, idxReceive, idxPrice, parsePrice);
        var o := ParseRows(lines[1..], 2, check);
        assert ParseFile(path, content, parsePrice) == o;
        ParseRowsMeaning(lines[1..], 2, check);
        DataLinesIncrease(lines[1..], 2);
        var d := DataLines(lines[1..], 2);
        forall k | 0 <= k < |o.records|
          ensures o.records[k].sourceFile == path && o.records[k].lineNo == d[k].lineNo
        {
          assert ParseRow(path, d[k].lineNo, d[k].text, idxReceive, idxPrice, parsePrice) == Ok(o.records[k]);
        }
        if o.error.Some? {
          assert ParseRow(path, d[|o.records|].lineNo, d[|o.records|].text, idxReceive, idxPrice, parsePrice)
              == Err(o.error.value);
        }
      }
    }
  }

  /** A header that lacks either column is reported before any data line is read. */
  lemma MissingColumnsIff(path: string, content: string, parsePrice: string -> Option<real>)
    ensures var lines := Split(content, '\n');
      ParseFile(path, content, parsePrice) == Outcome([], Some(MissingColumns(path)))
      <==> lines != [] && (LastColumn(Split(lines[0], ';'), "receive_ts") < 0
                           || LastColumn(Split(lines[0], ';'), "price") < 0)
  {
    var lines := Split(content, '\n');
    if lines != [] {
      var cols := Split(lines[0], ';');
      var idxReceive := LastColumn(cols, "receive_ts");
      var idxPrice := LastColumn(cols, "price");
      if idxReceive >= 0 && idxPrice >= 0 {
        var check := RowCheckFor(path, idxReceive, idxPrice, parsePrice);
        var o := ParseRows(lines[1..], 2, check);
        assert ParseFile(path, content, parsePrice) == o;
        ParseRowsMeaning(lines[1..], 2, check);
        var d := DataLines(lines[1..], 2);
        if o.error.Some? {
          assert ParseRow(path, d[|o.records|].lineNo, d[|o.records|].text, idxReceive, idxPrice, parsePrice)
              == Err(o.error.value);
        }
      }
    }
  }

  /** An empty file yields nothing and no error. */
  lemma EmptyFileSkipped(path: string, parsePrice: string -> Option<real>)
    ensures ParseFile(path, "", parsePrice) == Outcome([], None)
  {
    assert Split("", '\n') == [];
  }

  /** A header with both columns and no data lines yields nothing and no error. */
  lemma HeaderOnly(path: string, header: string, parsePrice: string -> Option<real>)
    requires '\n' !in header
    requires LastColumn(Split(header, ';'), "receive_ts") >= 0 && LastColumn(Split(header, ';'), "price") >= 0
    ensures ParseFile(path, header, parsePrice) == Outcome([], None)
    ensures ParseFile(path, header + "\n", parsePrice) == Outcome([], None)
  {
    assert header[0..] == header;
    SplitFrom(header, '\n', 0, |header|);
    var withEnd := header + "\n";
    assert withEnd[0..] == withEnd && withEnd[0..|header|] == header && withEnd[|header| + 1..] == [];
    assert forall k :: 0 <= k < |header| ==> withEnd[k] == header[k];
    SplitFrom(withEnd, '\n', 0, |header|);
    assert [header][1..] == [];
  }

  /** Without selected entries, the read succeeds with no records. */
  lemma {:induction false} NothingSelected(entries: seq<Entry>, masks: seq<string>, parsePrice: string -> Option<real>)
    requires forall k :: 0 <= k < |entries| ==> !Selected(entries[k], masks)
    ensures ParseEntries(entries, masks, ReaderFor(parsePrice)) == Outcome([], None)
    decreases |entries|
  {
    if entries != [] {
      NothingSelected(entries[1..], masks, parsePrice);
    }
  }

  /**
   * A selected file that fails, reached after entries read without error,
   * ends the whole read with that file's error; the records of the earlier
   * files, and those the failing file produced before its error, are kept.
   */
  lemma {:induction false} FirstFileErrorStops(before: seq<Entry>, entry: Entry, after: seq<Entry>,
                                               masks: seq<string>, readFile: FileReader)
    requires Selected(entry, masks) && readFile(entry.path, entry.content).error.Some?
    requires ParseEntries(before, masks, readFile).error.None?
    ensures ParseEntries(before + [entry] + after, masks, readFile)
         == Prepend(ParseEntries(before, masks, readFile).records, readFile(entry.path, entry.content))
    decreases |before|
  {
    var entries := before + [entry] + after;
    if before == [] {
      assert entries == [entry] + after;
      EntriesStep(entries, masks, readFile);
    } else {
      assert entries[0] == before[0] && entries[1..] == before[1..] + [entry] + after;
      EntriesStep(entries, masks, readFile);
      EntriesStep(before, masks, readFile);
      FirstFileErrorStops(before[1..], entry, after, masks, readFile);
      if Selected(before[0], masks) {
        PrependTwice(readFile(before[0].path, before[0].content).records,
                     ParseEntries(before[1..], masks, readFile).records,
                     readFile(entry.path, entry.content));
      }
    }
  }

  /** Every record comes from a selected entry and names that entry's path. */
  lemma {:induction false} RecordsFromSelected(entries: seq<Entry>, masks: seq<string>, parsePrice: string -> Option<real>)
    ensures forall r :: r in ParseEntries(entries, masks, ReaderFor(parsePrice)).records ==>
        exists k :: 0 <= k < |entries| && Selected(entries[k], masks) && entries[k].path == r.sourceFile
    decreases |entries|
  {
    if entries != [] {
      RecordsFromSelected(entries[1..], masks, parsePrice);
      assert forall k :: 1 <= k < |entries| ==> entries[1..][k - 1] == entries[k];
      if Selected(entries[0], masks) {
        RecordsOfFile(entries[0].path, entries[0].content, parsePrice);
      }
    }
  }
}
