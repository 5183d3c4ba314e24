/**
 * The record codec: the store file, and `CsvHandler`, which reads it whole,
 * replaces it whole through a temporary file and a rename, or appends a row.
 *
 * A file is modelled as the sequence of records `fgetcsv` would return, one
 * per line; the byte-level quoting of `fputcsv`/`fgetcsv` is abstracted away.
 * Rows handed between components are PHP associative arrays: `Row`, a map
 * from column name to field value.
 */
module Csv {
  import opened Wrappers

  type Record = seq<string>
  type Row = map<string, string>

  /** The file at the store's path: whether it exists, whether it is writable, its lines. */
  class StoreFile {
    var present: bool
    var readable: bool
    var writable: bool
    var records: seq<Record>

    constructor (present: bool, readable: bool, writable: bool, records: seq<Record>)
      ensures this.present == present && this.readable == readable && this.writable == writable
      ensures this.records == records
    {
      this.present, this.readable, this.writable, this.records := present, readable, writable, records;
    }

    /**
     * What a reader sees: `fopen($path, 'r')` fails on a missing or an
     * unreadable file, and then nothing is read.
     */
    function Contents(): (contents: seq<Record>)
      reads this
      ensures !(present && readable) ==> contents == []
      ensures present && readable ==> contents == records
    {
      if present && readable then records else []
    }

    /** `!file_exists($path) || is_writable($path)`: the path may be written or replaced. */
    predicate CanReplace()
      reads this
    {
      !present || writable
    }
  }

  // ------------------------------------------------------------ decoding

  /**
   * PHP `array_combine($header, $fields)`: each column name maps to the field
   * in its position; when a name repeats, its last position wins.
   */
  function Combine(header: Record, fields: Record): (row: Row)
    requires |header| == |fields|
    ensures forall k :: k in row <==> k in header
  {
    if header == [] then map[]
    else
      var n := |header| - 1;
      assert header == header[..n] + [header[n]];
      Combine(header[..n], fields[..n])[header[n] := fields[n]]
  }

  /** In a combined row, a column name holds the field at its last position in the header. */
  lemma {:induction false} CombineAt(header: Record, fields: Record, i: nat)
    requires |header| == |fields| && i < |header|
    requires header[i] !in header[i + 1..]
    ensures Combine(header, fields)[header[i]] == fields[i]
  {
    var n := |header| - 1;
    if i < n {
      assert header[n] == header[i + 1..][n - i - 1];
      assert header[..n][i + 1..] == header[i + 1..n];
      CombineAt(header[..n], fields[..n], i);
    }
  }

  /** The data lines of a file with the given header, as `readAll` keeps them. */
  function DataRows(header: Record, lines: seq<Record>): (rows: seq<Row>)
    ensures |rows| <= |lines|
    ensures forall r :: r in rows ==> forall k :: k in r <==> k in header
  {
    if lines == [] then []
    else
      var rows := DataRows(header, lines[..|lines| - 1]);
      var last := lines[|lines| - 1];
      if |last| == |header| then rows + [Combine(header, last)] else rows
  }

  /**
   * The rows `CsvHandler::readAll` returns for a file: the first line is the
   * header; a later line becomes a row only if it has exactly as many fields.
   */
  function ReadRows(contents: seq<Record>): (rows: seq<Row>)
    ensures contents == [] ==> rows == []
    ensures contents != [] ==> |rows| < |contents|
    ensures contents != [] ==> forall r :: r in rows ==> forall k :: k in r <==> k in contents[0]
  {
    if contents == [] then [] else DataRows(contents[0], contents[1..])
  }

  // ------------------------------------------------------------ encoding

  /** `$row[$column] ?? ''`. */
  function Lookup(row: Row, column: string): string {
    if column in row then row[column] else ""
  }

  /** The line `writeAll` writes for a row: its value under each header column, in header order. */
  function Project(header: Record, row: Row): (fields: Record)
    ensures |fields| == |header|
    ensures forall i :: 0 <= i < |header| ==> fields[i] == (if header[i] in row then row[header[i]] else "")
  {
    seq(|header|, i requires 0 <= i < |header| => Lookup(row, header[i]))
  }

  /** The lines of a file that `writeAll($header, $data)` produced. */
  function Written(header: Record, data: seq<Row>): (contents: seq<Record>)
    ensures |contents| == |data| + 1 && contents[0] == header
    ensures forall i :: 0 <= i < |data| ==> contents[i + 1] == Project(header, data[i])
  {
    [header] + seq(|data|, i requires 0 <= i < |data| => Project(header, data[i]))
  }

  /** A row as it reads back after being written under `header`: its header columns, '' where missing. */
  function Restrict(row: Row, header: Record): (r: Row)
    ensures forall k :: k in r <==> k in header
    ensures forall k :: k in r ==> r[k] == (if k in row then row[k] else "")
  {
    if header == [] then map[]
    else
      var n := |header| - 1;
      assert header == header[..n] + [header[n]];
      Restrict(row, header[..n])[header[n] := Lookup(row, header[n])]
  }

  // ------------------------------------------------------------ codec properties

  lemma {:induction false} CombineProject(header: Record, row: Row)
    ensures Combine(header, Project(header, row)) == Restrict(row, header)
  {
    if header != [] {
      var n := |header| - 1;
      assert Project(header, row)[..n] == Project(header[..n], row);
      CombineProject(header[..n], row);
    }
  }

  /**
   * Round trip: reading a file written by `writeAll($header, $data)` gives back
   * every row, in order, restricted to the header columns with '' for missing keys.
   */
  lemma {:induction false} ReadAfterWrite(header: Record, data: seq<Row>)
    ensures ReadRows(Written(header, data)) == seq(|data|, i requires 0 <= i < |data| => Restrict(data[i], header))
  {
    var lines := Written(header, data)[1..];
    DataRowsOfProjections(header, data, lines);
    var expected := seq(|data|, i requires 0 <= i < |data| => Restrict(data[i], header));
    assert ReadRows(Written(header, data)) == DataRows(header, lines);
    assert forall i :: 0 <= i < |data| ==> DataRows(header, lines)[i] == expected[i];
  }

  lemma {:induction false} DataRowsOfProjections(header: Record, data: seq<Row>, lines: seq<Record>)
    requires |lines| == |data|
    requires forall i :: 0 <= i < |data| ==> lines[i] == Project(header, data[i])
    ensures |DataRows(header, lines)| == |data|
    ensures forall i :: 0 <= i < |data| ==> DataRows(header, lines)[i] == Restrict(data[i], header)
  {
    if data != [] {
      var n := |data| - 1;
      var data', lines' := data[..n], lines[..n];
      forall i | 0 <= i < n ensures lines'[i] == Project(header, data'[i]) {
        assert lines'[i] == lines[i] && data'[i] == data[i];
      }
      DataRowsOfProjections(header, data', lines');
      DataRowsSnoc(header, lines);
      CombineProject(header, data[n]);
      RestrictedSnoc(header, data, DataRows(header, lines'), Combine(header, lines[n]));
    }
  }

  /** A last line with as many fields as the header becomes the last row. */
  lemma DataRowsSnoc(header: Record, lines: seq<Record>)
    requires lines != [] && |lines[|lines| - 1]| == |header|
    ensures DataRows(header, lines) == DataRows(header, lines[..|lines| - 1]) + [Combine(header, lines[|lines| - 1])]
  {
  }

  lemma RestrictedSnoc(header: Record, data: seq<Row>, rows: seq<Row>, row: Row)
    requires data != [] && |rows| == |data| - 1 && row == Restrict(data[|data| - 1], header)
    requires forall i :: 0 <= i < |rows| ==> rows[i] == Restrict(data[..|rows|][i], header)
    ensures forall i :: 0 <= i < |data| ==> (rows + [row])[i] == Restrict(data[i], header)
  {
    forall i | 0 <= i < |rows| ensures (rows + [row])[i] == Restrict(data[i], header) {
      assert data[..|rows|][i] == data[i];
    }
  }

  /** A row that already has exactly the header's columns reads back unchanged. */
  lemma RestrictShaped(row: Row, header: Record)
    requires forall k :: k in row <==> k in header
    ensures Restrict(row, header) == row
  {
  }

  /**
   * Appending a line to a file that has a header adds one row when the field
   * counts agree, and is silently ignored by `readAll` when they differ.
   */
  lemma ReadRowsAppend(contents: seq<Record>, line: Record)
    requires contents != []
    ensures |line| == |contents[0]| ==> ReadRows(contents + [line]) == ReadRows(contents) + [Combine(contents[0], line)]
    ensures |line| != |contents[0]| ==> ReadRows(contents + [line]) == ReadRows(contents)
  {
    var all := contents + [line];
    var lines := contents[1..];
    assert all[0] == contents[0];
    assert all[1..] == lines + [line];
    assert (lines + [line])[..|lines|] == lines;
  }

  // ------------------------------------------------------------ the handler

  /** Where `writeAll` can fail: creating, writing, flushing or closing the temporary file, or renaming it. */
  datatype WriteFault =
    | NoFault
    | TempNameFails             // tempnam() returns false
    | TempOpenFails             // fopen($tempFile, 'w') fails
    | LineWriteFails(line: nat) // fputcsv() fails on this line of the temporary file; 0 is the header
    | FlushFails
    | CloseFails
    | RenameFails
  {
    /** The fault does not interrupt a write of a header and `lines` data lines. */
    predicate Allows(lines: nat) {
      NoFault? || (LineWriteFails? && line > lines)
    }
  }

  class CsvHandler {
    const file: StoreFile

    /** `new CsvHandler($path)`: `ensureFileExists` creates an empty file if none is there. */
    constructor (file: StoreFile, createSucceeds: bool)
      modifies file
      ensures this.file == file
      ensures old(file.present) || !createSucceeds ==> unchanged(file)
      ensures !old(file.present) && createSucceeds ==> file.present && file.readable && file.writable && file.records == []
    {
      this.file := file;
      new;
      if !file.present && createSucceeds {
        file.present, file.readable, file.writable, file.records := true, true, true, [];
      }
    }

    /** `readAll`: the rows of the file, paired with its header names. */
    method ReadAll() returns (rows: seq<Row>)
      ensures rows == ReadRows(file.Contents())
    {
      rows := [];
      if !file.present || !file.readable {
        return;
      }
      var contents := file.records;
      if contents == [] {
        return;
      }
      var header := contents[0];
      var i := 1;
      while i < |contents|
        invariant 1 <= i <= |contents|
        invariant rows == DataRows(header, contents[1..i])
      {
        var data := contents[i];
        if |header| == |data| {
          rows := rows + [Combine(header, data)];
        }
        assert contents[1..i + 1][..i - 1] == contents[1..i];
        i := i + 1;
      }
      assert contents[1..i] == contents[1..];
    }

    /**
     * `writeAll`: writes the header and each row projected onto it to a
     * temporary file, then renames that file over the target. The target
     * changes only by that rename, and only when the target is missing or
     * writable; on every failure it is left exactly as it was.
     */
    method WriteAll(header: Record, data: seq<Row>, fault: WriteFault) returns (success: bool)
      modifies file
      ensures success <==> fault.Allows(|data|) && old(file.CanReplace())
      ensures success ==> file.present && file.readable && file.writable && file.records == Written(header, data)
      ensures !success ==> unchanged(file)
    {
      if fault.TempNameFails? || fault.TempOpenFails? {
        return false;
      }
      if fault == LineWriteFails(0) {
        return false;
      }
      var temp: seq<Record> := [header];
      var i := 0;
      while i < |data|
        invariant 0 <= i <= |data|
        invariant !(fault.LineWriteFails? && 0 < fault.line <= i)
        invariant |temp| == i + 1 && temp[0] == header
        invariant forall j :: 0 <= j < i ==> temp[j + 1] == Project(header, data[j])
      {
        var rowData: Record := [];
        var j := 0;
        while j < |header|
          invariant 0 <= j <= |header|
          invariant rowData == Project(header, data[i])[..j]
        {
          rowData := rowData + [Lookup(data[i], header[j])];
          j := j + 1;
        }
        if fault == LineWriteFails(i + 1) {
          return false;
        }
        temp := temp + [rowData];
        i := i + 1;
      }
      if fault.FlushFails? || fault.CloseFails? {
        return false;
      }
      if !file.present || file.writable {
        if fault.RenameFails? {
          return false;
        }
        assert temp == Written(header, data);
        file.present, file.readable, file.writable, file.records := true, true, true, temp;
        success := true;
      } else {
        success := false;
      }
    }

    /**
     * `appendRow`: opens the file for appending, or for writing when it is
     * missing or empty, in which case the row's keys are written first as the
     * header; then the row's values are written as one line.
     */
    method AppendRow(row: seq<(string, string)>) returns (ok: bool)
      modifies file
      ensures ok <==> old(file.CanReplace())
      ensures ok ==> file.present && file.writable
      ensures ok ==> file.readable == (old(file.readable) || !old(file.present))
      ensures ok ==> file.records == (if old(file.present) && old(file.records) != [] then old(file.records) else [Keys(row)]) + [Values(row)]
      ensures !ok ==> unchanged(file)
    {
      var truncate := !(file.present && |file.records| > 0);
      if file.present && !file.writable {
        return false;
      }
      if truncate {
        file.readable := file.readable || !file.present;
        file.present, file.writable, file.records := true, true, [Keys(row)];
      }
      file.records := file.records + [Values(row)];
      ok := true;
    }
  }

  /** `array_keys($row)`. */
  function Keys(row: seq<(string, string)>): (keys: Record)
    ensures |keys| == |row| && forall i :: 0 <= i < |row| ==> keys[i] == row[i].0
  {
    seq(|row|, i requires 0 <= i < |row| => row[i].0)
  }

  /** The values of `$row`, in order. */
  function Values(row: seq<(string, string)>): (values: Record)
    ensures |values| == |row| && forall i :: 0 <= i < |row| ==> values[i] == row[i].1
  {
    seq(|row|, i requires 0 <= i < |row| => row[i].1)
  }
}
