/**
 * The client registry (`ClientManager`). A client is not stored on its own:
 * it is any name found in the client field (column 1) of a data line. The
 * registry reads the lines of the file directly, not through `CsvHandler`,
 * so it also sees lines whose field count differs from the header's.
 */
module Clients {
  import opened Wrappers
  import opened PhpStrings
  import opened Csv

  // ------------------------------------------------------------ listing

  /** `!empty($data[CSV_COL_CLIENT])`: the line has a client field PHP does not consider empty. */
  predicate NamesClient(line: Record) {
    |line| > 1 && !IsEmpty(line[1])
  }

  /** The names `listClients` collects from the data lines, in file order, trimmed. */
  function ClientNames(lines: seq<Record>): (names: seq<string>)
    ensures |names| <= |lines|
  {
    if lines == [] then []
    else
      var n := |lines| - 1;
      var names := ClientNames(lines[..n]);
      if NamesClient(lines[n]) then names + [Trim(lines[n][1])] else names
  }

  /** Line `i` names a client whose trimmed name is `x`. */
  predicate NamedAt(lines: seq<Record>, i: int, x: string) {
    0 <= i < |lines| && NamesClient(lines[i]) && x == Trim(lines[i][1])
  }

  /** Every collected name comes from some data line. */
  lemma {:induction false} ClientNamesSound(lines: seq<Record>, x: string)
    requires x in ClientNames(lines)
    ensures exists i :: NamedAt(lines, i, x)
  {
    var n := |lines| - 1;
    var prefix := lines[..n];
    if x in ClientNames(prefix) {
      ClientNamesSound(prefix, x);
      var i :| NamedAt(prefix, i, x);
      assert prefix[i] == lines[i];
      assert NamedAt(lines, i, x);
    } else {
      assert NamedAt(lines, n, x);
    }
  }

  /** The name of every data line that names a client is collected. */
  lemma {:induction false} ClientNamesComplete(lines: seq<Record>, i: int, x: string)
    requires NamedAt(lines, i, x)
    ensures x in ClientNames(lines)
  {
    var n := |lines| - 1;
    var prefix := lines[..n];
    var names := ClientNames(prefix);
    if i < n {
      assert prefix[i] == lines[i];
      ClientNamesComplete(prefix, i, x);
      assert ClientNames(lines) == names || ClientNames(lines) == names + [Trim(lines[n][1])];
    } else {
      assert ClientNames(lines) == names + [x];
    }
  }

  /** A name is collected exactly when some data line names a client that trims to it. */
  lemma ClientNamesMember(lines: seq<Record>, x: string)
    ensures x in ClientNames(lines) <==> exists i :: NamedAt(lines, i, x)
  {
    if x in ClientNames(lines) {
      ClientNamesSound(lines, x);
    }
    if exists i :: NamedAt(lines, i, x) {
      var i :| NamedAt(lines, i, x);
      ClientNamesComplete(lines, i, x);
    }
  }

  /**
   * `listClients` over the lines of the file: the first line is skipped as the
   * header, the client names are collected, exact duplicates are removed and
   * the rest sorted.
   */
  function ListedClients(contents: seq<Record>): (clients: seq<string>)
    ensures contents == [] ==> clients == []
  {
    if contents == [] then [] else Sort(Unique(ClientNames(contents[1..])))
  }

  /** The listing is in strictly increasing `strcmp` order, so it holds no name twice. */
  lemma ListedClientsSorted(contents: seq<Record>)
    ensures StrictlySorted(ListedClients(contents))
    ensures NoDuplicates(ListedClients(contents))
  {
    if contents != [] {
      var unique := Unique(ClientNames(contents[1..]));
      SortDistinct(unique);
      var r := Sort(unique);
      forall i, j | 0 <= i < j < |r| ensures r[i] != r[j] {
        LessIrreflexive(r[i]);
      }
    }
  }

  /** A name is listed exactly when some data line (not the first line) names a client that trims to it. */
  lemma ListedClientsMember(contents: seq<Record>, x: string)
    ensures x in ListedClients(contents) <==> exists i :: 1 <= i && NamedAt(contents, i, x)
  {
    if contents != [] {
      var lines := contents[1..];
      var unique := Unique(ClientNames(lines));
      assert x in Sort(unique) <==> x in multiset(Sort(unique));
      assert x in unique <==> x in multiset(unique);
      ClientNamesMember(lines, x);
      if exists i :: 1 <= i && NamedAt(contents, i, x) {
        var i :| 1 <= i && NamedAt(contents, i, x);
        assert NamedAt(lines, i - 1, x);
      }
      if exists i :: NamedAt(lines, i, x) {
        var i :| NamedAt(lines, i, x);
        assert NamedAt(contents, i + 1, x);
      }
    }
  }

  /** The trimmed client of any data line is listed. */
  lemma ListedFromLine(contents: seq<Record>, i: nat)
    requires 1 <= i < |contents| && NamesClient(contents[i])
    ensures Trim(contents[i][1]) in ListedClients(contents)
  {
    ListedClientsMember(contents, Trim(contents[i][1]));
    assert NamedAt(contents, i, Trim(contents[i][1]));
  }

  /**
   * In a file `writeAll` produced, a name is listed only if it is the trimmed
   * value of some row under the second column.
   */
  lemma UnlistedAfterWrite(header: Record, rows: seq<Row>, x: string)
    requires |header| > 1
    requires forall i :: 0 <= i < |rows| ==> Trim(Lookup(rows[i], header[1])) != x
    ensures x !in ListedClients(Written(header, rows))
  {
    var w := Written(header, rows);
    ListedClientsMember(w, x);
    forall i | 1 <= i < |w| ensures !NamedAt(w, i, x) {
      assert w[i] == Project(header, rows[i - 1]);
    }
  }

  /** A file holding only a header line lists no client and yields no row. */
  lemma HeaderOnly(header: Record)
    ensures ListedClients([header]) == [] && ReadRows([header]) == []
  {
    assert [header][1..] == [];
  }

  /**
   * The name of a data line makes every name equal to it ignoring case
   * non-unique: `isClientUnique` answers false for it.
   */
  lemma NameTakenIgnoringCase(contents: seq<Record>, i: nat, name: string)
    requires 1 <= i < |contents| && NamesClient(contents[i])
    requires SameIgnoringCase(Trim(contents[i][1]), Trim(name))
    ensures exists c :: c in ListedClients(contents) && SameIgnoringCase(c, Trim(name))
  {
    ListedClientsMember(contents, Trim(contents[i][1]));
    assert NamedAt(contents, i, Trim(contents[i][1]));
  }

  // ------------------------------------------------------------ the rows the registry writes

  /**
   * The line `createClient` appends: `array_fill(0, 6, '')` with the client,
   * the date, the amount 0 and the type 'initial' filled in. It has six
   * fields, one fewer than the ledger's header.
   */
  function ClientRecord(name: string, date: string): (line: Record)
    ensures |line| == 6 && line[1] == name && line[2] == date
    ensures line[0] == "" && line[3] == "0" && line[4] == "initial" && line[5] == ""
  {
    ["", name, date, "0", "initial", ""]
  }

  /**
   * The data lines `updateClient` copies to the new file: only lines of
   * exactly four fields, each with field 0 replaced by `newName` when it is
   * identical to `oldName`.
   */
  function RenamedAsWritten(lines: seq<Record>, oldName: string, newName: string): (r: seq<Record>)
    ensures |r| <= |lines|
    ensures forall i :: 0 <= i < |r| ==> |r[i]| == 4
  {
    if lines == [] then []
    else
      var n := |lines| - 1;
      var r := RenamedAsWritten(lines[..n], oldName, newName);
      if |lines[n]| != 4 then r else r + [RenameField0(lines[n], oldName, newName)]
  }

  /** `if ($data[0] === $oldName) $data[0] = $newName;` */
  function RenameField0(line: Record, oldName: string, newName: string): (r: Record)
    requires |line| > 0
    ensures |r| == |line| && r[1..] == line[1..]
    ensures r[0] == (if line[0] == oldName then newName else line[0])
  {
    if line[0] == oldName then line[0 := newName] else line
  }

  /**
   * On a file whose data lines all have four fields, no line is dropped; in
   * each line field 0 is renamed when it was `oldName`, and nothing else changes.
   */
  lemma {:induction false} RenamedAsWrittenFourFields(lines: seq<Record>, oldName: string, newName: string)
    requires forall i :: 0 <= i < |lines| ==> |lines[i]| == 4
    ensures |RenamedAsWritten(lines, oldName, newName)| == |lines|
    ensures forall i :: 0 <= i < |lines| ==> RenamedAsWritten(lines, oldName, newName)[i] == RenameField0(lines[i], oldName, newName)
  {
    if lines != [] {
      var n := |lines| - 1;
      var prefix := lines[..n];
      assert forall i :: 0 <= i < n ==> prefix[i] == lines[i];
      RenamedAsWrittenFourFields(prefix, oldName, newName);
      assert RenamedAsWritten(lines, oldName, newName)
             == RenamedAsWritten(prefix, oldName, newName) + [RenameField0(lines[n], oldName, newName)];
      RenamedSnoc(lines, RenamedAsWritten(prefix, oldName, newName), oldName, newName);
    }
  }

  /** Lines are renamed one at a time: the result for two runs of lines is the two results joined. */
  lemma {:induction false} RenamedAsWrittenConcat(a: seq<Record>, b: seq<Record>, oldName: string, newName: string)
    ensures RenamedAsWritten(a + b, oldName, newName) == RenamedAsWritten(a, oldName, newName) + RenamedAsWritten(b, oldName, newName)
    decreases |b|
  {
    if b == [] {
      assert a + b == a;
    } else {
      var prefix, x := b[..|b| - 1], b[|b| - 1];
      calc {
        RenamedAsWritten(a + b, oldName, newName);
        { assert a + b == (a + prefix) + [x]; }
        RenamedAsWritten((a + prefix) + [x], oldName, newName);
        { RenamedAsWrittenSnoc(a + prefix, x, oldName, newName); }
        RenamedAsWritten(a + prefix, oldName, newName) + RenamedAsWritten([x], oldName, newName);
        { RenamedAsWrittenConcat(a, prefix, oldName, newName); }
        RenamedAsWritten(a, oldName, newName) + RenamedAsWritten(prefix, oldName, newName) + RenamedAsWritten([x], oldName, newName);
        { RenamedAsWrittenSnoc(prefix, x, oldName, newName);
          assert prefix + [x] == b; }
        RenamedAsWritten(a, oldName, newName) + RenamedAsWritten(b, oldName, newName);
      }
    }
  }

  lemma RenamedAsWrittenSnoc(lines: seq<Record>, line: Record, oldName: string, newName: string)
    ensures RenamedAsWritten(lines + [line], oldName, newName)
            == RenamedAsWritten(lines, oldName, newName) + RenamedAsWritten([line], oldName, newName)
  {
    assert (lines + [line])[..|lines|] == lines;
    RenamedAsWrittenLine(line, oldName, newName);
  }

  /** A single line is kept, renamed, exactly when it has four fields. */
  lemma RenamedAsWrittenLine(line: Record, oldName: string, newName: string)
    ensures |line| == 4 ==> RenamedAsWritten([line], oldName, newName) == [RenameField0(line, oldName, newName)]
    ensures |line| != 4 ==> RenamedAsWritten([line], oldName, newName) == []
  {
    assert [line][..0] == [];
  }

  lemma RenamedSnoc(lines: seq<Record>, r: seq<Record>, oldName: string, newName: string)
    requires lines != [] && |r| == |lines| - 1
    requires forall i :: 0 <= i < |lines| ==> |lines[i]| == 4
    requires forall i :: 0 <= i < |r| ==> r[i] == RenameField0(lines[i], oldName, newName)
    ensures forall i :: 0 <= i < |lines| ==>
              (r + [RenameField0(lines[|r|], oldName, newName)])[i] == RenameField0(lines[i], oldName, newName)
  {
  }

  /** Lines that do not have four fields are all dropped: on a ledger file nothing is kept. */
  lemma {:induction false} RenamedAsWrittenDropsOthers(lines: seq<Record>, oldName: string, newName: string)
    requires forall i :: 0 <= i < |lines| ==> |lines[i]| != 4
    ensures RenamedAsWritten(lines, oldName, newName) == []
  {
    if lines != [] {
      var n := |lines| - 1;
      assert forall i :: 0 <= i < n ==> lines[..n][i] == lines[i];
      RenamedAsWrittenDropsOthers(lines[..n], oldName, newName);
    }
  }

  /** The `while (fgetcsv(...))` loop of `updateClient`, writing the lines it keeps. */
  method CopyFourFieldLines(lines: seq<Record>, oldName: string, newName: string) returns (kept: seq<Record>)
    ensures kept == RenamedAsWritten(lines, oldName, newName)
  {
    kept := [];
    var i := 0;
    while i < |lines|
      invariant 0 <= i <= |lines|
      invariant kept == RenamedAsWritten(lines[..i], oldName, newName)
    {
      var data := lines[i];
      assert lines[..i + 1][..i] == lines[..i];
      if |data| == 4 {
        if data[0] == oldName {
          data := data[0 := newName];
        }
        kept := kept + [data];
      }
      i := i + 1;
    }
    assert lines[..i] == lines;
  }

  /** The `foreach` of `isClientUnique`: is some name `strcasecmp`-equal to `name`? It stops at the first. */
  method MatchesIgnoringCase(names: seq<string>, name: string) returns (found: bool)
    ensures found <==> exists c :: c in names && SameIgnoringCase(c, name)
  {
    var i := 0;
    while i < |names|
      invariant 0 <= i <= |names|
      invariant forall j :: 0 <= j < i ==> !SameIgnoringCase(names[j], name)
    {
      if SameIgnoringCase(names[i], name) {
        return true;
      }
      i := i + 1;
    }
    return false;
  }

  // ------------------------------------------------------------ the manager

  class ClientManager {
    const file: StoreFile

    constructor (file: StoreFile)
      ensures this.file == file
    {
      this.file := file;
    }

    /**
     * `listClients`: nothing when the file cannot be opened; otherwise the
     * header line is skipped and the names are collected, deduplicated and sorted.
     */
    method ListClients() returns (clients: seq<string>)
      ensures clients == ListedClients(file.Contents())
    {
      clients := [];
      if !file.present || !file.readable {
        return;
      }
      var contents := file.records;
      var lines := if contents == [] then [] else contents[1..];
      var names: seq<string> := [];
      var i := 0;
      while i < |lines|
        invariant 0 <= i <= |lines|
        invariant names == ClientNames(lines[..i])
      {
        var data := lines[i];
        if |data| > 1 && !IsEmpty(data[1]) {
          names := names + [Trim(data[1])];
        }
        assert lines[..i + 1][..i] == lines[..i];
        i := i + 1;
      }
      assert lines[..i] == lines;
      clients := Sort(Unique(names));
    }

    /**
     * `isClientUnique($clientName)`: false exactly when some listed client
     * equals the trimmed name, ignoring ASCII case.
     */
    method IsClientUnique(name: string) returns (unique: bool)
      ensures unique <==> forall c :: c in ListedClients(file.Contents()) ==> !SameIgnoringCase(c, Trim(name))
    {
      var clients := ListClients();
      var taken := MatchesIgnoringCase(clients, Trim(name));
      unique := !taken;
    }

    /**
     * `createClient($clientName)`: rejects a name PHP considers empty; fails
     * when the file cannot be opened for reading or for appending; otherwise
     * appends the six-field bootstrap line. The date is a parameter.
     */
    method CreateClient(name: string, date: string) returns (result: Outcome<bool>)
      modifies file
      ensures IsEmpty(name) ==> result == Threw(Exception("Client name cannot be empty")) && unchanged(file)
      ensures !IsEmpty(name) && !(old(file.present) && old(file.readable) && old(file.writable)) ==>
                result == Threw(Exception("Failed to create client")) && unchanged(file)
      ensures !IsEmpty(name) && old(file.present) && old(file.readable) && old(file.writable) ==>
                && result == Returned(true)
                && file.present && file.readable && file.writable
                && file.records == old(file.records) + [ClientRecord(name, date)]
    {
      if IsEmpty(name) {
        return Threw(Exception("Client name cannot be empty"));
      }
      if !file.present || !file.readable || !file.writable {
        return Threw(Exception("Failed to create client"));
      }
      file.records := file.records + [ClientRecord(name, date)];
      return Returned(true);
    }

    /**
     * `updateClient($oldName, $newName)`: rejects names PHP considers empty;
     * fails when the file is missing or unreadable or the temporary file cannot
     * be opened; copies the header and then only the four-field lines, renaming
     * field 0; and renames the temporary file over the target. On an empty
     * file the missing header reaches `fputcsv` as `false`, a TypeError.
     */
    method UpdateClient(oldName: string, newName: string, tempOpens: bool, renameSucceeds: bool)
      returns (result: Outcome<bool>)
      modifies file
      ensures IsEmpty(oldName) || IsEmpty(newName) ==>
                result == Threw(Exception("Client names cannot be empty")) && unchanged(file)
      ensures !IsEmpty(oldName) && !IsEmpty(newName) && !(old(file.present) && old(file.readable) && tempOpens) ==>
                result == Threw(Exception("Failed to update client")) && unchanged(file)
      ensures !IsEmpty(oldName) && !IsEmpty(newName) && old(file.present) && old(file.readable) && tempOpens
              && old(file.records) == [] ==>
                result.Threw? && result.error.TypeError? && unchanged(file)
      ensures !IsEmpty(oldName) && !IsEmpty(newName) && old(file.present) && old(file.readable) && tempOpens
              && old(file.records) != [] ==>
                && (!renameSucceeds ==> result == Threw(Exception("Failed to update client name")) && unchanged(file))
                && (renameSucceeds ==>
                      && result == Returned(true)
                      && file.present && file.readable && file.writable
                      && file.records == [old(file.records)[0]] + RenamedAsWritten(old(file.records)[1..], oldName, newName))
    {
      if IsEmpty(oldName) || IsEmpty(newName) {
        return Threw(Exception("Client names cannot be empty"));
      }
      if !file.present || !file.readable || !tempOpens {
        return Threw(Exception("Failed to update client"));
      }
      var contents := file.records;
      if contents == [] {
        return Threw(TypeError("fputcsv(): Argument #2 ($fields) must be of type array, bool given"));
      }
      var kept := CopyFourFieldLines(contents[1..], oldName, newName);
      var temp := [contents[0]] + kept;
      if !renameSucceeds {
        return Threw(Exception("Failed to update client name"));
      }
      file.present, file.readable, file.writable, file.records := true, true, true, temp;
      return Returned(true);
    }
  }

  // ------------------------------------------------------------ as-written behaviour and corrections

  /**
   * The bootstrap line has six fields, so under the ledger's seven-column
   * header `readAll` drops it: the ledger never sees it, and the next ledger
   * rewrite does not carry it over.
   */
  lemma BootstrapIgnoredByLedger(contents: seq<Record>, name: string, date: string)
    requires contents != [] && |contents[0]| == 7
    ensures ReadRows(contents + [ClientRecord(name, date)]) == ReadRows(contents)
  {
    ReadRowsAppend(contents, ClientRecord(name, date));
  }

  /** A client created in a file that has a header line is listed, trimmed. */
  lemma CreatedClientListed(contents: seq<Record>, name: string, date: string)
    requires contents != [] && !IsEmpty(name)
    ensures Trim(name) in ListedClients(contents + [ClientRecord(name, date)])
  {
    var c := contents + [ClientRecord(name, date)];
    ListedClientsMember(c, Trim(name));
    assert NamedAt(c, |contents|, Trim(name));
  }

  /** A client created in an empty file becomes the header line, and so is not listed. */
  lemma CreatedInEmptyFileNotListed(name: string, date: string)
    ensures ListedClients([ClientRecord(name, date)]) == []
  {
    assert [ClientRecord(name, date)][1..] == [];
  }

  /**
   * The bootstrap line as the ledger's schema calls for: the same fields plus
   * `deleted` '0', seven in all, so that it is a ledger row like any other.
   */
  function SeedRecord(name: string, date: string): (line: Record)
    ensures |line| == 7 && line[..6] == ClientRecord(name, date) && line[6] == "0"
  {
    ClientRecord(name, date) + ["0"]
  }

  /**
   * The corrected bootstrap line is read back by the ledger: under a
   * seven-column header it becomes one more row, whose client column holds
   * the name.
   */
  lemma SeedRecordRead(contents: seq<Record>, name: string, date: string)
    requires contents != [] && |contents[0]| == 7 && contents[0][1] !in contents[0][2..]
    ensures ReadRows(contents + [SeedRecord(name, date)])
            == ReadRows(contents) + [Combine(contents[0], SeedRecord(name, date))]
    ensures Combine(contents[0], SeedRecord(name, date))[contents[0][1]] == name
  {
    ReadRowsAppend(contents, SeedRecord(name, date));
    CombineAt(contents[0], SeedRecord(name, date), 1);
  }

  /**
   * Renaming as the registry means it: every data line whose client field
   * (column 1) is `oldName` gets `newName` there; no line is dropped and no
   * other field changes.
   */
  function RenameClient(lines: seq<Record>, oldName: string, newName: string): (r: seq<Record>)
    ensures |r| == |lines|
    ensures forall i :: 0 <= i < |lines| ==> |r[i]| == |lines[i]|
    ensures forall i, j :: 0 <= i < |lines| && 0 <= j < |lines[i]| && j != 1 ==> r[i][j] == lines[i][j]
    ensures forall i :: 0 <= i < |lines| && |lines[i]| > 1 ==>
              r[i][1] == (if lines[i][1] == oldName then newName else lines[i][1])
  {
    seq(|lines|, i requires 0 <= i < |lines| =>
          if |lines[i]| > 1 && lines[i][1] == oldName then lines[i][1 := newName] else lines[i])
  }

  /** Lines with the same field counts give the same number of rows to `readAll`. */
  lemma {:induction false} DataRowsSameShape(header: Record, a: seq<Record>, b: seq<Record>)
    requires |a| == |b| && forall i :: 0 <= i < |a| ==> |a[i]| == |b[i]|
    ensures |DataRows(header, a)| == |DataRows(header, b)|
  {
    if a != [] {
      var n := |a| - 1;
      DataRowsSameShape(header, a[..n], b[..n]);
    }
  }

  /**
   * The corrected rename keeps every ledger row: `readAll` yields as many rows
   * after it as before, and the new name is listed wherever the old one was.
   */
  lemma RenameClientKeepsRows(header: Record, lines: seq<Record>, oldName: string, newName: string, i: nat)
    requires i < |lines| && |lines[i]| > 1 && lines[i][1] == oldName && !IsEmpty(newName)
    ensures |ReadRows([header] + RenameClient(lines, oldName, newName))| == |ReadRows([header] + lines)|
    ensures Trim(newName) in ListedClients([header] + RenameClient(lines, oldName, newName))
  {
    var renamed := RenameClient(lines, oldName, newName);
    assert ([header] + renamed)[1..] == renamed;
    assert ([header] + lines)[1..] == lines;
    DataRowsSameShape(header, renamed, lines);
    var c := [header] + renamed;
    assert c[i + 1] == renamed[i];
    ListedClientsMember(c, Trim(newName));
    assert NamedAt(c, i + 1, Trim(newName));
  }

  // ------------------------------------------------------------ deduplication ignoring case

  /**
   * `array_unique` compares exactly, so two data lines whose client names
   * differ only in case ("Bob" and "bob") are both listed, and the listing
   * holds two names that `strcasecmp` treats as the same client.
   */
  lemma CaseVariantsBothListed(contents: seq<Record>, i: nat, j: nat)
    requires 1 <= i < |contents| && 1 <= j < |contents| && NamesClient(contents[i]) && NamesClient(contents[j])
    requires Trim(contents[i][1]) != Trim(contents[j][1])
    requires SameIgnoringCase(Trim(contents[i][1]), Trim(contents[j][1]))
    ensures Trim(contents[i][1]) in ListedClients(contents) && Trim(contents[j][1]) in ListedClients(contents)
    ensures !NoCaseDuplicates(ListedClients(contents))
  {
    var a, b := Trim(contents[i][1]), Trim(contents[j][1]);
    assert NamedAt(contents, i, a) && NamedAt(contents, j, b);
    ListedClientsMember(contents, a);
    ListedClientsMember(contents, b);
    var listed := ListedClients(contents);
    var p :| 0 <= p < |listed| && listed[p] == a;
    var q :| 0 <= q < |listed| && listed[q] == b;
    if p < q {
      assert SameIgnoringCase(listed[p], listed[q]);
    } else {
      assert SameIgnoringCase(listed[q], listed[p]);
    }
  }

  predicate NoCaseDuplicates(s: seq<string>) {
    forall i, j :: 0 <= i < j < |s| ==> !SameIgnoringCase(s[i], s[j])
  }

  /** Each name lower-cased, in order. */
  function LowerEach(s: seq<string>): (r: seq<string>)
    ensures |r| == |s| && forall i :: 0 <= i < |s| ==> r[i] == Lower(s[i])
  {
    seq(|s|, i requires 0 <= i < |s| => Lower(s[i]))
  }

  /**
   * Deduplication as the comment on `listClients` describes it: names equal
   * ignoring case count as one, and the first-seen casing is the one kept.
   * Every name of the input has its case-insensitive equal in the result.
   */
  function UniqueIgnoringCase(s: seq<string>): (r: seq<string>)
    ensures NoCaseDuplicates(r)
    ensures forall x :: x in r ==> x in s
    ensures forall x :: x in s ==> Lower(x) in LowerEach(r)
    ensures |r| <= |s|
  {
    if s == [] then []
    else
      var n := |s| - 1;
      var u := UniqueIgnoringCase(s[..n]);
      var x := s[n];
      assert s == s[..n] + [x];
      if Lower(x) in LowerEach(u) then u
      else
        assert LowerEach(u + [x]) == LowerEach(u) + [Lower(x)];
        assert forall i :: 0 <= i < |u| ==> Lower(u[i]) != Lower(x) by {
          forall i | 0 <= i < |u| ensures Lower(u[i]) != Lower(x) {
            assert LowerEach(u)[i] == Lower(u[i]);
          }
        }
        u + [x]
  }

  /** `x` occurs in `s`, and no earlier name of `s` equals it ignoring case. */
  predicate FirstOfItsCase(s: seq<string>, x: string) {
    exists j :: 0 <= j < |s| && s[j] == x && forall i :: 0 <= i < j ==> Lower(s[i]) != Lower(x)
  }

  /** Every name kept is written as it was first seen: no earlier name differs from it only in case. */
  lemma {:induction false} UniqueIgnoringCaseFirstSeen(s: seq<string>)
    ensures forall k :: 0 <= k < |UniqueIgnoringCase(s)| ==> FirstOfItsCase(s, UniqueIgnoringCase(s)[k])
  {
    if s != [] {
      var n := |s| - 1;
      var prefix := s[..n];
      var u := UniqueIgnoringCase(prefix);
      var x := s[n];
      var r := UniqueIgnoringCase(s);
      UniqueIgnoringCaseFirstSeen(prefix);
      assert s == prefix + [x];
      forall k | 0 <= k < |r| ensures FirstOfItsCase(s, r[k]) {
        if k < |u| {
          assert r[k] == u[k];
          FirstOfItsCaseExtend(prefix, x, u[k]);
        } else {
          assert r[k] == x && Lower(x) !in LowerEach(u);
          forall i | 0 <= i < n ensures Lower(s[i]) != Lower(x) {
            assert s[i] == prefix[i] && prefix[i] in prefix;
          }
          assert s[n] == x;
        }
      }
    }
  }

  lemma FirstOfItsCaseExtend(s: seq<string>, y: string, x: string)
    requires FirstOfItsCase(s, x)
    ensures FirstOfItsCase(s + [y], x)
  {
    var j :| 0 <= j < |s| && s[j] == x && forall i :: 0 <= i < j ==> Lower(s[i]) != Lower(x);
    assert (s + [y])[j] == x;
    assert forall i :: 0 <= i < j ==> (s + [y])[i] == s[i];
  }
}
