/**
 * The transaction ledger (`TransactionManager`): listing, id assignment,
 * create/upsert, update and soft delete, each done by reading the whole
 * store, changing the rows in memory and writing the whole store back.
 */
module Ledger {
  import opened Wrappers
  import opened PhpStrings
  import opened PhpNumeric
  import opened Csv

  /** The seven columns every ledger write uses, in file order. */
  const Header: Record := ["id", "client", "date", "amount", "type", "label", "deleted"]

  /** The ledger's column names, as a set. */
  const HeaderKeys: set<string> := {"id", "client", "date", "amount", "type", "label", "deleted"}

  lemma HeaderKeysAreHeader()
    ensures forall k :: k in HeaderKeys <==> k in Header
  {
    forall k ensures k in HeaderKeys <==> k in Header {
      if k in Header {
        var i :| 0 <= i < |Header| && Header[i] == k;
        assert i == 0 || i == 1 || i == 2 || i == 3 || i == 4 || i == 5 || i == 6;
      }
    }
  }

  /** A row with exactly the ledger's columns, as every ledger write produces. */
  predicate Shaped(row: Row) {
    row.Keys == HeaderKeys
  }

  /**
   * A transaction as `listTransactions` returns it. The `type` column is
   * `kind`; the amount stays the string that is stored.
   */
  datatype Transaction = Transaction(
    id: string, client: string, date: string, amount: string,
    kind: string, labelText: string, deleted: bool)

  // ------------------------------------------------------------ listing

  /** `isset` of the five columns a listed transaction needs. */
  predicate HasRequiredFields(row: Row) {
    "id" in row && "client" in row && "date" in row && "amount" in row && "type" in row
  }

  /** The stored `deleted` flag is exactly '1'. */
  predicate IsSoftDeleted(row: Row) {
    "deleted" in row && row["deleted"] == "1"
  }

  predicate IsListed(row: Row, includeDeleted: bool) {
    HasRequiredFields(row) && (includeDeleted || !IsSoftDeleted(row))
  }

  function ToTransaction(row: Row): (t: Transaction)
    requires HasRequiredFields(row)
    ensures t.id == row["id"] && t.client == row["client"] && t.date == row["date"]
    ensures t.amount == row["amount"] && t.kind == row["type"]
    ensures t.labelText == (if "label" in row then row["label"] else "")
    ensures t.deleted <==> IsSoftDeleted(row)
  {
    Transaction(row["id"], row["client"], row["date"], row["amount"], row["type"],
                Lookup(row, "label"), IsSoftDeleted(row))
  }

  /**
   * `listTransactions($includeDeleted)` over the rows `readAll` returned: rows
   * missing a required column are skipped, soft-deleted rows are skipped unless
   * asked for, and the rest keep file order.
   */
  function TransactionsOf(rows: seq<Row>, includeDeleted: bool): (ts: seq<Transaction>)
    ensures |ts| <= |rows|
    ensures forall t :: t in ts ==> includeDeleted || !t.deleted
  {
    if rows == [] then []
    else
      (if IsListed(rows[0], includeDeleted) then [ToTransaction(rows[0])] else [])
      + TransactionsOf(rows[1..], includeDeleted)
  }

  /** Listing keeps file order: the listing of two runs of rows is the two listings, one after the other. */
  lemma {:induction false} TransactionsOfConcat(a: seq<Row>, b: seq<Row>, includeDeleted: bool)
    ensures TransactionsOf(a + b, includeDeleted) == TransactionsOf(a, includeDeleted) + TransactionsOf(b, includeDeleted)
  {
    if a != [] {
      var head := if IsListed(a[0], includeDeleted) then [ToTransaction(a[0])] else [];
      assert (a + b)[0] == a[0];
      assert (a + b)[1..] == a[1..] + b;
      assert TransactionsOf(a + b, includeDeleted) == head + TransactionsOf(a[1..] + b, includeDeleted);
      assert TransactionsOf(a, includeDeleted) == head + TransactionsOf(a[1..], includeDeleted);
      TransactionsOfConcat(a[1..], b, includeDeleted);
    } else {
      assert a + b == b;
    }
  }

  /** A transaction is listed exactly when some row with the required columns, visible under the flag, yields it. */
  lemma {:induction false} TransactionsOfMember(rows: seq<Row>, includeDeleted: bool, t: Transaction)
    ensures t in TransactionsOf(rows, includeDeleted) <==>
            exists i :: 0 <= i < |rows| && IsListed(rows[i], includeDeleted) && ToTransaction(rows[i]) == t
  {
    if rows != [] {
      TransactionsOfMember(rows[1..], includeDeleted, t);
      if t in TransactionsOf(rows[1..], includeDeleted) {
        var i :| 0 <= i < |rows[1..]| && IsListed(rows[1..][i], includeDeleted) && ToTransaction(rows[1..][i]) == t;
        assert rows[i + 1] == rows[1..][i];
      }
      if exists i :: 0 <= i < |rows| && IsListed(rows[i], includeDeleted) && ToTransaction(rows[i]) == t {
        var i :| 0 <= i < |rows| && IsListed(rows[i], includeDeleted) && ToTransaction(rows[i]) == t;
        if i > 0 {
          assert rows[1..][i - 1] == rows[i];
        }
      }
    }
  }

  // ------------------------------------------------------------ id assignment

  predicate HasNumericId(row: Row) {
    "id" in row && IsNumeric(row["id"])
  }

  /**
   * The `$maxId` loop of `writeTransaction`: the largest `(int)` id among rows
   * whose id is numeric, or 0 when there is none larger.
   */
  function MaxNumericId(rows: seq<Row>): nat {
    if rows == [] then 0
    else
      var n := |rows| - 1;
      var m := MaxNumericId(rows[..n]);
      if HasNumericId(rows[n]) && IntCast(rows[n]["id"]) > m then IntCast(rows[n]["id"]) else m
  }

  /** No numeric id in the store exceeds the maximum. */
  lemma {:induction false} MaxNumericIdBound(rows: seq<Row>)
    ensures forall i :: 0 <= i < |rows| && HasNumericId(rows[i]) ==> IntCast(rows[i]["id"]) <= MaxNumericId(rows)
  {
    if rows != [] {
      var n := |rows| - 1;
      var prefix := rows[..n];
      MaxNumericIdBound(prefix);
      assert MaxNumericId(prefix) <= MaxNumericId(rows);
      forall i | 0 <= i < |rows| && HasNumericId(rows[i]) ensures IntCast(rows[i]["id"]) <= MaxNumericId(rows) {
        if i < n {
          assert rows[i] == prefix[i];
        }
      }
    }
  }

  /** A positive maximum is the id of some row: the loop only ever keeps ids it has read. */
  lemma {:induction false} MaxNumericIdAttained(rows: seq<Row>)
    ensures MaxNumericId(rows) > 0 ==>
              exists i :: 0 <= i < |rows| && HasNumericId(rows[i]) && IntCast(rows[i]["id"]) == MaxNumericId(rows)
  {
    if rows != [] {
      var n := |rows| - 1;
      var prefix := rows[..n];
      var m := MaxNumericId(prefix);
      if !(HasNumericId(rows[n]) && IntCast(rows[n]["id"]) > m) && m > 0 {
        MaxNumericIdAttained(prefix);
        var i :| 0 <= i < n && HasNumericId(prefix[i]) && IntCast(prefix[i]["id"]) == m;
        assert prefix[i] == rows[i];
      }
    }
  }

  /** `(string)($maxId + 1)`. */
  function NextId(rows: seq<Row>): string {
    DecimalString(MaxNumericId(rows) + 1)
  }

  /**
   * A generated id is strictly above every numeric id in the store, and so is
   * not the id of any row: no row's id is the identical string.
   */
  lemma NextIdFresh(rows: seq<Row>)
    ensures IsNumeric(NextId(rows)) && IntCast(NextId(rows)) == MaxNumericId(rows) + 1
    ensures forall i :: 0 <= i < |rows| && HasNumericId(rows[i]) ==> IntCast(rows[i]["id"]) < IntCast(NextId(rows))
    ensures forall i :: 0 <= i < |rows| && "id" in rows[i] ==> rows[i]["id"] != NextId(rows)
  {
    DecimalStringRoundTrip(MaxNumericId(rows) + 1);
    MaxNumericIdBound(rows);
  }

  /** Appending the row that took the generated id moves the next generated id up by one. */
  lemma {:induction false} NextIdAfterAppend(rows: seq<Row>, row: Row)
    requires "id" in row && row["id"] == NextId(rows)
    ensures MaxNumericId(rows + [row]) == MaxNumericId(rows) + 1
    ensures NextId(rows + [row]) == DecimalString(MaxNumericId(rows) + 2)
  {
    NextIdFresh(rows);
    assert (rows + [row])[..|rows|] == rows;
  }

  /**
   * Ids assigned one after another from an empty store are "1", "2", ...: when
   * row i carries the id i + 1, the next id generated is |rows| + 1.
   */
  lemma {:induction false} SequentialIds(rows: seq<Row>)
    requires forall i :: 0 <= i < |rows| ==> "id" in rows[i] && rows[i]["id"] == DecimalString(i + 1)
    ensures MaxNumericId(rows) == |rows|
    ensures NextId(rows) == DecimalString(|rows| + 1)
  {
    if rows != [] {
      var n := |rows| - 1;
      var prefix := rows[..n];
      forall i | 0 <= i < |prefix| ensures "id" in prefix[i] && prefix[i]["id"] == DecimalString(i + 1) {
        assert prefix[i] == rows[i];
      }
      SequentialIds(prefix);
      assert prefix + [rows[n]] == rows;
      SequentialStep(prefix, rows[n]);
    }
  }

  /** One step of `SequentialIds`: the row numbered |prefix| + 1 raises the maximum to it. */
  lemma SequentialStep(prefix: seq<Row>, row: Row)
    requires MaxNumericId(prefix) == |prefix|
    requires "id" in row && row["id"] == DecimalString(|prefix| + 1)
    ensures MaxNumericId(prefix + [row]) == |prefix + [row]|
  {
    NextIdAfterAppend(prefix, row);
  }

  // ------------------------------------------------------------ matching rows by id

  /** How an id is compared: `===` in `writeTransaction`, `==` in update and delete. */
  datatype Comparison = Identical | Loose

  predicate IdMatches(row: Row, id: string, cmp: Comparison) {
    "id" in row && (if cmp == Identical then row["id"] == id else LooseEquals(row["id"], id))
  }

  /** The index of the first row whose id matches, where the `foreach` breaks. */
  function FirstMatch(rows: seq<Row>, id: string, cmp: Comparison): (r: Option<nat>)
    ensures r.Some? ==> r.value < |rows| && IdMatches(rows[r.value], id, cmp)
    ensures r.Some? ==> forall j :: 0 <= j < r.value ==> !IdMatches(rows[j], id, cmp)
    ensures r.None? ==> forall j :: 0 <= j < |rows| ==> !IdMatches(rows[j], id, cmp)
  {
    if rows == [] then None
    else if IdMatches(rows[0], id, cmp) then Some(0)
    else
      assert forall j :: 1 <= j < |rows| ==> rows[j] == rows[1..][j - 1];
      match FirstMatch(rows[1..], id, cmp)
      case None => None
      case Some(k) => Some(k + 1)
  }

  /** Every row an identical id selects, a loose comparison selects too. */
  lemma IdenticalMatchIsLoose(rows: seq<Row>, id: string)
    ensures FirstMatch(rows, id, Identical).Some? ==>
              && FirstMatch(rows, id, Loose).Some?
              && FirstMatch(rows, id, Loose).value <= FirstMatch(rows, id, Identical).value
  {
    match FirstMatch(rows, id, Identical)
    case None =>
    case Some(k) =>
      assert IdMatches(rows[k], id, Loose) by { StrictImpliesLoose(rows[k]["id"], id); }
  }

  // ------------------------------------------------------------ rows the ledger writes

  /** The row `writeTransaction` and `updateTransaction` build. */
  function TransactionRow(id: string, client: string, date: string, amount: string,
                          kind: string, labelText: string, deleted: string): (row: Row)
    ensures Shaped(row)
    ensures row["id"] == id && row["client"] == client && row["date"] == date && row["amount"] == amount
    ensures row["type"] == kind && row["label"] == labelText && row["deleted"] == deleted
  {
    map["id" := id, "client" := client, "date" := date, "amount" := amount,
        "type" := kind, "label" := labelText, "deleted" := deleted]
  }

  /** `$deleted ? '1' : '0'`. */
  function Flag(b: bool): string {
    if b then "1" else "0"
  }

  /** `$row['deleted'] ?? '0'`. */
  function DeletedFlagOf(row: Row): string {
    if "deleted" in row then row["deleted"] else "0"
  }

  /** `writeTransaction`'s in-memory change: replace the first row with the identical id, or append. */
  function Upsert(rows: seq<Row>, id: string, row: Row): (r: seq<Row>)
    ensures |r| == |rows| || r == rows + [row]
    ensures |r| == |rows| <==> FirstMatch(rows, id, Identical).Some?
    ensures FirstMatch(rows, id, Identical).Some? ==>
              var k := FirstMatch(rows, id, Identical).value;
              r[k] == row && forall j :: 0 <= j < |rows| && j != k ==> r[j] == rows[j]
  {
    match FirstMatch(rows, id, Identical)
    case Some(k) => rows[k := row]
    case None => rows + [row]
  }

  /** A row carrying a freshly generated id is always appended, never merged into an existing row. */
  lemma UpsertFreshAppends(rows: seq<Row>, row: Row)
    ensures Upsert(rows, NextId(rows), row) == rows + [row]
  {
    NextIdFresh(rows);
  }

  /**
   * `updateTransaction`'s in-memory change: row `k` is replaced by a full
   * ledger row carrying the given id and fields and row `k`'s old `deleted`
   * flag ('0' when it had none); no other row changes.
   */
  function UpdateAt(rows: seq<Row>, k: nat, id: string, client: string, date: string, amount: string,
                    kind: string, labelText: string): (r: seq<Row>)
    requires k < |rows|
    ensures |r| == |rows| && Shaped(r[k])
    ensures r[k]["id"] == id && r[k]["client"] == client && r[k]["date"] == date
    ensures r[k]["amount"] == amount && r[k]["type"] == kind && r[k]["label"] == labelText
    ensures IsSoftDeleted(r[k]) <==> IsSoftDeleted(rows[k])
    ensures forall j :: 0 <= j < |rows| && j != k ==> r[j] == rows[j]
  {
    rows[k := TransactionRow(id, client, date, amount, kind, labelText, DeletedFlagOf(rows[k]))]
  }

  /** `deleteTransaction`'s in-memory change: set only `deleted` of row `k` to '1'. */
  function SoftDeleteAt(rows: seq<Row>, k: nat): (r: seq<Row>)
    requires k < |rows|
    ensures |r| == |rows| && IsSoftDeleted(r[k])
    ensures forall j :: 0 <= j < |rows| && j != k ==> r[j] == rows[j]
  {
    rows[k := rows[k]["deleted" := "1"]]
  }

  /** Soft delete changes no column of the row but `deleted`, and adds none. */
  lemma SoftDeleteChangesOnlyFlag(rows: seq<Row>, k: nat, c: string)
    requires k < |rows| && c != "deleted"
    ensures c in SoftDeleteAt(rows, k)[k] <==> c in rows[k]
    ensures c in rows[k] ==> SoftDeleteAt(rows, k)[k][c] == rows[k][c]
    ensures "deleted" in SoftDeleteAt(rows, k)[k]
  {
  }

  /** A soft-deleted row is not listed by default, and is listed, flagged, when deleted rows are included. */
  lemma SoftDeletedRowListing(row: Row)
    requires HasRequiredFields(row)
    ensures TransactionsOf([row["deleted" := "1"]], false) == []
    ensures TransactionsOf([row["deleted" := "1"]], true) == [ToTransaction(row).(deleted := true)]
  {
    var d := row["deleted" := "1"];
    assert [d][1..] == [];
    assert Lookup(d, "label") == Lookup(row, "label");
  }

  /**
   * Soft delete hides a row from the default listing and shows it, flagged,
   * when deleted rows are included; every other listed transaction stays in place.
   */
  lemma SoftDeleteVisibility(rows: seq<Row>, k: nat)
    requires k < |rows| && HasRequiredFields(rows[k])
    ensures TransactionsOf(SoftDeleteAt(rows, k), false)
            == TransactionsOf(rows[..k], false) + TransactionsOf(rows[k + 1..], false)
    ensures TransactionsOf(SoftDeleteAt(rows, k), true)
            == TransactionsOf(rows[..k], true) + [ToTransaction(rows[k]).(deleted := true)] + TransactionsOf(rows[k + 1..], true)
  {
    var d := rows[k]["deleted" := "1"];
    SoftDeleteAtSplits(rows, k);
    SoftDeletedRowListing(rows[k]);
    ListingAround(rows[..k], d, rows[k + 1..], false);
    assert TransactionsOf(rows[..k], false) + [] == TransactionsOf(rows[..k], false);
    ListingAround(rows[..k], d, rows[k + 1..], true);
  }

  lemma SoftDeleteAtSplits(rows: seq<Row>, k: nat)
    requires k < |rows|
    ensures SoftDeleteAt(rows, k) == rows[..k] + [rows[k]["deleted" := "1"]] + rows[k + 1..]
  {
  }

  /** The listing of rows around one row is the listings before and after it, around that row's own. */
  lemma ListingAround(a: seq<Row>, d: Row, b: seq<Row>, includeDeleted: bool)
    ensures TransactionsOf(a + [d] + b, includeDeleted)
            == TransactionsOf(a, includeDeleted) + TransactionsOf([d], includeDeleted) + TransactionsOf(b, includeDeleted)
  {
    TransactionsOfConcat(a + [d], b, includeDeleted);
    TransactionsOfConcat(a, [d], includeDeleted);
  }

  /** Rows with exactly the ledger's columns survive a write and a read unchanged. */
  lemma LedgerRoundTrip(rows: seq<Row>)
    requires forall i :: 0 <= i < |rows| ==> Shaped(rows[i])
    ensures ReadRows(Written(Header, rows)) == rows
  {
    ReadAfterWrite(Header, rows);
    HeaderKeysAreHeader();
    forall i | 0 <= i < |rows| ensures Restrict(rows[i], Header) == rows[i] {
      RestrictShaped(rows[i], Header);
    }
  }

  /** The `$maxId` accumulator loop of `writeTransaction`. */
  method MaxId(allData: seq<Row>) returns (maxId: nat)
    ensures maxId == MaxNumericId(allData)
  {
    maxId := 0;
    var i := 0;
    while i < |allData|
      invariant 0 <= i <= |allData|
      invariant maxId == MaxNumericId(allData[..i])
    {
      var row := allData[i];
      if "id" in row && IsNumeric(row["id"]) && IntCast(row["id"]) > maxId {
        maxId := IntCast(row["id"]);
      }
      assert allData[..i + 1][..i] == allData[..i];
      i := i + 1;
    }
    assert allData[..i] == allData;
  }

  /**
   * The `foreach ($allData as &$row)` loop of `writeTransaction` and the
   * append after it: the first row whose id is identical is replaced, and
   * the row is appended when none is found.
   */
  method ReplaceOrAppend(allData: seq<Row>, id: string, newRow: Row) returns (result: seq<Row>)
    ensures result == Upsert(allData, id, newRow)
  {
    var j := 0;
    while j < |allData|
      invariant 0 <= j <= |allData|
      invariant FirstMatch(allData, id, Identical).None? || FirstMatch(allData, id, Identical).value >= j
    {
      if IdMatches(allData[j], id, Identical) {
        return allData[j := newRow];
      }
      j := j + 1;
    }
    return allData + [newRow];
  }

  /**
   * The `foreach ($allData as &$row)` loop of `updateTransaction`: the first
   * row whose id loosely equals `id` is overwritten, keeping its `deleted` flag.
   */
  method UpdateFirst(allData: seq<Row>, id: string, client: string, date: string, amount: string,
                     kind: string, labelText: string)
    returns (result: seq<Row>, updated: bool)
    ensures updated <==> FirstMatch(allData, id, Loose).Some?
    ensures !updated ==> result == allData
    ensures updated ==> result == UpdateAt(allData, FirstMatch(allData, id, Loose).value, id, client, date, amount, kind, labelText)
  {
    var j := 0;
    while j < |allData|
      invariant 0 <= j <= |allData|
      invariant FirstMatch(allData, id, Loose).None? || FirstMatch(allData, id, Loose).value >= j
    {
      var row := allData[j];
      if IdMatches(row, id, Loose) {
        result := allData[j := TransactionRow(id, client, date, amount, kind, labelText, DeletedFlagOf(row))];
        assert result == UpdateAt(allData, j, id, client, date, amount, kind, labelText);
        return result, true;
      }
      j := j + 1;
    }
    return allData, false;
  }

  /**
   * The `foreach ($allData as &$row)` loop of `deleteTransaction`: the first
   * row whose id loosely equals `id` gets `deleted` set to '1'.
   */
  method SoftDeleteFirst(allData: seq<Row>, id: string) returns (result: seq<Row>, deleted: bool)
    ensures deleted <==> FirstMatch(allData, id, Loose).Some?
    ensures !deleted ==> result == allData
    ensures deleted ==> result == SoftDeleteAt(allData, FirstMatch(allData, id, Loose).value)
  {
    var j := 0;
    while j < |allData|
      invariant 0 <= j <= |allData|
      invariant FirstMatch(allData, id, Loose).None? || FirstMatch(allData, id, Loose).value >= j
    {
      var row := allData[j];
      if IdMatches(row, id, Loose) {
        result := allData[j := row["deleted" := "1"]];
        assert result == SoftDeleteAt(allData, j);
        return result, true;
      }
      j := j + 1;
    }
    return allData, false;
  }

  // ------------------------------------------------------------ the manager

  class TransactionManager {
    const handler: CsvHandler

    /**
     * `new TransactionManager()`: the handler's constructor creates an empty
     * file when none exists, so the header is written only when that failed.
     */
    constructor (file: StoreFile, createSucceeds: bool, fault: WriteFault)
      modifies file
      ensures handler.file == file
      ensures old(file.present) ==> unchanged(file)
      ensures !old(file.present) && createSucceeds ==> file.present && file.readable && file.writable && file.records == []
      ensures !old(file.present) && !createSucceeds && fault.Allows(0) ==>
                file.present && file.readable && file.writable && file.records == [Header]
      ensures !old(file.present) && !createSucceeds && !fault.Allows(0) ==> unchanged(file)
    {
      handler := new CsvHandler(file, createSucceeds);
      new;
      if !handler.file.present {
        var _ := handler.WriteAll(Header, [], fault);
      }
    }

    /** `listTransactions($includeDeleted)`. */
    method ListTransactions(includeDeleted: bool) returns (ts: seq<Transaction>)
      ensures ts == TransactionsOf(ReadRows(handler.file.Contents()), includeDeleted)
    {
      var rows := handler.ReadAll();
      ts := TransactionsOf(rows, includeDeleted);
    }

    /**
     * `writeTransaction`: with no id, assigns one above every numeric id; then
     * replaces the first row whose id is identical, or appends one row, and
     * rewrites the file. Yields the id used, or nothing when the write failed.
     */
    method WriteTransaction(client: string, date: string, amount: string, kind: string, labelText: string,
                            deleted: bool, id: Option<string>, fault: WriteFault)
      returns (result: Option<string>)
      modifies handler.file
      ensures var rows := ReadRows(old(handler.file.Contents()));
              var usedId := if id.Some? then id.value else NextId(rows);
              var newRows := Upsert(rows, usedId, TransactionRow(usedId, client, date, amount, kind, labelText, Flag(deleted)));
              && (result.Some? <==> fault.Allows(|newRows|) && old(handler.file.CanReplace()))
              && (result.Some? ==> result.value == usedId && handler.file.present && handler.file.readable && handler.file.writable
                                   && handler.file.records == Written(Header, newRows))
              && (result.None? ==> unchanged(handler.file))
    {
      var allData := handler.ReadAll();
      var usedId: string;
      if id.None? {
        var maxId := MaxId(allData);
        usedId := DecimalString(maxId + 1);
      } else {
        usedId := id.value;
      }
      var newRow := TransactionRow(usedId, client, date, amount, kind, labelText, Flag(deleted));
      allData := ReplaceOrAppend(allData, usedId, newRow);
      var success := handler.WriteAll(Header, allData, fault);
      if !success {
        return None;
      }
      return Some(usedId);
    }

    /**
     * `createTransaction`: `writeTransaction` with no id and `deleted` false.
     * The new row always lands at the end with a fresh id, but the id is not
     * returned to the caller.
     */
    method CreateTransaction(client: string, date: string, amount: string, kind: string, labelText: string,
                             fault: WriteFault)
      modifies handler.file
      ensures var rows := ReadRows(old(handler.file.Contents()));
              var newRows := rows + [TransactionRow(NextId(rows), client, date, amount, kind, labelText, "0")];
              && (fault.Allows(|newRows|) && old(handler.file.CanReplace()) ==>
                    handler.file.present && handler.file.readable && handler.file.writable && handler.file.records == Written(Header, newRows))
              && (!(fault.Allows(|newRows|) && old(handler.file.CanReplace())) ==> unchanged(handler.file))
    {
      UpsertFreshAppends(ReadRows(handler.file.Contents()),
                         TransactionRow(NextId(ReadRows(handler.file.Contents())), client, date, amount, kind, labelText, "0"));
      var _ := WriteTransaction(client, date, amount, kind, labelText, false, None, fault);
    }

    /**
     * `updateTransaction`: overwrites the first row whose id loosely equals
     * `id` (its id becomes `id` as given) and keeps that row's `deleted` flag;
     * throws "Transaction not found" and writes nothing when no row matches.
     */
    method UpdateTransaction(id: string, client: string, date: string, amount: string, kind: string,
                             labelText: string, fault: WriteFault)
      returns (result: Outcome<bool>)
      modifies handler.file
      ensures var rows := ReadRows(old(handler.file.Contents()));
              match FirstMatch(rows, id, Loose)
              case None =>
                result == Threw(Exception("Transaction not found")) && unchanged(handler.file)
              case Some(k) =>
                var newRows := UpdateAt(rows, k, id, client, date, amount, kind, labelText);
                && result.Returned?
                && (result.value <==> fault.Allows(|newRows|) && old(handler.file.CanReplace()))
                && (result.value ==> handler.file.present && handler.file.readable && handler.file.writable && handler.file.records == Written(Header, newRows))
                && (!result.value ==> unchanged(handler.file))
    {
      var allData := handler.ReadAll();
      var updated;
      allData, updated := UpdateFirst(allData, id, client, date, amount, kind, labelText);
      if updated {
        var success := handler.WriteAll(Header, allData, fault);
        return Returned(success);
      }
      return Threw(Exception("Transaction not found"));
    }

    /**
     * `deleteTransaction`: rejects an id PHP considers empty ("" or "0"); sets
     * only `deleted` to '1' on the first row whose id loosely equals `id`;
     * throws "Transaction not found" and writes nothing when no row matches.
     */
    method DeleteTransaction(id: string, fault: WriteFault) returns (result: Outcome<bool>)
      modifies handler.file
      ensures IsEmpty(id) ==> result == Threw(Exception("Transaction ID is required")) && unchanged(handler.file)
      ensures !IsEmpty(id) ==>
              var rows := ReadRows(old(handler.file.Contents()));
              match FirstMatch(rows, id, Loose)
              case None =>
                result == Threw(Exception("Transaction not found")) && unchanged(handler.file)
              case Some(k) =>
                var newRows := SoftDeleteAt(rows, k);
                && result.Returned?
                && (result.value <==> fault.Allows(|newRows|) && old(handler.file.CanReplace()))
                && (result.value ==> handler.file.present && handler.file.readable && handler.file.writable && handler.file.records == Written(Header, newRows))
                && (!result.value ==> unchanged(handler.file))
    {
      if IsEmpty(id) {
        return Threw(Exception("Transaction ID is required"));
      }
      var allData := handler.ReadAll();
      var deleted;
      allData, deleted := SoftDeleteFirst(allData, id);
      if deleted {
        var success := handler.WriteAll(Header, allData, fault);
        return Returned(success);
      }
      return Threw(Exception("Transaction not found"));
    }
  }
}
