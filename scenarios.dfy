/**
 * End-to-end behaviour of the store: the ledger and the registry working on
 * the same file, including what the registry's writes do to a ledger file.
 */
module Scenarios {
  import opened Wrappers
  import opened PhpStrings
  import opened PhpNumeric
  import opened Csv
  import opened Ledger
  import opened Clients

  const AliceRow: Row := TransactionRow("1", "Alice", "2024-01-05", "100", "debit", "rent", "0")
  const BobRow: Row := TransactionRow("2", "Bob", "2024-01-06", "50", "credit", "", "0")

  /** The ids the two creations are given: "1" on the empty store, then "2". */
  lemma ScenarioIds()
    ensures NextId([]) == "1"
    ensures NextId([AliceRow]) == "2"
  {
    NextIdAfterAppend([], AliceRow);
  }

  /** What the first creation writes: Alice's row with id "1". */
  lemma ScenarioFirstCreation()
    ensures ReadRows([]) + [TransactionRow(NextId(ReadRows([])), "Alice", "2024-01-05", "100", "debit", "rent", "0")]
            == [AliceRow]
  {
    ScenarioIds();
  }

  /** What the second creation reads back and writes: Alice's row, then Bob's with id "2". */
  lemma ScenarioSecondCreation()
    ensures ReadRows(Written(Header, [AliceRow])) == [AliceRow]
    ensures [AliceRow] + [TransactionRow(NextId([AliceRow]), "Bob", "2024-01-06", "50", "credit", "", "0")]
            == [AliceRow, BobRow]
  {
    LedgerRoundTrip([AliceRow]);
    assert NextId([AliceRow]) == "2" by { ScenarioIds(); }
  }

  /** What the delete reads back: both rows. */
  lemma ScenarioBothReadBack()
    ensures ReadRows(Written(Header, [AliceRow, BobRow])) == [AliceRow, BobRow]
  {
    LedgerRoundTrip([AliceRow, BobRow]);
  }

  /** The row the delete of "1" finds: Alice's. */
  lemma ScenarioDeleteFindsAlice()
    ensures !IsEmpty("1")
    ensures FirstMatch([AliceRow, BobRow], "1", Loose) == Some(0)
  {
    StrictImpliesLoose("1", "1");
    assert IdMatches(AliceRow, "1", Loose);
  }

  /** What the listings read back after the delete. */
  lemma ScenarioDeletedReadBack()
    ensures ReadRows(Written(Header, SoftDeleteAt([AliceRow, BobRow], 0))) == SoftDeleteAt([AliceRow, BobRow], 0)
  {
    var rows := SoftDeleteAt([AliceRow, BobRow], 0);
    assert Shaped(rows[0]);
    LedgerRoundTrip(rows);
  }

  /** The listings after the delete: Bob's only, or both with Alice's flagged. */
  lemma ScenarioListings()
    ensures TransactionsOf(SoftDeleteAt([AliceRow, BobRow], 0), false)
            == [Transaction("2", "Bob", "2024-01-06", "50", "credit", "", false)]
    ensures TransactionsOf(SoftDeleteAt([AliceRow, BobRow], 0), true)
            == [Transaction("1", "Alice", "2024-01-05", "100", "debit", "rent", true),
                Transaction("2", "Bob", "2024-01-06", "50", "credit", "", false)]
  {
    SoftDeleteVisibility([AliceRow, BobRow], 0);
    assert [AliceRow, BobRow][..0] == [];
    assert [AliceRow, BobRow][1..] == [BobRow];
    assert [BobRow][1..] == [];
  }

  /** A store that does not exist yet, with Alice's transaction created in it. */
  method CreateAlice() returns (file: StoreFile, ledger: TransactionManager)
    ensures fresh(file) && ledger.handler.file == file
    ensures file.present && file.readable && file.writable && file.records == Written(Header, [AliceRow])
  {
    file := new StoreFile(false, false, false, []);
    ledger := new TransactionManager(file, true, NoFault);
    ScenarioFirstCreation();
    ledger.CreateTransaction("Alice", "2024-01-05", "100", "debit", "rent", NoFault);
  }

  /**
   * A store that exists but cannot be read loses every line on the next
   * creation: `readAll` yields no rows, the new transaction gets id "1", and
   * `writeAll` replaces the whole file by the header and that one row.
   */
  method UnreadableStoreOverwritten(file: StoreFile) returns (ledger: TransactionManager)
    modifies file
    ensures ledger.handler.file == file
    ensures old(file.present && !file.readable && file.writable) ==>
              file.readable && file.records == Written(Header, [AliceRow])
  {
    ledger := new TransactionManager(file, true, NoFault);
    ScenarioFirstCreation();
    ledger.CreateTransaction("Alice", "2024-01-05", "100", "debit", "rent", NoFault);
  }

  /** Then Bob's transaction created after it. */
  method CreateAliceAndBob() returns (file: StoreFile, ledger: TransactionManager)
    ensures fresh(file) && ledger.handler.file == file
    ensures file.present && file.readable && file.writable && file.records == Written(Header, [AliceRow, BobRow])
  {
    file, ledger := CreateAlice();
    ScenarioSecondCreation();
    ledger.CreateTransaction("Bob", "2024-01-06", "50", "credit", "", NoFault);
  }

  /** Then transaction "1" deleted. */
  method CreateBothDeleteAlice() returns (file: StoreFile, ledger: TransactionManager)
    ensures fresh(file) && ledger.handler.file == file
    ensures file.present && file.readable && file.records == Written(Header, SoftDeleteAt([AliceRow, BobRow], 0))
  {
    file, ledger := CreateAliceAndBob();
    ScenarioBothReadBack();
    ScenarioDeleteFindsAlice();
    assert ReadRows(file.Contents()) == [AliceRow, BobRow];
    var deleted := ledger.DeleteTransaction("1", NoFault);
  }

  /**
   * Alice's and Bob's transactions get ids "1" and "2" in a new store;
   * deleting "1" hides Alice's from the default listing, and the full
   * listing shows it flagged as deleted.
   */
  method AliceBobScenario() returns (active: seq<Transaction>, all: seq<Transaction>)
    ensures active == [Transaction("2", "Bob", "2024-01-06", "50", "credit", "", false)]
    ensures all == [Transaction("1", "Alice", "2024-01-05", "100", "debit", "rent", true),
                    Transaction("2", "Bob", "2024-01-06", "50", "credit", "", false)]
  {
    var file, ledger := CreateBothDeleteAlice();
    ScenarioDeletedReadBack();
    ScenarioListings();
    active := ledger.ListTransactions(false);
    all := ledger.ListTransactions(true);
  }

  // ------------------------------------------------------------ the registry's lines in the ledger's file

  /**
   * The next ledger rewrite loses the six-field bootstrap line of
   * `createClient`: every line `writeAll` produces under the ledger's header
   * has seven fields, whatever rows it writes. After it the name is listed
   * only if some ledger row carries it as its client.
   */
  lemma BootstrapLostOnRewrite(rows: seq<Row>, name: string, date: string)
    ensures ClientRecord(name, date) !in Written(Header, rows)
    ensures (forall i :: 0 <= i < |rows| ==> Trim(Lookup(rows[i], "client")) != Trim(name)) ==>
              Trim(name) !in ListedClients(Written(Header, rows))
  {
    var w := Written(Header, rows);
    forall i | 0 <= i < |w| ensures w[i] != ClientRecord(name, date) {
      assert |w[i]| == 7;
    }
    if forall i :: 0 <= i < |rows| ==> Trim(Lookup(rows[i], "client")) != Trim(name) {
      assert Header[1] == "client";
      UnlistedAfterWrite(Header, rows, Trim(name));
    }
  }

  // ------------------------------------------------------------ updateClient on the ledger's file

  /**
   * As written, renaming a client on a file whose lines all have the
   * ledger's seven fields keeps only the header: a client listed before is
   * listed no more, and the ledger has no rows left.
   */
  lemma RenameOnLedgerFileLosesRows(contents: seq<Record>, i: nat, oldName: string, newName: string)
    requires 1 <= i < |contents| && NamesClient(contents[i])
    requires forall j :: 1 <= j < |contents| ==> |contents[j]| == 7
    ensures Trim(contents[i][1]) in ListedClients(contents)
    ensures [contents[0]] + RenamedAsWritten(contents[1..], oldName, newName) == [contents[0]]
    ensures ListedClients([contents[0]]) == [] && ReadRows([contents[0]]) == []
  {
    ListedFromLine(contents, i);
    var lines := contents[1..];
    forall k | 0 <= k < |lines| ensures |lines[k]| != 4 {
      assert lines[k] == contents[k + 1];
    }
    RenamedAsWrittenDropsOthers(lines, oldName, newName);
    HeaderOnly(contents[0]);
  }
}
