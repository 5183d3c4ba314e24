# Transaction ledger in a CSV file — a Dafny model

This project models the storage core of a small PHP bookkeeping application.
The application keeps every transaction in one CSV file, and three classes
work on that file:

- `CsvHandler` reads the whole file as rows keyed by the header line. It
  replaces the whole file by writing a temporary file and renaming it over the
  target. It can also append one line.
- `TransactionManager` (the ledger) lists transactions. It creates new ones
  with an id one above the largest numeric id, and it upserts, updates and
  soft-deletes them. Every change reads the whole store, changes the rows in
  memory and writes the whole store back.
- `ClientManager` (the registry) derives the client list from the client
  column of the data lines. It checks names for uniqueness ignoring case, and
  it creates and renames clients by writing the file directly.

## How it is modelled

- The file is a `Csv.StoreFile` object holding four things:
  - whether the file exists;
  - whether it can be opened for reading;
  - whether it is writable;
  - its lines, as the records `fgetcsv` would return.

  The classes hold that object and update it in place. The byte-level
  quoting of `fputcsv` and `fgetcsv` is abstracted away.
- Each I/O failure is a parameter of the operation:
  - `WriteFault` stands for failures of `tempnam`, `fopen`, `fputcsv` on a
    given line, `fflush`, `fclose` and `rename`;
  - `createSucceeds` stands for `touch`;
  - `tempOpens` and `renameSucceeds` stand for the temporary file of
    `updateClient`.
- Today's date in `createClient` is a parameter.
- PHP's built-ins are written out in `PhpStrings` and `PhpNumeric`:
  - `trim`, `empty`, `strcasecmp`, the `strcmp` order, `array_unique` and
    `sort` on strings;
  - `is_numeric`, the `(int)` cast, `(string)` of an integer, and loose `==`
    between two strings. Under PHP 8 rules, loose `==` compares two numeric
    strings as numbers.
- The loops of the source are methods with loop invariants. Each is proved
  equal to a function, and the properties are proved about those functions.
  The loops covered are:
  - the read loop of `readAll`;
  - the write loop of `writeAll`;
  - the `$maxId` loop;
  - the three `foreach (... as &$row)` loops;
  - the loops of `listClients`, `isClientUnique` and `updateClient`.
- Where the code's comments or column constants suggest otherwise, the
  model follows the code:
  - `listClients` removes only exact duplicates with `array_unique`, although
    its comment speaks of keeping the first-seen casing.
  - `createClient` appends a six-field line directly to the shared file.
  - `updateClient` copies only lines of four fields and renames field 0, so
    on a store whose lines have the ledger's seven fields it drops every data
    line.
  - `listClients` tests `empty()` before it trims. A client field of blanks
    is therefore listed as the empty name.

## Model

| member | source | states |
|---|---|---|
| PhpStrings.TrimLeft | index.php:27 | the result is a suffix of the input; everything cut off is trimmable; the result does not start with a trimmable character |
| PhpStrings.TrimRight | index.php:27 | the result is a prefix of the input; everything cut off is trimmable; the result does not end with a trimmable character |
| PhpStrings.Trim | index.php:41 | `trim` never lengthens a string, and the result starts and ends with a non-trimmable character |
| PhpStrings.TrimRemovesOnlyTrimmable | index.php:27 | `trim` yields an infix of its input, and everything before and after that infix is trimmable |
| PhpStrings.TrimNoop | index.php:41 | a string that neither starts nor ends with a trimmable character is its own trim |
| PhpStrings.TrimIdempotent | index.php:41 | trimming twice is trimming once |
| PhpStrings.EmptyAndTrim | index.php:26 | `empty` holds only for strings of at most one character, which `trim` leaves alone; a non-empty string of trimmable characters is not empty but trims to "" |
| PhpStrings.LowerAscii | index.php:44 | `strcasecmp` lowers exactly the ASCII letters A–Z, by 32, and leaves every other character alone |
| PhpStrings.Lower | index.php:44 | lowering keeps the length and lowers every character in place |
| PhpStrings.SameIgnoringCaseExample | index.php:44 | "Bob" and "bob" are different strings that `strcasecmp` reports as equal |
| PhpStrings.LessIrreflexive | index.php:34 | no string sorts before itself |
| PhpStrings.LessTransitive | index.php:34 | the `strcmp` order is transitive |
| PhpStrings.LessTotal | index.php:34 | of two different strings, one sorts before the other |
| PhpStrings.LessAsymmetric | index.php:34 | two strings never sort before each other |
| PhpStrings.LessEqTransitive | index.php:34 | "sorts at or before" is transitive |
| PhpStrings.Unique | index.php:33 | `array_unique` leaves no duplicate, loses no value, adds none and never lengthens the list |
| PhpStrings.Insert | index.php:34 | inserting into a sorted list keeps it sorted and adds exactly that one element |
| PhpStrings.Sort | index.php:34 | `sort` yields a sorted permutation of its input |
| PhpStrings.SortDistinct | index.php:33-34 | sorting a duplicate-free list orders it strictly and keeps exactly its elements |
| PhpStrings.SortedPermutationOfDistinct | index.php:33-34 | a permutation of a duplicate-free list is duplicate-free |
| PhpNumeric.FractionValue | index.php:290 | the digits after a decimal point are worth less than one |
| PhpNumeric.ParseNumeral | index.php:290 | an accepted string is exactly its optional sign, its whole digits, a point when it has one, and its fraction digits, with at least one digit; it is negative exactly when it starts with '-' |
| PhpNumeric.ParseNumeralWithoutPoint | index.php:290 | an accepted string without a point has an empty fraction, so all its digits are the whole part that `(int)` reads |
| PhpNumeric.ParseNumeralAccepts | index.php:290 | conversely, every optional sign followed by digits, an optional point and digits, with at least one digit, is accepted and read back into those parts |
| PhpNumeric.PlainDigits | index.php:290 | a non-empty run of digits is numeric, unsigned, without a fraction |
| PhpNumeric.IntCastOfDigits | index.php:290-291 | `(int)` of a run of digits is its decimal value, and `(int)` of a numeric string is negative only when the string starts with '-' |
| PhpNumeric.IntCastTruncates | index.php:290-291 | `(int)` of a numeric string truncates its value toward zero |
| PhpNumeric.DecimalString | index.php:294 | `(string)$n` is a non-empty digit string worth `n`, with no leading zero |
| PhpNumeric.DecimalStringRoundTrip | index.php:290-294 | a generated id is numeric, and `(int)` reads back the number it was made from |
| PhpNumeric.StrictImpliesLoose | index.php:299 | identical ids are loosely equal |
| PhpNumeric.LooseEqualsEquivalence | index.php:344 | loose `==` between strings is reflexive, symmetric and transitive, and never equates a numeric string with a non-numeric one |
| PhpNumeric.LeadingZeroIsLooselyEqual | index.php:344 | "01" and "1" are different strings that loose `==` treats as equal, so update and delete also match ids that `===` would not |
| Csv.StoreFile.Contents | index.php:130 | a missing or unreadable file reads as nothing; otherwise the reader sees the file's lines |
| Csv.Combine | index.php:137 | `array_combine` has exactly the header's names as keys |
| Csv.CombineAt | index.php:137 | a header name that does not repeat later maps to the field in its own position |
| Csv.DataRows | index.php:135-139 | `readAll` never yields more rows than there are data lines, and each row has exactly the header's names as keys |
| Csv.ReadRows | index.php:128-143 | an empty file yields no rows; otherwise the header line is not a row, and every row has the header's keys |
| Csv.Project | index.php:168-172 | the line written for a row holds its value under each header column, in header order, and '' where the row lacks the column |
| Csv.Written | index.php:162-176 | `writeAll` produces the header and then one projected line per row, in order |
| Csv.Restrict | index.php:171 | a row read back has exactly the header's columns, each with the row's value or '' |
| Csv.CombineProject | index.php:168-172 | combining the header with a projected line gives the row restricted to the header |
| Csv.ReadAfterWrite | index.php:128-176 | reading back what `writeAll` wrote returns every row, in order, restricted to the header |
| Csv.RestrictShaped | index.php:171 | a row with exactly the header's columns reads back unchanged |
| Csv.ReadRowsAppend | index.php:135-139 | an appended line becomes one more row when its field count equals the header's, and is silently ignored otherwise |
| Csv.CsvHandler.constructor | index.php:113-126 | a missing file is created empty when `touch` succeeds; an existing file is not touched |
| Csv.CsvHandler.ReadAll | index.php:128-143 | the loop yields exactly `ReadRows` of what a reader sees, so a present but unreadable file yields no rows |
| Csv.CsvHandler.WriteAll | index.php:145-209 | it succeeds exactly when no fault interrupts it and the target is missing or writable; on success the file holds exactly `Written(header, data)`; on any failure the file is unchanged |
| Csv.CsvHandler.AppendRow | index.php:211-225 | a missing or empty file gets the row's keys as a header line first; the row's values are appended and the file is present and writable; a file created by the append is readable; a file that exists but is not writable is unchanged |
| Csv.Keys | index.php:217 | `array_keys` of the row, in order |
| Csv.Values | index.php:220 | the row's values, in order |
| Ledger.HeaderKeysAreHeader | index.php:282 | the ledger's seven column names, as a set, are the names in its header line |
| Ledger.ToTransaction | index.php:263-271 | a listed transaction carries the row's id, client, date, amount and type, its label or '', and `deleted` exactly when the stored flag is '1' |
| Ledger.TransactionsOf | index.php:247-275 | the listing never has more entries than there are rows, and holds no deleted transaction unless asked to |
| Ledger.TransactionsOfConcat | index.php:251-272 | listing keeps file order: the listing of two runs of rows is the two listings one after the other |
| Ledger.TransactionsOfMember | index.php:251-272 | a transaction is listed exactly when some row with the five required columns, visible under the flag, yields it |
| Ledger.MaxNumericIdBound | index.php:288-293 | no numeric id in the store exceeds `$maxId` |
| Ledger.MaxNumericIdAttained | index.php:288-293 | a positive `$maxId` is `(int)` of the numeric id of some row |
| Ledger.NextIdFresh | index.php:286-295 | a generated id is numeric, worth `$maxId + 1`, above every numeric id in the store, and equal to no stored id |
| Ledger.NextIdAfterAppend | index.php:286-325 | after the row with the generated id is appended, the next generated id is one higher |
| Ledger.SequentialIds | index.php:286-295 | in a store whose rows carry the ids "1" to "n", the next id is "n+1" |
| Ledger.SequentialStep | index.php:288-294 | appending the row numbered one above a store of n sequential ids raises `$maxId` to n+1 |
| Ledger.FirstMatch | index.php:298-312 | the index found holds a matching row and no earlier row matches; when none is found, no row matches |
| Ledger.IdenticalMatchIsLoose | index.php:344 | whenever `writeTransaction` would find a row, `updateTransaction` finds that row or an earlier one |
| Ledger.TransactionRow | index.php:300-308 | the row built has exactly the seven ledger columns, holding the given values |
| Ledger.Upsert | index.php:297-325 | when an identical id exists, the first row carrying it is replaced by the new row and every other row is kept in place; otherwise the row is appended |
| Ledger.UpsertFreshAppends | index.php:286-325 | a row with a generated id is always appended and never merged into an existing row |
| Ledger.UpdateAt | index.php:343-357 | the updated row has exactly the seven columns with the new values, and keeps its soft-delete status; no other row changes |
| Ledger.SoftDeleteAt | index.php:375-381 | the row becomes soft-deleted; no other row changes |
| Ledger.SoftDeleteChangesOnlyFlag | index.php:377 | soft delete changes no column of the row except `deleted`, adds no column except `deleted`, and removes none |
| Ledger.SoftDeletedRowListing | index.php:258-270 | a soft-deleted row is hidden by default and listed, flagged as deleted, when deleted rows are included |
| Ledger.SoftDeleteVisibility | index.php:375-381 | after a soft delete, the default listing loses exactly that transaction; the full listing shows it flagged in its place; every other transaction stays in order |
| Ledger.LedgerRoundTrip | index.php:128-176 | rows with exactly the ledger's columns survive a write and a read unchanged |
| Ledger.MaxId | index.php:288-293 | the loop computes `MaxNumericId` of the rows |
| Ledger.ReplaceOrAppend | index.php:298-325 | the loop and the append after it compute `Upsert` |
| Ledger.UpdateFirst | index.php:343-357 | the loop updates exactly when a loosely-equal id exists, and then yields `UpdateAt` at the first such row |
| Ledger.SoftDeleteFirst | index.php:375-381 | the loop deletes exactly when a loosely-equal id exists, and then yields `SoftDeleteAt` at the first such row |
| Ledger.TransactionManager.constructor | index.php:233-245 | when the file is missing and `touch` succeeds, the file is empty and writable and no header is written; the header is written, leaving the file writable, only when `touch` failed and `writeAll` succeeded |
| Ledger.TransactionManager.ListTransactions | index.php:247-275 | yields `TransactionsOf` the rows `readAll` returns |
| Ledger.TransactionManager.WriteTransaction | index.php:281-336 | uses the given id or `NextId`; on success the file holds the upserted rows and the id is returned; on failure the file is unchanged and nothing is returned |
| Ledger.TransactionManager.CreateTransaction | index.php:277-279 | on success the file holds the old rows plus one new, non-deleted row with a fresh id at the end; on failure the file is unchanged |
| Ledger.TransactionManager.UpdateTransaction | index.php:338-364 | throws "Transaction not found" and writes nothing when no id loosely matches; otherwise writes `UpdateAt` at the first match and returns whether the write succeeded |
| Ledger.TransactionManager.DeleteTransaction | index.php:366-388 | rejects "" and "0" as ids; throws "Transaction not found" when no id loosely matches; otherwise writes `SoftDeleteAt` at the first match; the file is unchanged on every failure |
| Clients.ClientNames | index.php:25-30 | at most one name is collected per data line |
| Clients.ClientNamesSound | index.php:25-30 | every collected name is the trimmed client field of some line whose client field is not empty |
| Clients.ClientNamesComplete | index.php:25-30 | the trimmed client field of every line whose client field is not empty is collected |
| Clients.ClientNamesMember | index.php:25-30 | a name is collected exactly when some line names a client that trims to it |
| Clients.ListedClients | index.php:21-37 | an empty or missing file lists no client |
| Clients.ListedClientsSorted | index.php:33-34 | the client list is in strictly increasing `strcmp` order and holds no name twice |
| Clients.ListedClientsMember | index.php:21-37 | a name is listed exactly when some line after the header names a client that trims to it |
| Clients.ListedFromLine | index.php:25-30 | the trimmed client of any data line whose client field is not empty is listed |
| Clients.HeaderOnly | index.php:21-37 | a file holding only a header line lists no client and yields no row |
| Clients.UnlistedAfterWrite | index.php:21-37 | after `writeAll`, a name is listed only if it is the trimmed client-column value of some row written |
| Clients.NameTakenIgnoringCase | index.php:39-49 | a name equal, ignoring case, to the trimmed client of any data line is taken |
| Clients.ClientRecord | index.php:62-66 | the bootstrap line has six fields: '' as id, the name, the date, "0", "initial" and '' |
| Clients.RenamedAsWritten | index.php:86-92 | only four-field lines are copied, so the copy never has more lines than the original |
| Clients.RenameField0 | index.php:88-90 | field 0 becomes `newName` exactly when it is identical to `oldName`; the other fields are unchanged |
| Clients.RenamedAsWrittenFourFields | index.php:86-92 | on four-field lines, no line is dropped and each is renamed in field 0 |
| Clients.RenamedAsWrittenDropsOthers | index.php:87 | lines of any other width are all dropped |
| Clients.RenamedAsWrittenConcat | index.php:86-92 | the copy works line by line: copying two runs of lines gives the two copies one after the other |
| Clients.RenamedAsWrittenSnoc | index.php:86-92 | copying one more line adds that line's copy at the end |
| Clients.RenamedAsWrittenLine | index.php:87-91 | a single line is kept, with field 0 renamed, exactly when it has four fields, and dropped otherwise |
| Clients.CopyFourFieldLines | index.php:86-92 | the loop copies exactly `RenamedAsWritten` of the data lines |
| Clients.MatchesIgnoringCase | index.php:43-48 | the `foreach` finds a match exactly when some name equals the given one ignoring case |
| Clients.ClientManager.constructor | index.php:17-19 | the registry works on the store file |
| Clients.ClientManager.ListClients | index.php:21-37 | the loop yields exactly `ListedClients` of what a reader sees, so nothing for a missing or unreadable file |
| Clients.ClientManager.IsClientUnique | index.php:39-49 | true exactly when no listed client equals the trimmed name, ignoring case |
| Clients.ClientManager.CreateClient | index.php:51-73 | rejects "" and "0"; fails with the file unchanged when the file is missing, unreadable or not writable; otherwise appends exactly the bootstrap line and returns true |
| Clients.ClientManager.UpdateClient | index.php:75-103 | rejects empty names; fails with the file unchanged when the file is missing or unreadable or the temporary file cannot be opened; on an empty file the missing header is a TypeError; otherwise the file becomes its header plus `RenamedAsWritten`, or stays unchanged when the rename fails |
| Clients.BootstrapIgnoredByLedger | index.php:62-67 | under a seven-column header, the bootstrap line adds no ledger row |
| Clients.CreatedClientListed | index.php:51-73 | a client created in a file that has a header line is listed, trimmed |
| Clients.CreatedInEmptyFileNotListed | index.php:60-67 | a client created in an empty file becomes the header line and is not listed |
| Clients.SeedRecord | index.php:62-66 | the corrected bootstrap line is the same six fields plus `deleted` "0" |
| Clients.SeedRecordRead | index.php:62-67 | under a seven-column header, the corrected bootstrap line becomes one more ledger row, and its client column holds the name |
| Clients.RenameClient | index.php:86-92 | the corrected rename keeps every line and every field count; only the client field (column 1) changes, and only where it equals `oldName` |
| Clients.RenameClientKeepsRows | index.php:75-103 | after the corrected rename, `readAll` yields as many rows as before, and the new name is listed |
| Clients.CaseVariantsBothListed | index.php:32-33 | two client names differing only in case are both listed, so the list holds a case duplicate |
| Clients.UniqueIgnoringCase | index.php:32-33 | the corrected deduplication leaves no two names equal ignoring case; it keeps only input names; every input name has its equal ignoring case in the result |
| Clients.UniqueIgnoringCaseFirstSeen | index.php:32-33 | every name the corrected deduplication keeps occurs in the input with no earlier name equal to it ignoring case, so the first-seen casing is the one kept |
| Clients.FirstOfItsCaseExtend | index.php:32-33 | a name that is first of its case in a list stays so when more names are appended |
| Scenarios.ScenarioIds | index.php:286-295 | the first id in an empty store is "1", and the next is "2" |
| Scenarios.ScenarioFirstCreation | index.php:277-279 | the first creation writes exactly Alice's row with id "1" |
| Scenarios.ScenarioSecondCreation | index.php:277-279 | Alice's row reads back unchanged, and the second creation appends Bob's row with id "2" |
| Scenarios.ScenarioBothReadBack | index.php:128-176 | both rows read back unchanged |
| Scenarios.ScenarioDeleteFindsAlice | index.php:366-381 | the id "1" passes the emptiness check and the delete finds Alice's row |
| Scenarios.ScenarioDeletedReadBack | index.php:375-384 | the rows after the soft delete read back unchanged |
| Scenarios.ScenarioListings | index.php:247-275 | after the delete, the default listing shows only Bob's transaction, and the full listing shows Alice's flagged and then Bob's |
| Scenarios.UnreadableStoreOverwritten | index.php:128-143 | when the store exists but cannot be read, creating a transaction reads no rows, assigns id "1" and replaces every line of the store by the header and that one row |
| Scenarios.CreateAlice | index.php:233-336 | a new store with Alice's transaction created holds exactly her row under the header |
| Scenarios.CreateAliceAndBob | index.php:277-336 | after Bob's creation, the file holds both rows under the header |
| Scenarios.CreateBothDeleteAlice | index.php:366-388 | after deleting "1", the file holds Alice's row soft-deleted and Bob's unchanged |
| Scenarios.AliceBobScenario | index.php:229-389 | the whole sequence: create Alice's and Bob's transactions in a new store, delete "1", and list with and without deleted rows |
| Scenarios.BootstrapLostOnRewrite | index.php:162-176 | no line that a ledger rewrite produces is a bootstrap line; after the rewrite, a client created through the registry is listed only if some ledger row carries its name as client |
| Scenarios.RenameOnLedgerFileLosesRows | index.php:86-92 | on a file of seven-field lines, the rename as written keeps only the header; a client listed before is listed no more, and the ledger has no rows left |

## Left out

- The HTTP front end, the HTML and JavaScript page, and the request handling
  after index.php:389 are not part of this model. Neither is the date
  formatting at index.php:593-596.
- Logger.php is not part of this model. `Logger::error` and `error_log` calls
  only write diagnostics, so they are left out.
- The byte-level CSV format is not modelled: quoting, escaping and line
  breaks. The reader's escape character ('"' in the registry, '\\' in
  `CsvHandler`) therefore makes no difference here.
- Temporary-file names, `tempnam`'s directory and the cleanup `unlink` of
  the temporary file are not modelled. The target file only changes at the
  rename.
- `mkdir` of the store's directory is not modelled. It is folded into
  `createSucceeds`.
- Concurrency is not modelled. Two requests that interleave their
  read-modify-write sequences can lose an update, and a single-threaded
  model cannot show that.
- Ledger.ToTransaction: keeps the amount as the stored string instead of
  `(float)$row['amount']`, because floating point is not modelled.
- PhpNumeric.ParseNumeral: accepts only an optional sign, digits and at most
  one '.'. It does not accept the leading or trailing whitespace or the
  exponents that PHP's `is_numeric` also accepts.
- PhpNumeric.IntCast: does not model the saturation of `(int)` at
  PHP_INT_MAX. Integers here are unbounded, so for instance `(int)` of
  "2.9999999999999999" is 2 here, while PHP, which reads such a string as a
  double first, yields 3.
- PhpNumeric.LooseEquals: compares the exact decimal values of two numeric
  strings. PHP 8 compares them as int64 when both fit and as doubles
  otherwise, and compares two integer strings that both overflow int64 as
  strings. So "1.0000000000000001" == "1" is true in PHP and false here, and
  the same holds for "1.00000000000000001" == "1.00000000000000002". Through
  doubles PHP's `==` is also not transitive at the edge of double precision:
  "9007199254740993" == "9007199254740992.0" and "9007199254740992.0" ==
  "9007199254740992" are both true while "9007199254740993" ==
  "9007199254740992" is false, so the transitivity that
  `LooseEqualsEquivalence` proves holds only of the exact comparison.
- PhpStrings.Sort: orders by `strcmp` only. PHP's `sort` compares two
  numeric strings by value, so for client names that are both numeric the
  order can differ.
- PhpStrings.Lower: a character stands for one code point. `strcasecmp`
  lowers byte by byte, which agrees on ASCII letters.
- Clients.ClientManager.CreateClient: its two opens fail only through the
  file's flags (missing, unreadable, not writable). The source ignores the
  result of `fputcsv` and returns true even when the line was not written;
  the model always appends the line.
- Clients.ClientManager.UpdateClient: failures of `fputcsv` on the temporary
  file are ignored by the source. The model treats those writes as
  succeeding. A failing `tempnam` is folded into `tempOpens`, whereas PHP 8
  then passes `false` to `fopen` and raises a ValueError instead of "Failed
  to update client".
- Csv.CsvHandler.AppendRow: the source ignores the result of `fputcsv` and
  returns true even when a line was not written. The model always appends.
- `listTransactions` also treats `$row['deleted'] === true` as deleted.
  Fields read from a file are strings, so only '1' can occur.

## Findings

| source | as written | input that shows it | evidently intended | confidence | as-written member | corrected member |
|---|---|---|---|---|---|---|
| index.php:86-92 | `updateClient` copies only lines with exactly four fields and renames field 0 | a store whose data lines have the ledger's seven fields (id, client, date, amount, type, label, deleted), e.g. `1,Alice,2024-01-05,100,debit,rent,0`, renamed from Alice to Alicia: the new file holds only the header, every transaction is gone, and Alice is no longer listed | rename the client field (column 1) of every line whose client is `oldName` and keep every line | high (not executed) | Clients.RenamedAsWritten, Scenarios.RenameOnLedgerFileLosesRows | Clients.RenameClient, Clients.RenameClientKeepsRows |
| index.php:62-67 | `createClient` appends a six-field line to a store whose header has seven columns | any client name in a store created by the ledger: `readAll` skips the line because its field count differs, and the next ledger rewrite drops it, so the client disappears from the list unless some transaction names it | a bootstrap line with all seven ledger columns | medium (not executed) | Clients.ClientRecord, Clients.BootstrapIgnoredByLedger, Scenarios.BootstrapLostOnRewrite | Clients.SeedRecord, Clients.SeedRecordRead |
| index.php:32-33 | `array_unique` removes only exact duplicates, though the comment promises to keep the casing of the first occurrence | data lines with clients "Bob" and "bob": both are listed, and `isClientUnique` treats them as one client | deduplicate ignoring case and keep the first-seen casing | medium (not executed) | Clients.ListedClients, Clients.CaseVariantsBothListed | Clients.UniqueIgnoringCase |
