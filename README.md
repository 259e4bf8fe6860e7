# DataFiller core, modelled in Dafny

DataFiller is a console tool that bulks up PostgreSQL tables with synthetic
rows. The user configures a connection, a list of `table,count` pairs, a
batch size and a thread count. For every configured table the fill engine
then takes a sample of the rows already there. It builds new rows by copying
random sample rows and rewriting their identity-like columns, and inserts the
new rows in batches until the requested number has been added.

This project models the two pieces of sequential logic that carry that
behaviour, and proves what they promise:

- **The fill engine** (`DataFiller/Services/DataFillerService.cs`).
  - `FillDataAsync` becomes `DataFillerService.FillData`, and its per-table
    body becomes `DataFillerService.FillTable`. It has the same `while` loop
    over `remainingCount`, stops at the first insert that throws, and skips
    a missing table or an empty sample.
  - `GenerateBatchData` becomes the method of the same name. It keeps the
    `for` loop that appends to `result`, the inner loop that rewrites the
    columns of a copied dictionary one key at a time, and the final
    `OrderBy` shuffle.
  - Each method is proved against a specification function:
    - `BatchPlan`: the batch sizes the loop produces;
    - `SynthesizedBatch`: the rows one batch holds;
    - `IsFillOf`: the outcome of one table.
  - Lemmas about those functions state the properties: batch sizes are
    between 1 and the batch size, they add up to the target, every batch but
    the last is full, a failure credits only the earlier batches, and a batch
    is a permutation of rewritten copies of sample rows.
- **The configuration front end** (`DataFiller/UI/ConsoleUI.cs`).
  - The table-mapping parser of `ConfigureTablesAsync` becomes
    `UI.ParseTableMappings` and `UI.ParseEntries`. They keep the `foreach`
    that fills a dictionary and leaves at the first bad entry, and they are
    proved equal to the fold `UI.MappingsOf`.
  - The batch-size and thread-count validators become
    `UI.ValidateBatchSize` and `UI.ValidateThreadCount`.
  - The `ConsoleUI` object keeps its `_config` as the field `config` of
    class `UI.ConsoleUI`. Its methods update that field, and the prompts
    are fed from finite lists of typed answers.

The .NET behaviour the core relies on is written out in its own modules:

- `Integers`: unchecked `int` and `long` addition, with two's-complement
  wrap-around;
- `Text`:
  - `String.Split`, with and without `RemoveEmptyEntries`;
  - `String.Trim` with `Char.IsWhiteSpace`;
  - `String.ToLower` and ordinal `String.Contains`;
  - `Int32.TryParse`;
- `Linq`: `OrderBy`, a stable sort by computed keys.

The store and the random generators are inputs:

- A `Gateway` answers three questions:
  - `tableExists`: does `TableExistsAsync` say the table exists?
  - `tableData`: what sample does `GetTableDataAsync` return?
  - `insertSucceeds(table, c)`: does the `c`-th `BulkInsertAsync` call for
    the table return, rather than throw?
- A `Draws` value supplies the choices one batch makes, with the bounds
  `Random.Next` and `Guid.NewGuid` guarantee:
  - the sample index of each row;
  - the offset and GUID of each column;
  - the sort key of each row.

Files:

- `wrappers.dfy`: `Option` and `Result`.
- `integers.dfy`: `int32` and `int64` and their wrap-around.
- `text.dfy`: the string operations and `Int32.TryParse`.
- `linq.dfy`: `OrderBy`.
- `models.dfy`: column values, rows and `Configuration`.
- `data_filler_service.dfy`: the fill engine.
- `console_ui.dfy`: the parser, the validators and the `ConsoleUI` object.

## Model

| member | source | states |
|---|---|---|
| Integers.Wrap32 | DataFiller/Services/DataFillerService.cs:84 | the result is an int32 congruent to the argument modulo 2^32, and equals it when it is in range |
| Integers.Wrap64 | DataFiller/Services/DataFillerService.cs:88 | the result is an int64 congruent to the argument modulo 2^64, and equals it when it is in range |
| Integers.AddInt32Difference | DataFiller/Services/DataFillerService.cs:84 | adding a non-negative offset to an int moves it forward by exactly that offset around the 2^32 circle |
| Integers.AddInt64Difference | DataFiller/Services/DataFillerService.cs:88 | adding a non-negative int offset to a long moves it forward by exactly that offset around the 2^64 circle |
| Integers.Wrap32Unique | DataFiller/Services/DataFillerService.cs:84 | Wrap32 gives the only int32 congruent to its argument |
| Integers.Wrap64Unique | DataFiller/Services/DataFillerService.cs:88 | Wrap64 gives the only int64 congruent to its argument |
| Integers.AddInt32Reaches | DataFiller/Services/DataFillerService.cs:84 | every int32 lying d ≤ 2^31-1 steps after a is the wrapped sum a + d |
| Integers.AddInt64Reaches | DataFiller/Services/DataFillerService.cs:88 | every int64 lying d ≤ 2^31-1 steps after a is the wrapped sum a + d |
| Text.LeadingCount | DataFiller/UI/ConsoleUI.cs:99 | the count is the length of the longest prefix of whitespace characters |
| Text.TrailingCount | DataFiller/UI/ConsoleUI.cs:99 | the count is the length of the longest suffix of whitespace characters |
| Text.TrimBy | DataFiller/UI/ConsoleUI.cs:99 | the result is the input with its maximal leading and trailing whitespace runs removed; a non-empty result starts and ends with non-whitespace |
| Text.TrimByIsInfix | DataFiller/UI/ConsoleUI.cs:99 | every character of a trimmed string occurs in the original |
| Text.TrimUntouched | DataFiller/UI/ConsoleUI.cs:99 | `Trim()` returns a string with no whitespace at either end unchanged |
| Text.TrimByUntouched | DataFiller/UI/ConsoleUI.cs:99 | trimming with any whitespace class leaves a string with no such character at either end unchanged |
| Text.Split | DataFiller/UI/ConsoleUI.cs:91 | `Split(',')` yields at least one piece and no piece contains the separator |
| Text.JoinSplit | DataFiller/UI/ConsoleUI.cs:91 | joining the pieces of a split with the separator restores the input |
| Text.SplitJoin | DataFiller/UI/ConsoleUI.cs:91 | splitting a join of one or more separator-free pieces gives the pieces back (no pieces join to "", which splits into one empty piece) |
| Text.SplitPiece | DataFiller/UI/ConsoleUI.cs:91 | a separator-free string splits into itself alone |
| Text.SplitPieceThenSep | DataFiller/UI/ConsoleUI.cs:91 | a separator-free prefix followed by the separator becomes the first piece |
| Text.SplitTwo | DataFiller/UI/ConsoleUI.cs:91-92 | `Split(',')` yields exactly two pieces if and only if the entry holds exactly one ',', and the pieces are then the text before and after it |
| Text.RemoveEmpty | DataFiller/UI/ConsoleUI.cs:89 | `RemoveEmptyEntries` keeps exactly the non-empty pieces and never adds any |
| Text.RemoveEmptyOne | DataFiller/UI/ConsoleUI.cs:89 | a single piece is kept exactly when it is not empty |
| Text.RemoveEmptyAppend | DataFiller/UI/ConsoleUI.cs:89 | `RemoveEmptyEntries` works piece by piece: the kept pieces stay in their order, duplicates included |
| Text.RemoveEmptyOfNonEmpty | DataFiller/UI/ConsoleUI.cs:89 | a list of non-empty pieces is kept as it is |
| Text.SplitNonEmptyJoin | DataFiller/UI/ConsoleUI.cs:89 | splitting on ';' with empty entries removed inverts joining non-empty, ';'-free entries |
| Text.SplitNonEmptyIsEmpty | DataFiller/UI/ConsoleUI.cs:89 | the split with empty entries removed is empty if and only if the input is made of separators only |
| Text.RemoveEmptyOfEmpties | DataFiller/UI/ConsoleUI.cs:89 | removing the empty entries of a list of empty pieces leaves none |
| Text.OnlySeparatorsSplit | DataFiller/UI/ConsoleUI.cs:89 | a string made of separators only splits into empty pieces |
| Text.JoinOfEmpties | DataFiller/UI/ConsoleUI.cs:89 | joining empty pieces gives a string of separators only |
| Text.ToLowerLowers | DataFiller/Services/DataFillerService.cs:80 | the lower-cased name holds no ASCII capital, and lower-casing it again changes nothing |
| Text.ContainsIffOccurs | DataFiller/Services/DataFillerService.cs:80 | `Contains` holds exactly when the needle occurs at some position of the string |
| Text.NatToDigits | DataFiller/UI/ConsoleUI.cs:92 | the decimal text of a number is a non-empty string of digits |
| Text.DigitsValueOfNatToDigits | DataFiller/UI/ConsoleUI.cs:92 | reading the decimal text of a number back gives the number |
| Text.TryParseFormat | DataFiller/UI/ConsoleUI.cs:92 | `int.TryParse` accepts the decimal text of any int32 and returns that int32 |
| Text.TryParseDigits | DataFiller/UI/ConsoleUI.cs:92 | a plain digit string whose value fits in int32 parses to that value |
| Text.TryParseNegative | DataFiller/UI/ConsoleUI.cs:92 | '-' followed by digits parses to the negated value when it fits in int32 |
| Text.ParseNegativeDigits | DataFiller/UI/ConsoleUI.cs:92 | after trimming, a leading '-' negates the value of the digits that follow |
| Linq.Zip | DataFiller/Services/DataFillerService.cs:101 | each row is paired with the key computed for it |
| Linq.Elements | DataFiller/Services/DataFillerService.cs:101 | the rows of key-row pairs, in order |
| Linq.InsertElements | DataFiller/Services/DataFillerService.cs:101 | inserting a pair adds its row to the multiset of rows |
| Linq.InsertPairs | DataFiller/Services/DataFillerService.cs:101 | inserting a pair adds exactly that pair |
| Linq.InsertLowerBound | DataFiller/Services/DataFillerService.cs:101 | insertion keeps a lower bound on the keys |
| Linq.InsertSorted | DataFiller/Services/DataFillerService.cs:101 | inserting into a list sorted by key keeps it sorted |
| Linq.SortByKeyCorrect | DataFiller/Services/DataFillerService.cs:101 | the sort orders by key and keeps the multiset of rows |
| Linq.SortByKeyPairs | DataFiller/Services/DataFillerService.cs:101 | the sort keeps every key-row pair |
| Linq.OrderByPermutes | DataFiller/Services/DataFillerService.cs:101 | `OrderBy(x => _random.Next())` returns a permutation of its input, with the same length and multiset |
| DataFillerService.RewriteRowSynthesizes | DataFiller/Services/DataFillerService.cs:75-95 | every copy keeps its source row's key set. Id columns holding an int or long move forward, with wrap-around, by an offset below 1000000. Id columns holding a string become a GUID string. All other columns are copied verbatim |
| DataFillerService.OffsetFor | DataFiller/Services/DataFillerService.cs:84-88 | proof witness for `SynthesizedRowsAreReachable`: the offset read off a pair of values is one `_random.Next(1000000)` can return |
| DataFillerService.GuidFor | DataFiller/Services/DataFillerService.cs:92 | proof witness for `SynthesizedRowsAreReachable`: the string read off a value has the shape of `Guid.NewGuid().ToString()`, with 8-4-4-4-12 lower-case hex digits, version digit 4 and variant digit 8, 9, a or b |
| DataFillerService.RewriteValueReaches | DataFiller/Services/DataFillerService.cs:80-93 | the rewrite relation is exact for one value: every related value is produced by some offset and GUID |
| DataFillerService.IntRewriteReaches | DataFiller/Services/DataFillerService.cs:82-85 | any int lying less than 1000000 steps after the original, with wrap-around, is reached by some offset |
| DataFillerService.LongRewriteReaches | DataFiller/Services/DataFillerService.cs:86-89 | any long lying less than 1000000 steps after the original, with wrap-around, is reached by some offset |
| DataFillerService.ReachingDraws | DataFiller/Services/DataFillerService.cs:74-92 | proof witness for `SynthesizedRowsAreReachable`: there are draws that choose given offsets and GUID strings, with every offset in [0, 1000000) and every GUID of the version-4 shape |
| DataFillerService.RewriteRowEquals | DataFiller/Services/DataFillerService.cs:75-95 | proof step of `SynthesizedRowsAreReachable`: a copy is determined by its columns' values |
| DataFillerService.SynthesizedRowsAreReachable | DataFiller/Services/DataFillerService.cs:75-95 | every row related to a source row by the rewrite rule is the copy some choice of offsets and GUIDs produces |
| DataFillerService.ZeroOffsetKeepsIdentity | DataFiller/Services/DataFillerService.cs:84 | an offset of 0 leaves an id unchanged, so copies are not guaranteed new ids |
| DataFillerService.NoDNoOccurrence | DataFiller/Services/DataFillerService.cs:80 | "id" cannot occur in a name without 'd' |
| DataFillerService.NoDNotIdColumn | DataFiller/Services/DataFillerService.cs:80 | a name without 'd' or 'D', of a length other than 3, is not an id column |
| DataFillerService.IdColumnIgnoresCase | DataFiller/Services/DataFillerService.cs:80 | the name test gives the same answer for a name and its lower-cased form |
| DataFillerService.KeyNamesAreIdColumns | DataFiller/Services/DataFillerService.cs:80 | "Id", "UserID" and "KEY" are id columns, since the test is case-insensitive |
| DataFillerService.SubstringNamesAreIdColumns | DataFiller/Services/DataFillerService.cs:80 | "width" and "paid" are id columns too, since the test is a substring test |
| DataFillerService.OtherNamesAreNotIdColumns | DataFiller/Services/DataFillerService.cs:80 | "name", "primary_key" and "keys" are copied verbatim |
| DataFillerService.SynthesizedBatchShape | DataFiller/Services/DataFillerService.cs:71-101 | a batch has exactly `batchSize` rows (none for a size that is not positive). Its multiset of rows equals that of the rows drawn before the shuffle. Every row is a rewritten copy of some sample row `sourceData[j]`, with j in [0, sourceData.Count) |
| DataFillerService.DrawnRowsSynthesized | DataFiller/Services/DataFillerService.cs:72-98 | every row drawn is a rewritten copy of a row of the sample |
| DataFillerService.GenerateBatchData | DataFiller/Services/DataFillerService.cs:69-102 | the rows returned are the specified batch: exactly `batchSize` rows, each a rewritten copy of a sample row, shuffled |
| DataFillerService.SumSnoc | DataFiller/Services/DataFillerService.cs:57 | appending a batch adds its size to the total |
| DataFillerService.SumPrefix | DataFiller/Services/DataFillerService.cs:57 | the total of the first k+1 batches is that of the first k plus batch k |
| DataFillerService.BatchPlan | DataFiller/Services/DataFillerService.cs:48-50 | with `BatchSize > 0`, every batch the loop cuts has between 1 and `BatchSize` rows |
| DataFillerService.BatchPlanSum | DataFiller/Services/DataFillerService.cs:45-57 | the batch sizes add up to `targetCount` (to 0 for a target that is not positive), so `remainingCount` ends at exactly 0 |
| DataFillerService.BatchPlanFull | DataFiller/Services/DataFillerService.cs:50 | every batch but the last has exactly `BatchSize` rows |
| DataFillerService.BatchPlanLength | DataFiller/Services/DataFillerService.cs:48-57 | the number of batches is `targetCount` divided by `BatchSize`, rounded up |
| DataFillerService.BatchPlanPrefixSum | DataFiller/Services/DataFillerService.cs:50-57 | before the last batch, the first k batches hold k·BatchSize rows |
| DataFillerService.BatchPlanExample | DataFiller/Services/DataFillerService.cs:48-50 | a target of 2500 in batches of 1000 is cut into 1000, 1000, 500 |
| DataFillerService.FillTable | DataFiller/Services/DataFillerService.cs:23-64 | processing one table gives exactly the outcome `IsFillOf` specifies, and inserts the whole target when no insert fails |
| DataFillerService.FillProgressStep | DataFiller/Services/DataFillerService.cs:50-57 | one successful iteration inserts the next planned batch and lowers `remainingCount` by its size |
| DataFillerService.BatchPlanStep | DataFiller/Services/DataFillerService.cs:50-57 | the next batch has `min(remaining, BatchSize)` rows and the rest of the plan covers what then remains |
| DataFillerService.CompletedIsFillOf | DataFiller/Services/DataFillerService.cs:48-64 | leaving the loop normally means the whole plan was inserted and `targetCount` rows were credited |
| DataFillerService.FailedIsFillOf | DataFiller/Services/DataFillerService.cs:53-63 | a throwing insert ends the table after that batch, with only the earlier batches credited |
| DataFillerService.FillData | DataFiller/Services/DataFillerService.cs:19-67 | every configured table is processed exactly once, each as `IsFillOf` specifies: a missing table or an empty sample gets no insert call, and a failure ends only its own table |
| DataFillerService.FillBatchSizes | DataFiller/Services/DataFillerService.cs:48-51 | every batch sent holds `min(remaining, BatchSize)` rows, between 1 and `BatchSize` |
| DataFillerService.FillWithoutFailures | DataFiller/Services/DataFillerService.cs:45-58 | when every insert succeeds, exactly `targetCount` rows are credited and every batch but the last is full |
| DataFillerService.FillWithFailure | DataFiller/Services/DataFillerService.cs:53-63 | the first failed insert is the last one made, with no retry. The credit is the full batches before it, which is less than the target |
| DataFillerService.FillIgnoresSampleSize | DataFiller/Services/DataFillerService.cs:44-45 | the number of batches, the credit and the failure flag depend on `targetCount`, `BatchSize` and the insert outcomes only, not on the rows already present (`currentCount` is unused) |
| DataFillerService.FailureOnSecondBatch | DataFiller/Services/DataFillerService.cs:53-63 | a target of 5000 in batches of 1000 that fails on the second insert sends two batches and credits 1000 rows |
| UI.ParseEntry | DataFiller/UI/ConsoleUI.cs:91-107 | an accepted entry has a count above 0, and its trimmed name is comma-free and passed the existence check. A `TableDoesNotExist` error names a table that failed that check (the exact conditions are `UI.ParseEntryAccepts`, `UI.ParseEntryFormatError` and `UI.ParseEntryMissingTable`) |
| UI.ParseEntryAccepts | DataFiller/UI/ConsoleUI.cs:91-107 | an entry is accepted as (name, count) if and only if it is two ','-pieces, `int.TryParse` reads the second as `count` above 0, and `name` is the first piece trimmed and passes the existence check |
| UI.ParseEntryFormatError | DataFiller/UI/ConsoleUI.cs:91-97 | an entry is rejected as malformed if and only if it is not two ','-pieces whose second `int.TryParse` reads as a number above 0 |
| UI.ParseEntryMissingTable | DataFiller/UI/ConsoleUI.cs:99-105 | an entry is rejected for table `name` if and only if it is well formed, `name` is its first piece trimmed, and `name` fails the existence check |
| UI.ParseTableMappings | DataFiller/UI/ConsoleUI.cs:86-114 | the mapping built from one line is the fold over its non-empty ';' entries. An accepted mapping has positive counts and existing tables only |
| UI.ParseEntries | DataFiller/UI/ConsoleUI.cs:89-108 | the `foreach` with early `break` computes the fold over the entries: the mappings, or the error of the entry that stopped it |
| UI.ErrorIsFinal | DataFiller/UI/ConsoleUI.cs:92-105 | once an entry fails, the entries after it change nothing |
| UI.MappingsOfValid | DataFiller/UI/ConsoleUI.cs:92-107 | every committed mapping has each value above 0 and each key passed the existence check |
| UI.MappingsOfAccepts | DataFiller/UI/ConsoleUI.cs:89-92 | a line is accepted if and only if every one of its non-empty entries is |
| UI.MappingsOfFirstError | DataFiller/UI/ConsoleUI.cs:92-105 | a rejected line reports the error of its first failing entry, and all entries before it parse |
| UI.MappingsOfKeys | DataFiller/UI/ConsoleUI.cs:99-107 | an accepted line maps exactly the trimmed names its entries carry |
| UI.MappingsOfLastWins | DataFiller/UI/ConsoleUI.cs:107 | for a table named more than once, the last entry's count is stored |
| UI.ParseFormattedEntry | DataFiller/UI/ConsoleUI.cs:91-107 | an entry written as `name,count` parses back to that name and count, when the name is an existing table that holds no ',' or ';' and has no whitespace at either end (a name with outer whitespace comes back trimmed), and the count is above 0 |
| UI.FormattedEntryShape | DataFiller/UI/ConsoleUI.cs:89 | an entry formatted from a name holding no ';' and a count above 0 is non-empty and holds no ';' |
| UI.ParseFormattedMappings | DataFiller/UI/ConsoleUI.cs:83-114 | for pairs of plain existing names (no ',' or ';', no whitespace at either end) and counts above 0, writing them as `table1,1000;table2,2000` and parsing the line gives back their dictionary, later pairs overwriting earlier ones |
| UI.FormattedEntriesFold | DataFiller/UI/ConsoleUI.cs:89-108 | for pairs of plain existing names and counts above 0, the fold over their formatted entries builds the pairs' dictionary |
| UI.SeparatorsOnlyConfigureNothing | DataFiller/UI/ConsoleUI.cs:86-113 | a line of ';' only is accepted and yields an empty mapping |
| UI.FormatCheckedFirst | DataFiller/UI/ConsoleUI.cs:92-100 | a malformed entry is rejected whatever the store says, because the format is checked before the existence query |
| UI.ValidateBatchSize | DataFiller/UI/ConsoleUI.cs:126-133 | a batch size is accepted if and only if 1 ≤ size ≤ 10000; a rejection carries a message |
| UI.ValidateThreadCount | DataFiller/UI/ConsoleUI.cs:146-153 | a thread count is accepted if and only if 1 ≤ count ≤ 100; a rejection carries a message |
| UI.BatchSizePromptInRange | DataFiller/UI/ConsoleUI.cs:122-134 | the batch-size prompt, the default 1000 included, only yields sizes in 1..10000 |
| UI.ThreadCountPromptInRange | DataFiller/UI/ConsoleUI.cs:142-154 | the thread-count prompt, the default 10 included, only yields counts in 1..100 |
| UI.FirstAccepted | DataFiller/UI/ConsoleUI.cs:122-134 | the prompt returns the first answer it accepts, with every earlier answer refused; nothing if no answer is accepted |
| UI.FirstAcceptedLine | DataFiller/UI/ConsoleUI.cs:80-115 | the line that ends the table prompt is the first that is not blank and parses |
| UI.ConsoleUI.constructor | DataFiller/UI/ConsoleUI.cs:10 | `_config` starts as `new Configuration()`: empty connection string, batch size 1000, no tables |
| UI.ConsoleUI.ConfigureTables | DataFiller/UI/ConsoleUI.cs:78-116 | the mapping of the first accepted line replaces `_config.TableMappings` whole, with positive counts and existing tables only. Rejected lines leave `_config` as it was, and nothing else in it changes |
| UI.ConsoleUI.ConfigureBatchSize | DataFiller/UI/ConsoleUI.cs:118-136 | the first accepted answer becomes `_config.BatchSize`, in 1..10000, and nothing else changes |
| UI.ConsoleUI.StartFilling | DataFiller/UI/ConsoleUI.cs:158-169 | the fill engine runs on the configuration as it stands |
| UI.ConsoleUI.Run | DataFiller/UI/ConsoleUI.cs:13-25 | the run starts if and only if each of the three prompts accepts an answer. It then fills, each table as `IsFillOf` specifies, with the mapping of the first accepted table line and the first accepted batch size, in 1..10000. Whenever a table line is accepted, the configuration's mapping is that line's, even if a later prompt is never answered; when no batch size is accepted the batch size is left alone. The connection string never changes, and without an accepted table line nothing in the configuration does |

The definitions these contracts are stated against:

- `Integers.AddInt32` and `Integers.AddInt64`: the unchecked additions at
  DataFiller/Services/DataFillerService.cs:84 and :88.
- `Text.ToLowerChar`, `Text.ToLower`, `Text.Contains` and
  `DataFillerService.IsIdColumn`: the name test at
  DataFiller/Services/DataFillerService.cs:80.
- `DataFillerService.RewriteValue` and `DataFillerService.RewriteRow`: the
  rewrite of one copied row, DataFiller/Services/DataFillerService.cs:75-95.
- `DataFillerService.DrawnRow` and `DataFillerService.DrawnRows`: the rows
  the `for` loop appends, DataFiller/Services/DataFillerService.cs:72-98.
- `DataFillerService.SortKeys`, `Linq.SortByKey` and `Linq.OrderBy`: the
  shuffle, DataFiller/Services/DataFillerService.cs:101.
- `DataFillerService.SynthesizedBatch`: the batch `GenerateBatchData`
  returns, DataFiller/Services/DataFillerService.cs:69-102.
- `DataFillerService.IsFillOf`: the outcome of one table,
  DataFiller/Services/DataFillerService.cs:23-64.
- `Text.Trim`, `Text.SplitNonEmpty`, `Text.TryParseInt32` and
  `Text.ParseSignedDigits`: `Trim()`, `Split(';', RemoveEmptyEntries)` and
  `int.TryParse`, DataFiller/UI/ConsoleUI.cs:99, :89 and :92.
- `UI.MappingsOf` and `UI.TableMappingsOf`: the mapping one line yields,
  DataFiller/UI/ConsoleUI.cs:86-108.
- `UI.FormatEntry` and `UI.FormatEntries`: entries in the format the prompt
  asks for, DataFiller/UI/ConsoleUI.cs:83.
- `UI.PromptValue`: what a numeric prompt with a default and a validator
  makes of one answer, DataFiller/UI/ConsoleUI.cs:122-134 and 142-154.
- `UI.IsBlank`: the answers the string prompt refuses,
  DataFiller/UI/ConsoleUI.cs:82-84.

## Left out

- Console I/O: the Figlet banner, markup lines, progress bars and
  `task.Increment`, and the elapsed-time report with `DateTime.Now` are
  output only.
- The connection step (`ConfigureConnectionAsync`, `DataFiller/UI/ConsoleUI.cs:27-76`)
  is left out. Reading and writing `config.json`, JSON serialisation and
  `ValidateConnectionAsync` are file and network I/O. `UI.ConsoleUI.Run`
  starts after it, from whatever configuration the object holds.
- The prompt loops that retry until an answer is accepted are modelled over
  a finite list of typed answers. If no answer in the list is accepted, the
  model reports that nothing was taken, where the program would go on
  waiting.
- The prompt's conversion of typed text to `int` for the numeric prompts is
  Spectre.Console's. A `PromptAnswer` is the converted answer: an empty line
  or a number.
- `DbService` (`DataFiller/Services/DbService.cs`) is a wrapper over SqlSugar
  and PostgreSQL. It is the `Gateway` oracle:
  - `TableExistsAsync` is a predicate. The store compares table names
    case-insensitively, which the predicate leaves to the store.
  - `GetTableDataAsync` is a function from table to sample. Its 1000-row
    `Take` limit is not modelled.
  - `BulkInsertAsync` either succeeds or throws.
  - An exception from `TableExistsAsync` or `GetTableDataAsync` is not
    modelled. Those calls sit outside the `try` and would end the run.
- `Random` and `Guid.NewGuid` are the `Draws` oracle, drawn per table and
  per batch. The model does not fix how one `Random` instance's sequence is
  shared out, and it claims nothing about ids being unique. With an offset
  of 0 they are not (`DataFillerService.ZeroOffsetKeepsIdentity`).
- DataFillerService.FillData: takes the configured tables in an unspecified
  order, where the program walks `_config.TableMappings` in the dictionary's
  enumeration order (`DataFiller/Services/DataFillerService.cs:21`). No
  proved property depends on that order. Each table's outcome reads only
  its own draws `rng(table, c)` and its own insert outcomes
  `insertSucceeds(table, c)`.
- The thread count is validated, and `UI.ConsoleUI.Run` needs the prompt to
  accept an answer. The value itself is not stored:
  `DataFiller/UI/ConsoleUI.cs:142` assigns `_config.ThreadCount`, which
  `DataFiller/Models/Configuration.cs:5-15` does not declare, and the fill
  engine never reads a thread count.
- Text.ToLower: lower-cases ASCII letters only, the invariant way. .NET's
  `ToLower()` uses the current culture. It also maps non-ASCII capitals, and
  under a Turkish or Azerbaijani culture it lower-cases `I` to `ı` (U+0131).
  There "Id" and "UserID" fail the id test, unlike in
  `DataFillerService.KeyNamesAreIdColumns`. The model assumes a culture that
  lower-cases ASCII letters the invariant way.
- Text.TryParseInt32: models `NumberStyles.Integer` with the invariant
  culture. The trailing NUL characters .NET also tolerates, and
  culture-specific sign symbols, are not modelled.
- Strings are sequences of Unicode scalar values, not UTF-16 code units.
  `Char.IsWhiteSpace` is given by its list of code points.
- The `Value` type distinguishes `int`, `long` and `string` and lumps every
  other boxed type, `DBNull` included, into `Other`. The rewrite leaves that
  kind untouched.
