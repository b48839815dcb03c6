# GeonamesDbGen import core, modelled in Dafny

GeonamesDbGen is a one-shot batch job (`Program.cs`). It loads three GeoNames
dump files into SQLite, adds an ISO 3166-2 subdivision code to every
first-level administrative division (admin1), and builds a full-text search
table by joining places, divisions and countries. This project models the
three deterministic transformations in the middle of that job and proves
what they guarantee:

- **Bulk loader** (`DoFile`, module `BulkLoader`). It builds the positional
  statement `INSERT INTO <table> VALUES (@f0,@f1,...)`. It skips lines that
  start with `#`, splits every other line on tabs (empty fields kept), and
  reports each line whose field count is wrong. Every other line is bound
  field by field to `@f0..@f(N-1)` and inserted as one row. Its counter `i`
  advances only on an insert. The method returns the statement text, the
  rows, the warnings `(file, i, got, expected)`, the progress counts printed,
  and `i`. Its loops are proved against the left-fold specification `Load`.
  The lemmas relate `Load` to an independent filter definition (`GoodRows`),
  to split/join round trips, and to per-line effects.
- **Admin1 enricher** (`DoIso3116_2Names` and `GetAdmin1IsoCodes`, module
  `Iso3166`). A class `Admin1Table` holds the loaded rows and the added
  `iso3166_2` column as a `map<string, Option<string>>`, where `None` is SQL
  NULL. `Enrich` visits every row in table order, splits its key on `.`, and
  issues the same UPDATEs as the source, checked in the source's order: the
  Canada/Australia table, then the `US` pass-through, then `""`. When the
  country is in the table but the code is not (`CA.06`), no UPDATE is issued
  and the column stays NULL.
- **Search index** (`SearchIndex`). This is the `INSERT ... SELECT` at
  `Program.cs:78`, modelled as a function over the three tables. It is an
  inner join on `g.country = c.ISO` and `g.country || '.' || g.admin1 = a.key`.
  Its `longname` follows SQLite's `||`, so a NULL code gives a NULL name.
- **Pipeline** (`Pipeline.Run`). It runs the three loads in the source's
  order, then the enrichment, then the index. End-to-end lemmas state what
  the finished store contains.

Text helpers (`Text`) model .NET `String.Split(char)`, its inverse `Join`,
and the decimal formatting of `$"@f{x + 1}"`. All column values are kept as
text. `schema.dfy` declares the columns in CREATE TABLE order.

Three behaviours of the code that are easy to miss:

- An unmapped Canadian or Australian code leaves `iso3166_2` NULL. It does
  not become `""`.
- The warning's index is the number of rows inserted so far. It is not the
  physical line number (`BulkLoader.DiagnosticIndexCountsRows`).
- With an expected field count below one (and above `int.MinValue`), the
  statement still has the single placeholder `@f0`.

## Model

| member | source | states |
|---|---|---|
| Text.Split | Program.cs:130 | `Split(c)` yields one more field than there are separators, and no field contains the separator |
| Text.JoinSplit | Program.cs:130 | joining the split fields with the separator gives back the original line |
| Text.SplitJoin | Program.cs:130 | splitting a join of separator-free fields gives back exactly those fields |
| Text.ParseDecimalString | Program.cs:110 | the decimal rendering in `@f{x + 1}` can be read back to the number, so distinct numbers give distinct names |
| BulkLoader.PlaceholderInjective | Program.cs:110 | parameter names `@f{j}` for distinct positions are distinct |
| BulkLoader.InsertSqlShape | Program.cs:106-113 | the statement is `INSERT INTO <t> VALUES (` + a list that splits on `,` into exactly `@f0..@f(N-1)` in order, with no blank + `)` (one placeholder when N < 1) |
| BulkLoader.BuildInsertSql | Program.cs:106-113 | the `+=` loop produces exactly that statement text |
| BulkLoader.AddParameters | Program.cs:139-142 | the inner loop binds `@f{j}` to `fields[j]` for every j, in order |
| BulkLoader.LookupParameters | Program.cs:139-142 | in that parameter list, `@f{j}` is bound to exactly `fields[j]` |
| BulkLoader.PositionalBinding | Program.cs:139-145 | executing the statement with that list inserts the fields unmodified |
| BulkLoader.InsertSql | Program.cs:106-113 | no contract of its own; `InsertSqlShape` states its shape and `BuildInsertSql` ties the source's loop to it |
| BulkLoader.Step | Program.cs:123-150 | no contract of its own; `CommentLineIgnored`, `MismatchedLineReported` and `MatchingLineInserted` state its three cases |
| BulkLoader.Load | Program.cs:121-151 | no contract of its own; `LoadRowsAreGoodRows`, `LoadAccountsForEveryLine`, `LoadRowsWidth`, `DiagnosticsWellFormed` and `ProgressSchedule` characterise it |
| BulkLoader.DoFile | Program.cs:99-155 | returns exactly `InsertSql` of the table and field count, and the rows, warnings and progress counts that `Load` gives for the lines; the counter equals the number of rows inserted |
| BulkLoader.CommentLineIgnored | Program.cs:125-128 | a `#` line changes no row, no warning, no progress count and not the counter |
| BulkLoader.MismatchedLineReported | Program.cs:130-137 | a non-comment line with tabs+1 != N adds no row and exactly one warning `(file, rows so far, tabs+1, N)` |
| BulkLoader.MatchingLineInserted | Program.cs:130-145 | a line made of N tab-free fields is inserted as exactly those fields, without a warning |
| BulkLoader.DiagnosticIndexCountsRows | Program.cs:132-137 | two consecutive bad lines add no row and report the same index, the number of rows inserted before them: the index counts rows, not lines |
| BulkLoader.LoadRowsAreGoodRows | Program.cs:121-151 | the inserted rows are the splits of the non-comment lines with N fields, in source order |
| BulkLoader.LoadRowOrigin | Program.cs:121-145 | every inserted row is the split of some non-comment line |
| BulkLoader.LoadAccountsForEveryLine | Program.cs:121-151 | every line is a comment, a row or a warning, and only one of them |
| BulkLoader.LoadRowsWidth | Program.cs:132-142 | every inserted row has exactly N fields, none containing a tab |
| BulkLoader.DiagnosticsWellFormed | Program.cs:132-137 | every warning names the file, a count other than N, and an index no larger than the rows inserted; indices never decrease |
| BulkLoader.ProgressSchedule | Program.cs:147-150 | progress is printed after the 1st, 1001st, 2001st, ... insert, with that count: ceil(rows/1000) messages |
| Iso3166.Admin1IsoCodes | Program.cs:203-237 | the table covers exactly CA and AU, maps only to non-empty codes, and has no entry for Canada's `06` |
| Iso3166.Resolve | Program.cs:164-197 | no contract of its own; `ResolveByParts` states its priority order and the five example lemmas below pin single keys |
| Iso3166.ResolveByParts | Program.cs:164-197 | for `<country>.<code>`: the CA/AU table value, or no update when the code is missing from it; else the code itself for US; else `""` |
| Iso3166.ResolveCanada | Program.cs:166-175 | `CA.01` resolves to `AB` |
| Iso3166.ResolveAustralia | Program.cs:166-175 | `AU.02` resolves to `NSW` |
| Iso3166.ResolveCanadaUnmapped | Program.cs:166-179 | `CA.06` issues no update |
| Iso3166.ResolveUnitedStates | Program.cs:180-188 | `US.06` resolves to `06` |
| Iso3166.ResolveOther | Program.cs:189-197 | `FR.11` resolves to `""` |
| Iso3166.Enriched | Program.cs:161-198 | the pass neither adds nor removes rows of the column |
| Iso3166.EnrichedAt | Program.cs:161-198 | a visited row with a resolution holds it afterwards; every other row keeps its previous value |
| Iso3166.EnrichedFromNull | Program.cs:57-58 | starting from the NULL column that ALTER TABLE adds, each visited row ends with exactly its resolution (NULL where no update) |
| Iso3166.EnrichedIdempotent | Program.cs:161-198 | visiting the same rows a second time changes nothing |
| Iso3166.Admin1Table.constructor | Program.cs:57-58 | the added column is NULL for every key of the table |
| Iso3166.Admin1Table.Update | Program.cs:172-177 | `UPDATE ... WHERE key = @f1` sets that key's value and nothing else |
| Iso3166.Admin1Table.Visit | Program.cs:163-197 | the loop body for one key: the column becomes `Apply` of the old column, i.e. one UPDATE with `Resolve(key)` or none, and stays one entry per key |
| Iso3166.Admin1Table.Enrich | Program.cs:157-201 | the loop leaves the rows unchanged and the column equal to `Enriched` of the table's keys in order |
| SearchIndex.LongName | Program.cs:78 | no contract of its own; `LongNameValue` states when it is NULL and what it is otherwise |
| SearchIndex.Project | Program.cs:78 | no contract of its own; `FullTextMembership` states that index rows are exactly its values on joining triples |
| SearchIndex.FullText | Program.cs:78 | no contract of its own; `FullTextMembership`, `PlaceRowsOne`, `PlaceRowsNone` and `FullTextSize` characterise it |
| SearchIndex.LongNameValue | Program.cs:78 | `longname` is NULL exactly when the row's `iso3166_2` is NULL; otherwise it is `<asciiname>, <code> <admin1 name>, <country>` |
| SearchIndex.FullTextMembership | Program.cs:78 | a row is in the index iff it projects a place, an admin1 row and a country row with g.country = c.ISO and g.country.g.admin1 = a.key |
| SearchIndex.PlaceRowsOne | Program.cs:78 | with distinct primary keys, a matched place contributes exactly the projection of its match |
| SearchIndex.PlaceRowsNone | Program.cs:78 | a place without a matching admin1 row and country row contributes nothing |
| SearchIndex.FullTextSize | Program.cs:78 | with distinct primary keys, the index has one row per matched place |
| Pipeline.CitiesFileName | Program.cs:6-14 | the cities file name is built from the dataset size: `cities15000.txt` |
| Pipeline.Build | Program.cs:51-79 | no contract of its own; `BuildStages` restates it over the three loads, and `StoreIsoColumn` and `StoreIndex` state what its column and index hold |
| Pipeline.EnrichAndIndex | Program.cs:57-79 | from the table's loaded rows, the new NULL column, the enrichment pass and the index give exactly `Assemble` of the loaded tables |
| Pipeline.Run | Program.cs:51-79 | the run leaves the store `Build` describes: three loads in order, the enriched column, the index, all warnings |
| Pipeline.StoreIsoColumn | Program.cs:57-70 | after a run every admin1 row's `iso3166_2` is its resolution, NULL where no update was issued |
| Pipeline.AssembledColumn | Program.cs:57-70 | enriching the freshly added NULL column over a table's keys leaves every row holding its resolution |
| Pipeline.AssembledIndex | Program.cs:78 | the index built over the enriched column is exactly the display rows of the joining triples |
| Pipeline.StoreIndex | Program.cs:51-79 | after a run the index rows are exactly the display rows of joining triples, with the resolved code or a NULL name |

## Left out

- Downloading (`DownloadFile`, `Task.WhenAll`) and the skip-if-present check: network I/O, concurrency and filesystem behaviour.
- Zip extraction: a foreign archive library.
- Opening the connection, DROP/CREATE statements, transactions and commit: SQLite schema setup. Tables are in-memory sequences and maps, and the three loads are not modelled as atomic.
- SQLite column affinity and PRIMARY KEY enforcement. A duplicate key would make the real insert fail. The model keeps the duplicate row, and the search-index counting lemmas assume distinct keys instead.
- UTF-8 decoding by `StreamReader` and line splitting: the input is already-decoded lines. Console messages are modelled as tuples and counts, not formatted text.
- `IsComment` checks that the first character is `#`. Culture-sensitive details of `StartsWith(string)` are not modelled.
- The `NullReferenceException` guards, and the crash on a CA/AU/US key without a `.`: the enricher requires such keys to contain a `.` (`Resolvable`).
- Row order of the search index: SQL leaves it unspecified. The model lists rows place by place; its contracts are about membership and count, not order.
- BulkLoader.PlaceholderCount: integer arithmetic is unbounded in the model. In C#, `expectedFields - 1` (Program.cs:108) wraps to `int.MaxValue` when `expectedFields` is `int.MinValue`, so the source would append about 2^31 placeholders or run out of memory; the model gives the single `@f0`. The call sites pass 19, 19 and 4.
- BulkLoader.DoFile: the counter `i` (Program.cs:119, 147) is a 32-bit `int` in C# and wraps after 2^31 - 1 inserts, after which the warning index is negative and C#'s truncating `%` decides the progress output; the model's counter is an unbounded `nat` with Euclidean `%`.
- Pipeline.Run: the model keeps only the rows and warnings of each load. The statement texts and progress counts are stated by `BulkLoader.DoFile`.
