# Verification model of the MariaDB ADBC driver

This project models the parts of the driver that hold an algorithm of their own and proves what they promise:

- **GetObjects** (`ObjectTree`, `ObjectQuery`, `ObjectTies`, `TableConstraints`, `ConstraintOrder`, `ConstraintQuery`,
  `Promised`, on `Grouping`): a LEFT JOIN over the metadata tables, folded back into a catalog, schema, table and column tree by a loop with
  "current" pointers into growing slices, and a second row stream that attaches constraints through a map of pointers. A Go
  pointer into a slice is a backing array and an index; every append may move its slice to a new array, and a store through a
  pointer to an old array is lost. Both queries are relational algebra over arbitrary metadata. LIKE is an arbitrary relation,
  and the collation one arbitrary strict weak order on all names: ORDER BY follows it, and names it ties are equal to `=` and
  `IN`, so that joins may bring together names that differ, and rows may repeat.
- **SQL text** (`SqlScanner`, `SqlText`, `CreateTable`, `MetadataSql`, `MetadataText`, `Conditions`, `QueryMeaning`): the
  grammar behind the placeholder counter, that grammar applied to every SQL text the driver writes, and the optional conditions
  of the metadata queries as syntax with a text, arguments and a meaning.
- **Declarations and values** (`TypeValues`, `TimeCodec`, `Decimal`, `VectorCodec`): the ENUM/SET parser, TIME as a signed
  64-bit duration with Go's truncating division and wrap-around, and VECTOR as a flattened little-endian float column.
- **Statistics** (`Statistics`): two row streams merged through three maps and a composite key.
- **The C interface** (`Lifecycle`, `Traces`, `Driver`, `Options`, `CErrors`, and `Statement` for prepared statements): handles,
  readers and the poison flag as a state machine with an in-place implementation; buffered options; error structs over an
  explicit heap whose `Free` accepts only NULL or allocated memory.

A byte of a Go string or of SQL text is a Dafny `char`; every byte the code looks for is ASCII. What a database, a base class
or a record reader does is a parameter: success, failure or panic, and any rows.

Some laws hold only under a condition. The project states the condition exactly and keeps the code as it is:

- Under a collation that ties distinct names, every answer of the server folds to the nested specification exactly when the
  ties do no harm: every table joined to a catalog is that catalog's own by name and type, every column is joined to exactly its
  own table, and no two tied names let their rows interleave (`EveryAnswerNested`). Without two tied names it always holds
  (`ApartHarmless`). An empty catalog "D" is given the tables of "d" (`EmptyTwinFilled`), and tables "a" and "A" appear twice,
  with the columns of both (`TiedNamesRepeat`); a collation that ignores case is one that ties them (`CaseBlindTies`). No answer
  panics. The constraints query has the same kind of condition, also exact (`EveryStreamCarries`), and the same kind of failure
  (`TiedNamesMixed`). On a row stream, a catalog or table appears twice exactly when its rows are not contiguous (`TreeNames`).
- Constraints of one table are told apart by name only, in the join as in the loop. Each is reported with its own type exactly
  when no two of different types share a name (`KindsKept`); otherwise each is paired with the columns of all of them
  (`TableRows`) and they are merged under the first one's type (`SharedNameMerged`).
- A composite key is unambiguous as soon as catalog names are free of NUL. With a NUL, the second statistics loop writes to a
  missing map exactly when a key matches a table although its own catalog was never seen; otherwise its result is complete
  exactly when no key matches a table although the row's own table was never seen (`ReadIndexes`).
- A duration formats and parses back, cut to microseconds, exactly when its magnitude is below 839 hours. The minimum 64-bit
  count is its own negation and comes back as a positive duration (`DurationRoundTrip`, `MinimumFlipsSign`).
- The TIME parser checks upper limits only, and takes a sign inside a field. An accepted text is a proper TIME value, in range
  and exactly summed, exactly when none of its fields parses negative (`AcceptedText`); negative minutes are subtracted
  (`SignedFieldAccepted`) and a negative hour field exceeds 838 hours (`OutOfRangeAccepted`).
- An Init that fails on an option leaves its object initialized and cannot be retried. The settings are still last-write-wins
  exactly when every key buffered before it was given at creation, visited before the first refused one, or set again
  afterwards (`LastWriteWinsAfterInit`, `FailedInitLosesOptions`).
- An exported stream must not be written over a live one: that is exactly what leaves a handle stored nowhere
  (`ExportKeepsIff`).
- Setting an error with details does not release the error it replaces. Its memory is lost exactly when details are attached
  to a struct that still held one (`SetThenRelease`, `LeakedError`).

## Model

| member | source | states |
|---|---|---|
| ObjectTree.Regroup | go/connection_getobjects.go:135-215 | for every row sequence and depth, and however appends move the slices, the loop with its pointers builds the tree of maximal catalog and table runs; it panics on an empty schema list exactly when a catalog's rows include a table but start without a schema |
| ObjectTree.AttachRow | go/connection_getobjects.go:191-213 | the row's column lands in the last table of the slice, which is the row's own table, whether or not the append moved the slice |
| ObjectTree.TreeCells | go/connection_getobjects.go:135-215 | flattening the tree gives the rows that carry a column, in row order: nothing lost, duplicated or moved |
| ObjectTree.TreeNames | go/connection_getobjects.go:172-205 | catalogs and tables appear in first-seen order, none twice exactly when the rows are contiguous |
| ObjectTies.EveryAnswerNested | go/connection_getobjects.go:42-215 | for every content of the metadata tables, every request and every collation: no answer of the server makes the loop panic, and every answer folds to the nested specification exactly when the ties among its names do no harm, that is when joins bring together only what belongs together and no rows of tied names interleave |
| ObjectTies.AnswerNotNested | go/connection_getobjects.go:42-215 | ties that do harm show in some answer: a stray table, a stray or repeated column, or a catalog or table built twice |
| ObjectTies.EmptyTwinFilled | go/connection_getobjects.go:87-124 | under a collation that ties "d" and "D", an empty catalog "D" is shown with the table of "d", although no rows interleave |
| ObjectTies.TiedNamesRepeat | go/connection_getobjects.go:94-124 | under a collation that ties "a" and "A", each table is joined to the columns of both, and an answer may alternate between them so that both are built twice |
| ObjectTies.CaseBlindTies | go/connection_getobjects.go:124 | ignoring case is such a collation |
| Grouping.RunsUnique | go/connection_getobjects.go:172-205 | a division into groups of one key with different neighbours is unique, and is what comparing with the current key builds |
| Grouping.RunsDistinct | go/connection_getobjects.go:172-205 | no key heads two groups exactly when the sequence is contiguous |
| Grouping.RunIsFilter | go/connection_getobjects.go:320-337 | in a contiguous stream one group is the subsequence of all rows with its key, in order |
| ObjectQuery.ResultMember | go/connection_getobjects.go:49-122 | what the three LEFT JOINs with their depth switches and filters put together when tied names are equal, described directly |
| ObjectQuery.ObjectsNested | go/connection_getobjects.go:42-215 | for every content of the metadata tables, every depth, filter, LIKE and collation whose ties do no harm, folding the ordered join never panics and yields the nested ADBC specification: each matching catalog, table and column once, in order, lists absent, empty or filled as the depth and the schema filter dictate |
| Promised.NestedKept | go/connection_getobjects.go:37-215 | that specification spelled out on the server's own rows, with the depths as numbers: the schema list is absent exactly at depth 1, the table list present exactly at depths 0 and 3 and the column list exactly at depth 0; each holds what the filters admit, once and in order |
| ObjectQuery.ApartHarmless | go/connection_getobjects.go:94-124 | if no two distinct catalogs, tables or kinds of the server and the request tie, the ties do no harm |
| ObjectQuery.TotalOrder | go/connection_getobjects.go:124 | a collation without ties ties no names of any server |
| ObjectQuery.NestedUnique | go/connection_getobjects.go:42-215 | under a collation without ties at most one tree meets that specification |
| TableConstraints.BuildIndex | go/connection_getobjects.go:237-248 | the map of pointers built by the three nested loops |
| TableConstraints.InfosIndexed | go/connection_getobjects.go:237-248 | the map holds a key exactly when a table of the tree has it, and then leads to such a table |
| TableConstraints.AttachKeyRow | go/connection_getobjects.go:327-352 | the row's column and usage land in its own constraint, opened if it is not the current one, even when the list moved |
| TableConstraints.ExtendSnoc | go/connection_getobjects.go:297-352 | one more row changes only the table its key leads to; a row for a table outside the tree changes nothing |
| TableConstraints.AddTableConstraints | go/connection_getobjects.go:235-357 | for every tree and row stream the result is the same tree with each indexed table's list extended by one constraint per run of its rows |
| ConstraintOrder.ConstraintsComplete | go/connection_getobjects.go:287-352 | on an ordered stream a table gets each of its constraint names once, in order, each built from all its rows |
| ConstraintOrder.RowsOfConstraint | go/connection_getobjects.go:287-352 | the rows behind an entry are the constraint's own rows, with ordinals that never decrease |
| ConstraintOrder.ParallelUsage | go/connection_getobjects.go:338-351 | for a foreign key the usage list runs parallel to the column list; without referenced columns there is none |
| ConstraintOrder.KindsKept | go/connection_getobjects.go:322-337 | every constraint keeps its own type exactly when one name means one type in its table |
| ConstraintOrder.NestedDistinct | go/connection_getobjects.go:237-248 | with NUL-free catalog names no two tables of the tree share a key |
| ConstraintOrder.ConstraintsAttached | go/connection_getobjects.go:217-352 | after attaching, the tree differs from the nested specification only in that every table carries exactly its constraints of the stream |
| ConstraintQuery.KeyResultMember | go/connection_getobjects.go:253-287 | what the joins and filters of the constraints query put together when tied names are equal, described directly |
| ConstraintQuery.FiltersAgree | go/connection_getobjects.go:253-287 | the filters of the two queries agree: a table that is in the tree gets all its constraints |
| ConstraintQuery.ExactAnswer | go/connection_getobjects.go:264-287 | if the joins confuse no names, the stream is every constraint let through with every key column of its name, and nothing else |
| ConstraintQuery.TableRows | go/connection_getobjects.go:264-287 | what such a stream holds for a table, and that constraints of one name are each paired with the columns of all of them |
| ConstraintQuery.TableCarries | go/connection_getobjects.go:235-352 | the list of a table names exactly the server's constraints of that table, once and in order; a constraint with a name of its own has its type, its columns in ordinal order and its references; a shared name is merged from all pairs |
| ConstraintQuery.EveryStreamCarries | go/connection_getobjects.go:253-352 | for every metadata, request and collation, every answer gives every table exactly the list of its constraints exactly when the ties among their names do no harm: no join lets a constraint through that is filtered out or brings it columns of another, and no rows of two constraints interleave |
| ConstraintQuery.ApartKeysHarmless | go/connection_getobjects.go:264-287 | if no two distinct schemas, tables or constraint names tie, the ties do no harm |
| ConstraintQuery.TotalKeyOrder | go/connection_getobjects.go:287 | a collation without ties ties no such names |
| ConstraintQuery.TiedNamesMixed | go/connection_getobjects.go:264-352 | two constraints "k" and "K" that tie are each reported with the columns of both |
| ConstraintQuery.SharedNameMerged | go/connection_getobjects.go:264-352 | a UNIQUE and a FOREIGN KEY constraint of one name and column come out as one FOREIGN KEY of four columns |
| ConstraintQuery.GetObjects | go/connection_getobjects.go:37-231 | end to end, for every metadata, request and collation whose ties do no harm: no panic; the schema list absent exactly at depth 1, the table list present exactly at depths 0 and 3, the column list exactly at depth 0, each with what the filters admit of the server's own rows; and on every table the names of its constraints, once and in order, those with a name of their own with the server's type, columns and references |
| Prelude.TableKeyInjective | go/connection_getobjects.go:245 | two pairs with NUL-free catalogs share a key only if they are the same pair |
| Prelude.TableKeyConfusesNul | go/connection_getobjects.go:245 | a NUL in a catalog name can make two pairs share a key |
| SqlScanner.LexSound | go/mariadb.go:845-911 | every text is a sequence of maximal plain, parameter, quoted and comment tokens that renders back to it |
| SqlScanner.LexUnique | go/mariadb.go:845-911 | that sequence is the only one |
| SqlScanner.CountPlaceholders | go/mariadb.go:845-911 | the six-state loop returns how often the parameter token occurs, for every text |
| SqlScanner.MarkRule | go/mariadb.go:845-911 | a question mark outside quotes and comments counts once, a character that starts nothing else not at all |
| SqlScanner.OperatorRule | go/mariadb.go:871-881 | a minus sign or slash that does not start a comment is an ordinary character |
| SqlScanner.QuoteRule | go/mariadb.go:882-898 | nothing between quotes of the three kinds counts, closed or not |
| SqlScanner.EscapeRule | go/mariadb.go:882-898 | a doubled mark does not close, nor one after a backslash, except in backticks |
| SqlScanner.LineRule | go/mariadb.go:869-902 | a number sign, or two minus signs and a blank, hide the rest of the line |
| SqlScanner.BlockRule | go/mariadb.go:876-907 | a block comment hides everything up to its first closer, or to the end |
| SqlText.IdentQuoted | go/connection.go:638-640 | a quoted name is one backtick token that decodes to the name, whatever follows it |
| SqlText.QuotedSpelled | go/connection.go:396-402 | a name stands between backticks with its own backticks doubled, and a dot stands between two names |
| SqlText.JoinedNames | go/connection.go:396-402 | scanning the joined form finds no parameter or comment, and its identifiers decode to the parts |
| SqlText.QuoteIdentifiersInjective | go/connection.go:396-402 | no two lists of names have the same quoted form |
| CreateTable.BuildCreateTable | go/connection.go:485-511 | the text is the keyword text, the quoted table name and the columns in parentheses, and it scans to exactly those tokens, unless the type mapping panics |
| CreateTable.HeadSpelled | go/connection.go:485-495 | the four forms of the keyword text |
| CreateTable.IntegerColumn | go/connection.go:536-550 | an integer column holds exactly the values of its Arrow type |
| CreateTable.TemporalColumn | go/connection.go:563-621 | a temporal column is declared with the digits of its unit, a timestamp by whether it has a time zone, and which 32- and 64-bit times panic |
| CreateTable.NullableColumn | go/connection.go:629-636 | no other type panics, and a column is NOT NULL exactly when its field is not nullable |
| CreateTable.NamedColumn | go/connection.go:532-562 | the remaining types by name |
| CreateTable.DecimalColumn | go/connection.go:622-623 | precision and scale in decimal digits, a negative scale with its sign |
| CreateTable.StatementMeaning | go/connection.go:485-511 | it holds no parameter and no comment, and its identifiers decode to the table name followed by the field names |
| CreateTable.ColumnTypeCalm | go/connection.go:529-636 | no column type disturbs the scan, negative decimal precisions included |
| CreateTable.DurationColumn | go/connection.go:612-621 | the TIME declaration for a duration unit leads back to that unit, except for nanoseconds |
| MetadataSql.BuildObjectsQuery | go/connection_getobjects.go:42-124 | for every request the text scans to one parameter per argument, and each argument stands right after its own clause; text and arguments are those of the conditions of each level, and a level the depth does not reach has AND 1=0 and no argument |
| QueryMeaning.SchemaMeaning | go/connection_getobjects.go:76-85 | the conditions written into the schema join mean what the join of the model asks |
| QueryMeaning.TableMeaning | go/connection_getobjects.go:87-105 | the same for the table join |
| QueryMeaning.ColumnMeaning | go/connection_getobjects.go:107-117 | the same for the column join |
| QueryMeaning.CatalogMeaning | go/connection_getobjects.go:119-122 | the same for WHERE |
| MetadataSql.BuildConstraintsQuery | go/connection_getobjects.go:253-287 | the same for the constraints query |
| QueryMeaning.ConstraintMeaning | go/connection_getobjects.go:272-286 | the conditions of the constraints query mean what its filters in the model ask |
| MetadataSql.BuildStatisticsQueries | go/connection_statistics.go:65-124 | the same for the two statistics queries, which share filter and arguments |
| MetadataSql.DraftList | go/connection_getobjects.go:455-460 | an IN list of n values holds n parameters, the i-th bound to the i-th value |
| Conditions.PlaceholdersAt | go/connection_getobjects.go:455-460 | n question marks with commas between them |
| TypeValues.ReadValue | go/connection.go:347-371 | the inner loop reads one quoted value under the scanner's single-quote rules |
| TypeValues.ParseTypeValues | go/connection.go:331-383 | the loops compute the parser's function, errors and their positions included |
| TypeValues.DeclarationParses | go/connection.go:331-383 | any legal escaping of each byte and any spacing of the commas is read back as the list of values, which may hold parentheses, commas, quotes and backslashes |
| TypeValues.DeclarationAccepted | go/connection.go:331-383 | a declaration is accepted exactly when it is written by that grammar |
| TypeValues.ValuesReadBack | go/connection.go:331-383 | any list of values, written with doubled quotes and backslashes and commas between them, is read back |
| TypeValues.BackslashReads | go/connection.go:349-358 | a backslash makes any character stand for itself |
| TypeValues.InvalidWhen | go/connection.go:332-336 | there is nothing to parse exactly when no opening parenthesis stands before a closing one |
| TypeValues.ErrorPosition | go/connection.go:337-381 | an error names the first character that cannot stand where it does: what comes before it is a proper listing |
| TypeValues.ListingParses | go/connection.go:337-381 | every proper listing between the parentheses parses to its values |
| TypeValues.ListingFound | go/connection.go:337-381 | whatever is accepted is a proper listing of the values returned |
| TimeCodec.DurationInserter.AppendValue | go/mariadb.go:451-472 | null and parsed texts add one slot, anything else is an error that adds nothing |
| TimeCodec.AssembleExact | go/mariadb.go:485-505 | on the fields of a duration below 839 hours every product, every partial sum and the negated total stay within 64 bits, and the sum is the magnitude cut to microseconds; from 839 hours on the text is refused |
| TimeCodec.DurationRoundTrip | go/mariadb.go:474-506 | for all 64-bit durations, formatting and parsing back truncates to microseconds exactly below 839 hours |
| TimeCodec.MinimumFlipsSign | go/mariadb.go:685-701 | the minimum count formats to a text that parses to the positive duration 9223372036085477000 |
| TimeCodec.ArrayRoundTrip | go/mariadb.go:685-701 | a value survives both conversions in its unit exactly when it denotes less than 839 hours, and whole microseconds if the unit is nanoseconds; neither the product nor its negation then leaves 64 bits |
| TimeCodec.ReadingStored | go/mariadb.go:451-506 | what a column of any unit stores for a well-formed text: clock seconds times the unit's count per second plus the fraction at the unit's digits, cut toward zero, with the sign on the whole |
| TimeCodec.CountWritten | go/mariadb.go:685-701 | what is written for a count below 839 hours: sign, hours, minutes, seconds and six digits of fraction of that count |
| Decimal.PaddedAt | go/mariadb.go:693-701 | every digit written is the character of its decimal digit, the most significant first |
| TimeCodec.ParseReading | go/mariadb.go:474-506 | every well-formed TIME text of up to six fractional digits parses to its exact signed value |
| TimeCodec.ExtraDigitsCut | go/mariadb.go:492-499 | whatever follows the sixth fractional digit is ignored |
| TimeCodec.PrecisionRoundTrip | go/mariadb.go:213-229 | the unit chosen for a declared precision, or for none, stores every text of that precision without loss, and formatting gives the text padded to six digits, a negative zero without its sign |
| TimeCodec.UnitChosen | go/mariadb.go:213-229 | the unit is the coarsest that counts the declared digits, microseconds where none or more than six are declared |
| TimeCodec.AcceptedText | go/mariadb.go:474-506 | every text is accepted exactly when its fields parse and respect their upper limits; an accepted text has all fields in range, nothing wrapped and the exact signed sum below 839 hours as its value, exactly when no field parses negative |
| TimeCodec.SignedFieldAccepted | go/mariadb.go:485-498 | a sign inside the minutes field is accepted and subtracts |
| TimeCodec.OutOfRangeAccepted | go/mariadb.go:485-498 | a signed hour field under a leading sign gives a duration of 839 hours and more |
| VectorCodec.RowBytesRoundTrip | go/mariadb.go:539-541 | decoding a row and encoding it again gives its bytes |
| VectorCodec.RowWordsRoundTrip | go/mariadb.go:675-680 | encoding float patterns and decoding them again gives the patterns |
| VectorCodec.DecodeAt | go/mariadb.go:539-541 | element i is in bytes 4i to 4i+3, the least significant first |
| VectorCodec.EncodeAt | go/mariadb.go:675-680 | and is written there |
| VectorCodec.AppendWords | go/mariadb.go:539-541 | the append loop adds the row's decoded elements to the child, each from its four bytes |
| VectorCodec.ConvertWords | go/mariadb.go:675-680 | the conversion loop writes the encoding of one row's elements |
| VectorCodec.VectorColumn.AppendValue | go/mariadb.go:521-543 | only nulls and values of the exact width add a row; the child always holds dimension times row-count entries, and a refused value changes nothing |
| VectorCodec.VectorColumn.Convert | go/mariadb.go:669-682 | over any sequence of appends every row converts back to the bytes appended, or null |
| Statistics.AppendTableStats | go/connection_statistics.go:96-108 | the fields present in a row, each as the measure named after it, in the order row count, data length, index length, average row length |
| Statistics.ReadTables | go/connection_statistics.go:78-110 | catalogs in the order the rows first name them are the keys of both maps, each holding its rows' statistics row by row |
| Statistics.ReadIndexes | go/connection_statistics.go:125-144 | distinct counts of known tables follow in row order: the result is complete exactly when no count has a key that matches a table although its own table was never seen; a write to a missing catalog happens exactly when such a row's catalog was never seen either |
| Statistics.GetStatistics | go/connection_statistics.go:55-152 | when the result is empty, when it panics and when it is complete; and what every reader's answer holds in terms of the rows: catalogs in first-seen order, each with the present fields of its table rows, row by row, then the distinct counts of the index rows with a known key, each with its column and value |
| Statistics.TableStatistics | go/connection_statistics.go:78-110 | a statistic without a column is in a catalog's list exactly when a row of that catalog and table has that value in the field of that name; it is marked approximate |
| Statistics.NoneStray | go/connection_statistics.go:137-143 | on NUL-free names every key match is the row's own table |
| Statistics.NulConfuses | go/connection_statistics.go:137-143 | with a NUL in a catalog name a row makes the loop panic, or is recorded for a table that was never seen |
| Statement.MariadbStatement.SetSqlQuery | go/mariadb.go:810-817 | an accepted query replaces the old one and clears the prepared mark; a refused one changes nothing |
| Statement.MariadbStatement.Prepare | go/mariadb.go:819-826 | the mark follows the latest prepare |
| Statement.MariadbStatement.GetParameterSchema | go/mariadb.go:831-841 | as many unnamed, nullable fields of null type as the query has parameter tokens, or an error when not prepared |
| Statement.SchemaOverRuns | go/mariadb.go:799-841 | over every run, a schema is returned exactly when the latest accepted query or prepare was a successful prepare, and it has one unnamed, nullable field of null type per parameter token of the last accepted query |
| Lifecycle.StepKeeps | go/pkg/driver.go:580-679 | every call keeps the invariant: live handles are exactly those in non-null private_data, each once and of the right kind, and every reader has one reference while a stream holds it and none otherwise |
| Lifecycle.ExportKeeps | go/pkg/driver.go:470-479 | a new reader ends with one reference in its own stream, or with none when the stream pointer was null |
| Lifecycle.ExportKeepsIff | go/pkg/driver.go:470-479 | exporting keeps the invariant exactly when the output is not a live stream |
| Lifecycle.Run | go/pkg/driver.go:281-342 | every state reached by a run of legal calls satisfies the invariant |
| Traces.RunMirrors | go/pkg/driver.go:580-679 | over every legal run, in terms of the calls and the statuses they were answered with: a struct is allocated exactly when it was successfully created and not released since; a database or connection is initialized exactly when, besides, an Init of it got past its checks and created the wrapped object, even if an option then failed; the driver is poisoned exactly when a call was answered with the internal status |
| Traces.EveryAnswer | go/pkg/driver.go:281-342 | over every legal run the status of each call, in the same terms: an unpoisoned call on an initialized object gives the base's status, an Init of an initialized one InvalidState, and so on for every call |
| Lifecycle.PoisonForever | go/pkg/driver.go:221-230 | after a recovered panic no database, connection or statement call succeeds or changes anything: the run ends where its stream calls alone would take it |
| Lifecycle.ReaderLives | go/pkg/driver.go:441-479 | until its stream is released an exported reader keeps exactly one reference, in that stream, whatever else is called |
| Lifecycle.ReaderGone | go/pkg/driver.go:441-457 | a reader without references never gets one again |
| Lifecycle.ReleasedForGood | go/pkg/driver.go:441-457 | releasing a stream takes its reader's last reference away for the rest of the run |
| Driver.Library.NewObject | go/pkg/driver.go:630-648 | DatabaseNew and ConnectionNew take the state machine's step and keep the invariant; a null struct poisons the driver |
| Driver.Library.DatabaseInit | go/pkg/driver.go:580-627 | the same for DatabaseInit: the wrapped object stays even if an option fails or panics |
| Driver.Library.ConnectionInit | go/pkg/driver.go:982-1020 | the same for ConnectionInit, which also needs an initialized database |
| Driver.Library.StatementNew | go/pkg/driver.go:1456-1484 | the same for StatementNew |
| Driver.Library.UseObject | go/pkg/driver.go:315-342 | the same for every call that goes straight to the wrapped object |
| Driver.Library.ExportRecordReader | go/pkg/driver.go:470-479 | retaining in the export and releasing on return leave one reference, with the stream |
| Driver.Library.ExportCall | go/pkg/driver.go:1571-1607 | every call that returns a stream takes the state machine's step |
| Driver.Library.ReleaseObject | go/pkg/driver.go:651-679 | the three release calls drop the handle before closing, even if closing fails or panics; only the database one ignores a close error |
| Driver.Library.StreamCall | go/pkg/driver.go:400-438 | stream calls depend on the stream alone, not on the poison flag |
| Driver.Library.StreamRelease | go/pkg/driver.go:441-457 | the handle and the reader's one reference go; releasing again does nothing |
| Options.HandOverMeaning | go/pkg/driver.go:606-622 | for every iteration order the keys handed over are those visited before the first refused one, with their buffered values; all of them if none is refused |
| Options.InitHandsOver | go/pkg/driver.go:580-627 | Init succeeds exactly when no option is refused, which is exactly when the wrapped object holds the whole buffer; otherwise it holds what was given at creation or visited before the first refusal |
| Options.LastWinsMeaning | go/pkg/driver.go:682-772 | a key has a setting exactly when it was written, and it is the value of the latest write |
| Options.LastWriteWins | go/pkg/driver.go:682-772 | over every interleaving of sets and Inits, every iteration order and every refusal, after an Init that reported success each key holds its latest successful write, overwrites across option types included; before that the buffer does |
| Options.LastWriteWinsAfterInit | go/pkg/driver.go:580-627 | over every run whose Init created the object, whether or not it then failed: last write wins exactly when every key buffered before was given at creation, visited before the first refusal, or set again afterwards; and which settings there are otherwise |
| Options.FailedInitLosesOptions | go/pkg/driver.go:606-622 | a run in which a successful set is lost because Init failed and could not be repeated |
| Options.SetAnswered | go/pkg/driver.go:682-979 | over every run: before the wrapped object is created a database buffers any option and a connection only text; afterwards the wrapped object decides; a refused set changes nothing |
| Options.InitAnswered | go/pkg/driver.go:580-1020 | over every run: what an Init is answered and which options the wrapped object then has, by kind, visiting order and refusals |
| Options.TextOptions | go/pkg/driver.go:595-600 | the first loop collects exactly the text options |
| Options.DatabaseObject.SetOption | go/pkg/driver.go:682-772 | buffers before Init, asks the wrapped object after |
| Options.DatabaseObject.Init | go/pkg/driver.go:580-627 | both loops, stopping at the first refusal, take the specified step |
| Options.ConnectionObject.SetOption | go/pkg/driver.go:904-979 | only text can be set before Init |
| Options.ConnectionObject.Init | go/pkg/driver.go:982-1020 | applies the buffer in some order and drops it once all of it was accepted |
| CErrors.Memory.Free | go/pkg/utils.c:37-41 | free is called only on NULL or on memory still allocated |
| CErrors.Prefixed | go/pkg/driver.go:101-109 | every message starts with "[mariadb] ", added only if missing |
| CErrors.AdbcError.SetErr | go/pkg/driver.go:92-112 | the previous error is released and one message is owned |
| CErrors.AdbcError.ReleaseErrWithDetails | go/pkg/utils.c:43-64 | frees exactly what the struct owns, each allocation once, and only if details are attached |
| CErrors.AdbcError.ReleaseError | go/pkg/utils.h:94-99 | gives back exactly what the struct owns; later calls do nothing |
| CErrors.AdbcError.SetErrWithDetails | go/pkg/driver.go:136-203 | which path is taken, by the vendor codes and the details; what C then reads of the error; what the struct owns, and that everything else in memory is as before |
| CErrors.AdbcError.ErrToAdbcErr | go/pkg/driver.go:205-218 | the struct always ends up with an error that says what the failure was, with details exactly when the caller asked for them; what it held before is given back except when details are attached over it |
| CErrors.LeakedError | go/pkg/driver.go:136-203 | an error with details set over a held error and then released leaves memory that was not there before |
| CErrors.AdbcError.SetThenRelease | go/pkg/driver.go:136-203 | from a released struct, setting any error with any details and releasing it restores memory exactly; otherwise the previous error leaks exactly when details are attached |
| CErrors.DetailReadsBack | go/pkg/utils.c:66-91 | detail i reads back as stored: its key whole exactly if free of NUL, its bytes or the text of what went wrong with them at full length; other indices give nulls, and the message is the error's own |
| CErrors.ArrayStream.MaybeError | go/pkg/driver.go:353-397 | the stream is responsible for one error struct at most, before and after, and it says what the failure was; the status is that of the error and the errno the one that stands for it |
| CErrors.ErrnoOf | go/pkg/driver.go:363-394 | which statuses each errno stands for; no status of a failed read becomes the errno of success |
| CErrors.ArrayStream.Release | go/pkg/driver.go:441-457 | error and struct are given back; releasing again does nothing |
| CErrors.RunStream | go/pkg/driver.go:353-457 | over any run of stream calls, finished or not, memory beyond one error struct and what it owns is as before, and so is all of it once the stream is released; the status is that of the latest failed read |

## Left out

- ConstraintQuery.GetObjects: assumes NUL-free catalog names for the constraints, that a constraint lies in its table's schema, and that the columns of a constraint with a name of its own have different ordinals; a scan, query or connection error is I/O.
- ObjectTree.Regroup: a column is its name, ordinal and data type; `buildColumnInfo` and the clamps copy further values.
- VectorCodec.VectorColumn.AppendValue: assumes the list builder pads its child on a null row; a float is its bit pattern, NaN payloads included, and the int32 cast of the dimension is not modelled.
- VectorCodec.VectorColumn.Convert: assumes an array that is not sliced.
- Lifecycle.Run: assumes callers that do not copy live structs and do not pass a live stream as output (`ExportKeepsIff` shows why); the release member of a released stream, which stays set, and panics inside stream calls, which nothing recovers, are not modelled.
- Options.LastWriteWins: takes the wrapped object as independent per-key settings, starting empty.
- CErrors.AdbcError.SetErrWithDetails: the conversions of the vendor code and the detail count to C int, and running out of memory, are not modelled; malloc(0) may return NULL or memory.
- TimeCodec.DurationInserter.AppendValue: field texts are ASCII, as `strconv.ParseInt` needs; the wording of errors is not modelled.
- What SQL the server then evaluates: executable comments, ANSI_QUOTES and NO_BACKSLASH_ESCAPES, which the scanner does not know either.
- URI and DSN handling, cancellation contexts, garbage collection, logging, Arrow export and partition packing: libraries and I/O.
- Error codes, isolation levels, the remaining column types, UUID, JSON, BIT, spatial and zero-date values: short tables and easy members.
- Concurrent calls from several threads: the poison flag is read once per call and calls are taken one after the other.
