# veldb, modelled and proved in Dafny

veldb is a small column database. Two halves of it are modelled here.

**Durability and replication.** A write changes the tables in memory and is then framed into a
write-ahead log (WAL): length, CRC-32, log sequence number (LSN), payload. A snapshot stores all tables
with an LSN and empties the log. Opening a directory loads the snapshot and replays the records with
newer LSNs. Row payloads carry no type tags; they are decoded with the schema that the replaying
database holds at that moment. A replica loads a snapshot from the primary and then pulls log suffixes,
trusting that LSNs are consecutive.

**The query engine.** Expressions are computed for whole selections of rows at once, with constants
broadcast. GROUP BY is compiled by rewriting the query onto an intermediate frame; keys are glued into
byte strings; ORDER BY with a small LIMIT selects before it sorts; LIKE has two matchers; timestamps are
taken apart by calendar arithmetic; vector distances are summed in blocks.

## How the model is laid out

| modules | content |
|---|---|
| `Bytes`, `Crc`, `Polynomials`, `Wrappers` | machine integers and little-endian bytes, CRC-32 and what it is as a remainder of polynomials, results |
| `Columns`, `Tables`, `Names`, `Reorder` | values, columns, string arenas, schemas, insertion; names and texts |
| `Codec`, `Storage`, `Snapshot`, `Formats` | the byte formats as functions, the round trips, and the bytes spelled out |
| `Streams`, `Records`, `WalFile`, `Database` | the writers, readers, files and the database as classes and loops, proved equal to those functions |
| `Engine`, `Recovery`, `Commands`, `Behind`, `Twins`, `Limits` | the machine with crash points, the recovery theorem, what commands do and what survives, and the cases in which the code does not meet it: numbering that falls behind the snapshot; runs in which memory and disk differ; batches and doubles |
| `Replication`, `Following`, `Renumbered` | the two-node machine, how a replica catches up, and the history in which numbering anew misleads a replica |
| `Plan`, `Arrays`, `Functions`, `Evaluation`, `Lengths`, `Refinement` | expressions and vectorised evaluation against the value at one row |
| `Laws`, `Moments`, `Orders`, `Filters` | what the operators, the functions of time and the order of values mean, and which rows a comparison keeps |
| `TopK`, `Keeping`, `Groups`, `Aggregates`, `GroupLaws`, `Totals`, `Rewriting`, `Grouping`, `Queries` | sorting, grouping, aggregation, rewriting, and SELECT from end to end |
| `Equalities`, `Agreement`, `Zeros` | the equality of expressions that a query is rewritten with, when it does what equality by bits would do, and a query for which it does not |
| `Served` | the tables that recovery rebuilds are frames that queries can be computed on |
| `Like`, `Calendar`, `Simd` | pattern matching, dates, block sums |

In memory the code works on objects that it changes in place. Where it does, the model has a class or a
method with loops, and its contract ties the new state to a function of the old one (`Database`,
`WalFile`, `Streams`, `Tables.TableCell`, the group loops). The theorems are about those functions.

What the model leaves open is a parameter, and every theorem holds for all of its values: how table names
are folded and how an integer becomes a double (`Columns.Env`); all operations on doubles, on case and on
text that a query uses (`Arrays.Ops`).

## Hypotheses

The code needs these and does not establish them. Each is stated in a `requires` or before an implication,
but for the one about DISTINCT. Where a hypothesis is about what the code does and not about sizes, the lemmas
named say when the code is right without it, and give an input on which it is not.

- The next LSN must lie above the snapshot's LSN after every open. src/storage.rs:180 restarts at 1 when
  the log is empty and src/db.rs:67-82 does not raise it. `Engine.Open` takes the numbering as a
  parameter: `AsWritten` is the code; `Raised` is max(last record, snapshot LSN) + 1, which the comment at
  src/storage.rs:221-222 intends and which is not the code. `Recovery.RecoveryIsExact` covers both, with
  the hypothesis for the first only. `Behind.DurableIffAhead` shows that the hypothesis is exactly what is
  needed, and `Behind.NextOpen` what becomes of any commands without it: `Behind.ForgottenDrop` loses one,
  and after the two of `Behind.UnopenableLog` the directory cannot be opened any more. A replica of such a
  primary is safe under the same hypothesis (`Replication.ReplicaSafety`), and without it can take a
  record of the new numbering for the next of the old (`Renumbered.SkippedRecord`).
- A batch must be accepted in full: src/table.rs:139-141 keeps the rows before a rejected one and nothing
  is logged (`Limits.RefusedBatch`, `Limits.HalfBatch`).
- Integers in DOUBLE columns are logged as integers and read back as doubles (src/codec.rs:98-106,
  src/codec.rs:258-262): `Limits.RereadIffSameBits`, `Limits.InsertedDoubles`, `Limits.OneIsNotOne`.
  `Twins.TwinsAreExact` does without both hypotheses and says what is in memory and what the next open
  finds, over any run; `Limits.RedoneIff` says which commands leave the two alike.
- The `_` matcher compares literally before it tests for the wildcard (src/like.rs:84), so a `%` in the
  text can be taken by the `%` of the pattern. `Like.GreedyExactIff` names the texts that are answered
  rightly for every pattern, `Like.MatchesExactIff` the patterns that are answered rightly for every text.
- Every source column of a grouped query must sit inside an aggregate or a key. src/exec.rs:975-981 checks
  the projection only, and only against the width of the frame: `Rewriting.AcceptedIff`,
  `Rewriting.StrayColumnReadsAnother`.
- A grouped query must be unambiguous. Its aggregates are collected, and its expressions replaced, by the
  derived equality of expressions (src/plan.rs:214, src/exec.rs:906), which compares the doubles of literals
  as numbers: 0.0 equals -0.0. `Agreement.RewrittenAlikeIff`: the rewriting is that by bits if and only if
  no two different aggregates, and no subexpression and an earlier pattern that is not its own, compare
  equal, and the aggregates and keys that occur compare equal to themselves. `Agreement.LiteralsSuffice`: it
  is enough that no two literals among keys and outputs compare equal with different bits, and each equals
  itself. `Zeros.ZerosMerged`: SELECT max(x / 0.0), max(x / -0.0) is answered with the quotient by 0.0
  twice. The minus is folded into the literal (src/sql.rs:475-477).
- Sort keys must have one value per row (src/exec.rs:874-882 does not broadcast):
  `Queries.SortKeysReadyIff`, `Queries.OrderByConstant`.
- The digits of round and the unit of date_trunc must be the same on all rows (src/exec.rs:579-582,
  src/exec.rs:621): `Functions.RoundRightIff`, `Functions.TruncRightIff`, `Functions.DayForHour`. The type
  rules ask for digits of one entry, and for a unit that can be computed without a table.
- An aggregate with DISTINCT must be a COUNT: src/exec.rs:1106-1115 looks at the flag before the function,
  so that SUM(DISTINCT x), and likewise AVG, MIN and MAX, gives the number of different values. This is in
  no `requires`: the value of an aggregate that `Queries.RunSelect` speaks of (`Aggregates.AggMeaning`) has
  the flag before the function too. `GroupLaws.DistinctRightIff` says for which aggregates that value is the
  one over the different values, and `GroupLaws.DistinctOverrides` gives the input.
- Row numbers, string arenas and log frames fit 32 bits; LSNs fit 64 bits; LIMIT + OFFSET does not
  overflow (both come from non-negative 64-bit integers).

## Model

| member | source | states |
|---|---|---|
| Crc.ComputeCrc32 | src/codec.rs:300-310 | the nested loops compute the register function of the sum bit by bit; `Polynomials.CrcIff` says which number that is |
| Polynomials.CrcIsRemainder | src/codec.rs:300-310 | the sum, bits turned round and inverted, is the remainder over two elements of the message followed by 32 zeros, all ones added to its first 32 bits, by x^32 + x^26 + x^23 + x^22 + x^16 + x^12 + x^11 + x^10 + x^8 + x^7 + x^5 + x^4 + x^2 + x + 1 (ISO 3309; section 8 of RFC 1952) |
| Polynomials.OneRemainder | src/codec.rs:300-310 | no two numbers are that remainder |
| Polynomials.CrcIff | src/codec.rs:300-310 | a number is the code's sum of the data if and only if it is that remainder |
| Crc.ShiftNLinear | src/codec.rs:300-310 | stepping the register is linear over exclusive or, for any number of steps |
| Crc.RegisterInjective | src/codec.rs:300-310 | equal final registers over the same data mean equal initial registers |
| Crc.BurstChangesCrc | src/codec.rs:300-310 | replacing up to four consecutive bytes by different ones changes the sum, whatever stands before and after |
| Crc.BurstAcrossSum | src/codec.rs:300-310 | a burst over the end of the data and the first bytes of the stored sum behind it is noticed too: the new sum differs from the old one where the burst does not reach |
| Columns.StrPush | src/column.rs:135-159 | while the arena fits 32 bits, a push keeps every stored string and reads back the new one |
| Columns.PushAppends | src/column.rs:252-283 | a value that passes the type test never fails to push, and the column then holds the old values and the new one, widened for DOUBLE |
| Tables.WithRowAllOrNothing | src/table.rs:104-133 | a row goes into all columns or, refused by the type check, into none: columns stay aligned |
| Tables.WithRowAppends | src/table.rs:104-133 | an accepted row becomes the last row and no other row changes |
| Tables.WithRowsAppends | src/table.rs:135-143 | a batch appends exactly its longest accepted prefix, and reports an error if that is not all |
| Tables.RefusedBatchUnchanged | src/table.rs:135-143 | a refused batch leaves the table as it was if and only if its first row is the refused one |
| Tables.TableCell.Insert | src/table.rs:104-133 | the loop over columns, in place, is the functional insertion |
| Tables.TableCell.InsertMany | src/table.rs:135-143 | the loop over rows, in place, is the functional batch |
| Tables.FromColumnsRestores | src/table.rs:153-187 | re-validation accepts the columns of every valid table and restores the table |
| Names.SameButForCase | src/table.rs:31-36 | names are the same if and only if they are, octet by octet, but for the case of ASCII letters |
| Names.FoundIff | src/table.rs:31-68 | in a valid schema a name finds a column if and only if that column has it, in any case; so every name stands for one column |
| Names.AcceptedIffPushed | src/column.rs:252-283 | the type test lets exactly those values through that the column can push |
| Names.TextIff | src/column.rs:174-182 | the octets taken for a text are exactly the encodings of sequences of Unicode scalar values (section 3 of RFC 3629) |
| Reorder.Pigeonhole | src/db.rs:405-435 | as many different slots as there are columns are all the columns |
| Reorder.EveryColumnNamed | src/db.rs:405-435 | a full list of different column names names every column, so no slot stays unset |
| Reorder.ToSchemaOrder | src/db.rs:405-435 | an explicit column list is accepted exactly when it is a permutation of the schema, and then each value lands in the column it was given for |
| Codec.HoldsSplit | src/codec.rs:150-160 | bytes written one after the other are read one after the other |
| Codec.SchemaBack | src/codec.rs:246-256 | a schema reads back from exactly its own bytes, whatever follows |
| Codec.ValueBack | src/codec.rs:258-272 | an untyped value reads back under its own type from exactly its own bytes |
| Codec.RowBack | src/codec.rs:258-272 | a row the schema accepts reads back under that schema, integers in DOUBLE columns reinterpreted |
| Codec.ColumnBack | src/codec.rs:274-296 | a valid column reads back from exactly its own bytes, whatever follows |
| Formats.OctetAt | src/codec.rs:40-62 | octet i of a written integer counts 256 to the power of i |
| Formats.ValueBytes | src/codec.rs:98-106 | the bytes of a value of each type |
| Formats.TypeBytes | src/codec.rs:76-87 | the tags of the five types |
| Formats.ColumnBytes | src/codec.rs:108-123 | the bytes of columns: counts, offsets before buffer, dimension before entries |
| Streams.Writer.Value | src/codec.rs:98-106 | the writer appends exactly the encoding of the value |
| Streams.Writer.Column | src/codec.rs:108-123 | the writer appends exactly the encoding of the column |
| Streams.Reader.Take | src/codec.rs:150-160 | the reader returns the next bytes and moves past them, or fails and stays |
| Streams.Reader.Column | src/codec.rs:274-296 | the reader's result, error and new position are those of the parser function, also on malformed data |
| Records.WriteRecord | src/storage.rs:52-85 | the writing loop produces the record encoding, and refuses unknown tables and rows of the wrong width |
| Records.ReadRecord | src/storage.rs:87-114 | the reading loop is the record parser on every input |
| Records.WriteSnapshot | src/storage.rs:236-254 | the writing loop produces the snapshot encoding with its sum |
| Records.ReadSnapshot | src/storage.rs:283-322 | the reading loop is the snapshot parser on every input, with the same errors |
| Storage.RecordBack | src/storage.rs:52-114 | a logged record decoded with the schemas it was encoded under is that record, up to integers in DOUBLE columns |
| Formats.RecordBytes | src/storage.rs:52-85 | the bytes of a CREATE, a DROP and an INSERT record |
| Formats.HeaderLayout | src/storage.rs:144-147 | the log begins with "VELDBWAL" and the version 1 in four octets |
| Formats.FrameLayout | src/storage.rs:196-213 | a frame is the length of the payload, the sum of all behind the sum, the LSN and the payload, each at its place |
| Storage.ScanFrames | src/storage.rs:159-177 | whole frames are found one after the other and the scan stops where none follows |
| Storage.TornLog | src/storage.rs:132-190 | a log cut anywhere behind its header opens with exactly the records whose frames fit before the cut, and is cut back to them |
| Storage.AppendAfterTear | src/storage.rs:132-213 | payloads appended to a torn and reopened log are found behind the survivors on the next open; their LSNs, and the next one, count on by one from the last survivor |
| Storage.DamagedLog | src/storage.rs:159-177 | up to four consecutive damaged bytes in a frame body: open returns exactly the records before that frame and cuts there |
| WalFile.ScanFile | src/storage.rs:132-190 | the scanning loop returns the records of the scan function and leaves the file it prescribes |
| WalFile.Wal.Append | src/storage.rs:196-213 | the file grows by one frame with the next LSN, which is returned and then advances |
| WalFile.Wal.RecordsAfter | src/storage.rs:216-219 | the file is read anew and filtered by LSN, as replication sees it |
| WalFile.Wal.Reset | src/storage.rs:223-230 | the log is emptied to its header in three writes and the numbering goes on |
| Snapshot.TableBack | src/storage.rs:236-322 | a table reads back from exactly its own bytes |
| Snapshot.SnapshotRoundTrip | src/storage.rs:236-322 | decoding an encoded snapshot gives the same tables in the same order and the same LSN |
| Formats.SnapshotIs | src/storage.rs:236-254 | the bytes of a snapshot of one table, in the order of its parts, with the sum of all before it |
| Snapshot.DamagedSnapshotRefused | src/storage.rs:283-322 | up to four consecutive damaged bytes anywhere in the file, in the signature, the body, the stored sum or across them, make a snapshot unreadable, never misread |
| Recovery.LoggedReplays | src/storage.rs:52-114 | a logged command, decoded with the schemas held at that moment, has the effect it had when executed, also after drop and re-create under another schema |
| Recovery.AppendStores | src/storage.rs:196-213 | a disk that stores a state and then one more frame stores the state after that command |
| Recovery.ExecuteStores | src/db.rs:245-312 | after every command memory and disk agree again, logged or not |
| Recovery.SnapStores | src/db.rs:148-162 | after a snapshot the disk alone stores the tables of the memory, whatever it stored before, and every later LSN is above the snapshot's |
| Recovery.CrashInExecute | src/storage.rs:196-213 | a crash inside the last append loses that command or keeps it, and nothing else |
| Recovery.CrashInSnap | src/storage.rs:256-276 | a crash before the rename, between rename and reset, or inside the reset without part of a header, loses nothing and replays nothing twice |
| Recovery.SnapCrashOpens | src/storage.rs:148-157 | after a crash anywhere in a snapshot open succeeds, with the same tables, if and only if no part of a header is left |
| Recovery.HeaderCrash | src/storage.rs:223-230 | such a part can be left: the reset writes the header in two steps |
| Recovery.RunExact | src/db.rs:60-104 | from any sound node, every run of commands, snapshots, crashes and restarts has the tables of a database that never stopped and executed each surviving command once |
| Recovery.RecoveryIsExact | src/db.rs:60-104 | the same from an empty directory: open rebuilds exactly the acknowledged state, plus at most the command in flight at each crash |
| Recovery.PartialHeaderRefused | src/storage.rs:151-153 | a log with part of its header is refused by open |
| Commands.CreateMakesEmpty | src/db.rs:245-259 | CREATE is acknowledged if and only if the schema is valid and the name free; then there is an empty table of that schema and every other table is as it was; a name that is taken is refused |
| Commands.DropTakesOne | src/db.rs:261-278 | DROP is acknowledged if and only if the table is there, and takes it alone away |
| Commands.InsertAppends | src/db.rs:289-312 | INSERT is acknowledged if and only if the table is there and takes every row; they then stand behind its rows, and no other table is touched |
| Commands.CommandsKeep | src/db.rs:245-312 | over any list of commands none of which drops a table, that table stays, with its schema and, before all others, the rows it had |
| Commands.RowsAreNeverLost | src/db.rs:60-104 | from an empty directory, through any run with crashes and restarts: a table that nobody drops any more is found by the next open with its schema and, before all others, the rows it had |
| Served.RecoveredFrames | src/table.rs:104-143 | over any run with crashes and restarts every table, in memory and after the next open, is a frame of clean columns of one length, as queries need it |
| Behind.EntriesLogged | src/storage.rs:196-213 | any admissible commands put one frame each into the log, if acknowledged, with consecutive LSNs, whatever the snapshot is |
| Behind.NextOpen | src/db.rs:67-90 | what the next open makes of any admissible commands: records numbered at or below the snapshot are skipped, the others are replayed on the tables before the commands, and open ends as that replay ends |
| Behind.DurableIffAhead | src/storage.rs:178-182 | the next LSN lies above the snapshot's if and only if the next open sees the outcome of every admissible sequence of commands |
| Behind.RestartAfterSnapshot | src/db.rs:67-82 | restarting on an empty log behind a snapshot: of the commands then acknowledged, the first ones, as many as the snapshot's LSN, are skipped at the next open, and the others replayed without them |
| Behind.ForgottenDrop | src/db.rs:60-104 | create, snapshot, restart, drop, restart: the dropped table is back |
| Behind.UnopenableLog | src/db.rs:60-104 | create, snapshot, restart, create another table, insert into it: both are acknowledged, and the next open fails on the insertion |
| Twins.TwinsTake | src/db.rs:245-312 | a command that fits its sizes is acknowledged by memory and disk alike or by neither, and its record, decoded with the schemas on disk, does there what it was read back as |
| Twins.ExecuteTwins | src/db.rs:245-312 | the disk then stores its old tables with the command redone, while the memory may hold more |
| Twins.SnapTwins | src/db.rs:148-162 | a snapshot makes the disk store what is in memory, rows of refused batches and doubles included |
| Twins.CrashTwinsInSnap | src/storage.rs:256-276 | a crash in the course of such a snapshot leaves the old tables of the disk or those of the memory, nothing between |
| Twins.TwinsAreExact | src/db.rs:60-104 | from an empty directory, through any run of sized commands with half batches, integers in DOUBLE columns, snapshots, crashes and restarts: the memory holds what every command did, and the next open finds the last snapshot with the acknowledged commands behind it redone as they are read back |
| Limits.RedoneIff | src/db.rs:289-312 | a command leaves memory and disk alike if and only if it is no batch refused behind its first row and none accepted with an integer whose bits a DOUBLE column changes |
| Limits.RefusedBatch | src/db.rs:289-312 | after a refused batch the next open gives the tables from before it, which is what is in memory if and only if the first row was refused |
| Limits.HalfBatch | src/table.rs:135-143 | from an empty directory: a batch of one good and one bad row leaves a row in memory that the next open does not have |
| Limits.RereadIffSameBits | src/codec.rs:258-262 | replayed rows rebuild the same table if and only if every integer in a DOUBLE column has the bits of the double it became |
| Limits.InsertedDoubles | src/db.rs:289-312 | the next open sees an acknowledged insertion with its integers reinterpreted, which is what is in memory if and only if the bits agree |
| Limits.OneIsNotOne | src/codec.rs:98-106 | from an empty directory: the integer 1 inserted into DOUBLE is 1.0 in memory and 5e-324 after the next open |
| Database.Database.Apply | src/db.rs:198-214 | applying a record changes the catalogue as the specification of replay says, or reports its error |
| Database.Database.Log | src/db.rs:216-223 | the record of a change is encoded with the current schemas and appended |
| Database.Database.Create | src/db.rs:245-259 | tables, next LSN, files and the writes in order are those of the machine's step, and the client is told the error if and only if it is refused (`Commands.CreateMakesEmpty` says when) |
| Database.Database.Drop | src/db.rs:261-270 | the same for drop, which logs nothing when there was no table |
| Database.Database.InsertAll | src/db.rs:289-312 | the same for insertion, including the unlogged rows of a refused batch, and its error |
| Database.Database.InsertRows | src/db.rs:289-312 | a replica refuses and nothing changes; otherwise the machine's step |
| Database.Database.Snapshot | src/db.rs:148-162 | the machine's snapshot step, with all tables, and its LSN |
| Database.Database.SnapshotBytes | src/db.rs:167-174 | the encoding of all tables with the last LSN; nothing changes |
| Database.Database.LoadSnapshotBytes | src/db.rs:177-185 | the catalogue is replaced by the decoded tables, or kept when they do not decode |
| Database.Database.ReplayAll | src/db.rs:77-90 | the replay loop skips what the snapshot covers and applies the rest in order |
| Database.Database.Recover | src/db.rs:60-104 | the opened database is the node that the specification of open describes |
| Database.Database.WalSince | src/db.rs:188-193 | the log suffix that the primary serves |
| Database.ListsEnumerates | src/db.rs:148-162 | whatever order the catalogue yields its tables in, a snapshot lists each once |
| Database.PullOnce | src/replication.rs:27-58 | the loop stops at the first LSN that is not the next one, before applying that record |
| Database.Turn | src/replication.rs:62-95 | one turn of the follow loop, bootstrap and pull, leaves the replica that the specification of a turn describes (`Following.CatchesUpIff` says what turns come to) |
| Database.TurnedIsMoves | src/replication.rs:62-95 | a turn is a sequence of moves of the two-node machine: nothing, a bootstrap, a pull, or one after the other |
| Replication.PullContinues | src/replication.rs:27-58 | records that continue the replica's place are all applied and take it that many commands on |
| Replication.PullAcrossGap | src/replication.rs:27-58 | records behind a truncation are rejected before any of them is applied |
| Replication.PullOutcome | src/replication.rs:27-58 | a pull catches up in full, or finds nothing in a truncated and still empty log, or is rejected with the tables as they were; which one depends on where the log begins |
| Replication.CrashInExecuteKeeps | src/storage.rs:178-182 | a primary that crashes in the course of a command and is opened again goes on with its history where its log ends, with the command in flight or without it |
| Replication.CrashInSnapKeeps | src/storage.rs:256-276 | the same for a crash in the course of a snapshot, also when the log was not truncated yet |
| Replication.MoveKeepsInv | src/replication.rs:62-95 | writes, snapshots, truncations, crashes and restarts of either node, answers, losses and pulls all keep the invariant that the log is a segment of the history and the replica a prefix |
| Replication.ReplicaSafety | src/replication.rs:18-95 | in every reachable state, whatever tables the replica was started with: once it has loaded a snapshot, its tables are those of replaying a prefix of the primary's history, the first `applied` commands when it knows its place, and a log answer is applied in full or not at all |
| Following.BootsUp | src/replication.rs:18-25 | a replica without a place has, after one turn, the primary's tables and its place, whatever it held |
| Following.CatchesUpIff | src/replication.rs:62-95 | two turns with a primary that stands still: the replica has the primary's tables and the last place if and only if the log reaches back to its place or anything is in the log; otherwise it stays as it is |
| Following.ForgetsIff | src/replication.rs:87-91 | a turn forgets the place if and only if the log served to it begins behind that place |
| Renumbered.SkippedRecord | src/storage.rs:178-182 | create, snapshot, bootstrap, restart of the primary, create, create: the replica accepts record 2 of the new numbering without record 1, and its tables are those of no prefix of the history |
| Like.LikeIsPartition | src/like.rs:1-16 | the recursive relation is the definition by partition of the text (section 8.5 of ISO/IEC 9075-2, without ESCAPE) |
| Like.GreedyIsLike | src/like.rs:80-100 | the single-backtrack matcher never accepts wrongly, and on texts without `%` accepts exactly what LIKE accepts |
| Like.GreedyExactIff | src/like.rs:80-100 | the texts answered rightly for every pattern are exactly those without `%` |
| Like.GreedyPatternIff | src/like.rs:80-100 | the patterns answered rightly for every text are exactly those without `%`: on the pattern's own text with one more character behind its last `%` it fails |
| Like.MatchChars | src/like.rs:80-100 | the loop is that matcher and ends within (text length + 1) * (pattern length + 1) turns |
| Like.ChunksAreLike | src/like.rs:18-32 | pieces in order with the two anchors accept exactly what LIKE accepts, for every pattern without `_` |
| Like.MatchChunks | src/like.rs:34-75 | leftmost greedy search decides whether the pieces occur in order with their anchors |
| Like.MatchesExactIff | src/like.rs:18-100 | a compiled pattern is answered rightly for every text if and only if it lacks `_` or lacks `%` |
| Like.Matches | src/like.rs:34-75 | matching is LIKE for every pattern without `_` or without `%` and for every text without `%`; a "yes" is always right |
| Like.MatchersAgree | src/like.rs:18-100 | the two matchers agree on patterns without `_` and texts without `%` |
| Calendar.CivilFollowsCalendar | src/exec.rs:693-704 | every day number gives a valid Gregorian date, day 0 is 1970-01-01, and the next number gives the calendar's next day |
| Calendar.CivilInverts | src/exec.rs:693-704 | day numbers and dates correspond one to one, both ways |
| Calendar.PartsRecompose | src/exec.rs:675-690 | the extracted parts name the date and the time of day of the timestamp, also before 1970 |
| Calendar.TruncatedParts | src/exec.rs:621-632 | date_trunc goes down to the start of its unit: larger parts stay, smaller become zero, also before 1970 |
| Moments.ExtractRecomposes | src/exec.rs:610-690 | EXTRACT of year, month, day, hour and minute of an expression: a date of the calendar and a time of day within a minute of its value |
| Moments.TruncMeans | src/exec.rs:616-633 | date_trunc to 'day', 'hour' and 'minute' is midnight of that date, plus the hour, plus the minute, that EXTRACT gives; to 'second' it is the moment |
| Simd.BlockedSum | src/simd.rs:90-141 | four accumulators of four lanes and a scalar tail give the plain sum for every length |
| Simd.DotNeon | src/simd.rs:90-113 | the blocked dot product is the scalar one |
| Simd.L2SqNeon | src/simd.rs:118-141 | the blocked squared distance is the scalar one |
| Simd.SquareOfDifference | src/simd.rs:78-80 | the squared distance is a.a - 2 a.b + b.b |
| Simd.DotWithUnit | src/simd.rs:74-76 | the dot product with a unit vector is the entry at its place |
| Simd.CauchySchwarz | src/simd.rs:43-57 | the square of a dot product is at most the product of the squared norms |
| Simd.CosineDistance | src/simd.rs:43-57 | the distance lies between 0 and 2 and is 1 when a vector is zero |
| Arrays.BinaryIsExact | src/exec.rs:180-303 | a binary operation on arrays of matching types succeeds and holds at every row the operation on that row's values, constants broadcast (what that operation is: the rows of `Laws`) |
| Laws.IntsRelate | src/exec.rs:243-253 | each comparison operator over integers is the relation of that name |
| Laws.TextsRelate | src/exec.rs:225-239 | over texts likewise, where smaller is a proper prefix or the smaller first different octet |
| Laws.NumbersRelate | src/exec.rs:275-291 | over other numbers likewise, for the reals that doubles stand for; what is not a number is only different |
| Laws.OneOfThree | src/exec.rs:305-316 | of any two comparable values exactly one of <, = and > holds, the other operators say what their names say, and < is > the other way round |
| Laws.LogicMeans | src/exec.rs:203-219 | AND, OR and NOT |
| Laws.IntegersComputed | src/exec.rs:253-272 | sums, differences, products and negatives of integers are the 64-bit integers nearest to the exact results |
| Laws.RemainderMeans | src/exec.rs:262-268 | the remainder completes a multiple of the divisor, is smaller than it and has the dividend's sign; by zero it is zero |
| Laws.AbsoluteMeans | src/exec.rs:559-564 | the absolute value is the 64-bit integer nearest to it |
| Laws.DoublesComputed | src/exec.rs:289-302 | other arithmetic is that of doubles, operands in order |
| Laws.InListMeans | src/exec.rs:376-390 | IN asks for some literal that is equal |
| Laws.BetweenMeans | src/exec.rs:391-407 | BETWEEN is at least the one bound and at most the other |
| Laws.NegationMeans | src/exec.rs:347-407 | NOT IN, NOT BETWEEN and NOT LIKE are the negations, and LIKE is that of its pattern |
| Laws.IfMeans | src/exec.rs:639-670 | IF gives the second argument when the first is true, else the third |
| Laws.CoalesceMeans | src/exec.rs:634-638 | COALESCE is its first argument: there is no NULL |
| Laws.CallsMean | src/exec.rs:533-609 | the functions on texts and doubles get their arguments in order |
| Laws.CastMeans | src/exec.rs:487-517 | a cast to the value's type, or to another numeric type and back, gives the value where doubles hold it |
| Filters.ComparisonKeeps | src/exec.rs:729-753 | WHERE x op y over integers or texts: of the selected rows exactly those are kept, once and in order, whose values are in the relation of that name |
| Functions.FuncIsExact | src/exec.rs:519-671 | the same for every scalar function |
| Functions.RoundTakesFirstDigits | src/exec.rs:577-585 | with digits that vary, every row is rounded to the digits of the first row |
| Functions.RoundRightIff | src/exec.rs:577-585 | rounding is right on all rows, whatever rounding is, if and only if all rows ask for the same digits |
| Functions.TruncRightIff | src/exec.rs:616-633 | date_trunc is right on all rows, for all moments, if and only if all rows ask for the same unit |
| Functions.DayForHour | src/exec.rs:621 | of two rows that ask for a day and an hour, both are truncated to the day |
| Evaluation.GatherExact | src/exec.rs:435-461 | a gathered column holds the selected rows' values, over a whole table or chosen rows |
| Evaluation.CastExact | src/exec.rs:487-517 | a cast holds at every row the cast of that row's value |
| Evaluation.InListMask | src/exec.rs:376-390 | the mask, set literal by literal in place, is the specified one |
| Evaluation.MaskExact | src/exec.rs:376-390 | the mask is set exactly at the rows whose value equals some literal |
| Refinement.BetweenExact | src/exec.rs:391-407 | BETWEEN is the conjunction of both comparisons at every row, negated if asked |
| Refinement.EvalExact | src/exec.rs:318-433 | every expression with a type evaluates, over every selection including the empty one, to a constant or one entry per row, and to the expression's value at each selected row |
| Lengths.EvalLen | src/exec.rs:425-432 | whether the result has one entry or one per row is decided by the expression alone |
| TopK.StrictTotalOrder | src/exec.rs:845-882 | the comparator over several ascending and descending keys with the tie-break by position is a strict total order (doubles by totalOrder, section 5.10 of IEEE 754-2008) |
| TopK.PrecedesMeans | src/exec.rs:845-882 | a row comes before another if and only if, at the first key on which they differ, it has the smaller value and the key is ascending, or the larger and it is descending, or they tie on all keys and it stood before; smaller is < for integers, false before true, sign and magnitude for doubles, prefix or first different octet for texts |
| TopK.SortArranges | src/exec.rs:857-871 | the full sort arranges every position once in that order |
| TopK.WindowCuts | src/exec.rs:859-871 | the window has min(limit, n - offset) entries, or none, and entry i is entry offset + i |
| TopK.OneOrder | src/exec.rs:860-868 | a set of positions has only one ordered arrangement, so an unstable sort has one outcome |
| TopK.TopIsPrefix | src/exec.rs:860-868 | select-nth, truncate and sort gives the beginning of the full sort, whatever arrangement the selection left |
| TopK.WindowOfTop | src/exec.rs:859-871 | the window of LIMIT and OFFSET depends on the first offset + limit entries only |
| TopK.Compare | src/exec.rs:845-855 | the comparison loop decides exactly that order (`TopK.PrecedesMeans` says which it is) |
| TopK.TopPositions | src/exec.rs:857-871 | for every limit and offset either path returns the window of the full sort |
| TopK.OrderAndLimit | src/exec.rs:822-872 | the selected rows, sorted by the values of their keys in that sense, cut by OFFSET and LIMIT; without keys, of insertion order |
| Queries.SortKeysReadyIff | src/exec.rs:840-882 | the comparator finds an entry for every position if and only if every sort key varies by row or there is at most one row |
| Queries.OrderByConstant | src/exec.rs:874-882 | a constant as sort key, as SELECT 1 FROM t ORDER BY 1 gives one, over two rows: the key has one entry where the comparison reads two |
| Groups.KeyBytesInjective | src/exec.rs:1009-1024 | the glued key bytes of two rows are equal if and only if all their keys are equal |
| Groups.GroupingExact | src/exec.rs:1001-1039 | rows share a number if and only if their keys are equal; numbers are dense; every group has a row |
| Groups.FirstAppearance | src/exec.rs:1027-1037 | numbers are given in order of first appearance |
| Groups.AssignGroups | src/exec.rs:1001-1039 | the loop over byte strings and a hash map numbers rows by the values of their keys; one group without keys; a vector key is refused unless there are no rows |
| Grouping.PickFirstPerGroup | src/exec.rs:1043-1061 | the loop takes for every group the entry of its first row |
| Aggregates.Accumulate | src/exec.rs:1106-1229 | one pass with one accumulator per group is the fold over each group's own rows in order |
| Aggregates.CountRows | src/exec.rs:1096-1102 | the counting loop gives the size of every group |
| Aggregates.FoldAgg | src/exec.rs:1117-1229 | each aggregate loop gives per group the fold over its values; refused exactly for types it has no meaning for |
| Aggregates.CountDistinct | src/exec.rs:1106-1115 | the number of different keys among each group's values |
| Aggregates.RunAgg | src/exec.rs:1078-1230 | the column of an aggregate holds for every group the aggregate of the argument's row values over the group's rows |
| GroupLaws.WeightConserved | src/exec.rs:1096-1142 | any weight of the rows summed group by group is its sum over the selection: no row is lost or counted twice |
| GroupLaws.CountsAddUp | src/exec.rs:1096-1102 | group counts add up to the size of the selection |
| GroupLaws.SumExactIff | src/exec.rs:1126-1133 | all partial sums are exact if and only if none leaves 64 bits |
| GroupLaws.SumsAddUp | src/exec.rs:1126-1133 | when nothing saturates, group sums add up to the sum over the selection |
| GroupLaws.ExtremeOfInts | src/exec.rs:1186-1205 | MIN and MAX over integers return a value of the group that bounds all the others |
| GroupLaws.ExtremeOfTexts | src/exec.rs:1164-1185 | the same over strings in byte order |
| Totals.IntExtremes | src/exec.rs:1186-1205 | over integers MIN is a value of the group below all others and MAX one above all others |
| Totals.TextExtremes | src/exec.rs:1164-1185 | over texts likewise |
| Totals.DoubleExtremes | src/exec.rs:1206-1226 | over doubles likewise, in any total order of which the code's minimum and maximum are the bounds |
| Totals.SumMeans | src/exec.rs:1125-1142 | SUM is the exact sum, over integers when no partial sum leaves 64 bits, over whole doubles when none leaves the integers that doubles hold |
| Totals.MeanMeans | src/exec.rs:1143-1160 | AVG times the number of values is their sum, over whole doubles |
| Totals.CountMeans | src/exec.rs:1118-1229 | COUNT is the number of values; without values the other aggregates are the zero of their type |
| GroupLaws.DistinctExactIff | src/exec.rs:1063-1076 | COUNT DISTINCT is the number of different values if and only if no two of them share a 64-bit key |
| GroupLaws.NumbersApart | src/exec.rs:1063-1076 | integers, doubles by their bits, and booleans never share a key |
| GroupLaws.DistinctOverrides | src/exec.rs:1106-1115 | over one row SUM(DISTINCT x), like every other function, is 1 |
| GroupLaws.DistinctRightIff | src/exec.rs:1106-1115 | an aggregate is that of the different values, for all values whose keys tell them apart, if and only if it is not DISTINCT or its function is COUNT |
| Equalities.SameMeans | src/plan.rs:111-157 | among expressions whose literals are each equal to themselves and to no literal with other bits, equal expressions are the same |
| Rewriting.ReplacedBy | src/plan.rs:212-217 | compared by bits, an aggregate becomes its column, another key its own column, and nothing else is replaced: aggregates win |
| Rewriting.RewriteKeepsMeaning | src/plan.rs:206-269 | the expression rewritten by bits, on a row of the intermediate frame, has the value of the original with keys taken at a row of the group and aggregates over the group |
| Agreement.SubstituteIff | src/plan.rs:206-269 | an expression is rewritten as by bits if and only if every subexpression that the rewriting comes to equals itself, if it is a pattern, and equals no other pattern before that |
| Agreement.CollectedIff | src/exec.rs:901-918 | the same aggregates are collected as by bits if and only if no two different ones compare equal and each that recurs equals itself |
| Agreement.RewrittenAlikeIff | src/exec.rs:901-970 | a query is rewritten as by bits if and only if it is unambiguous in these two ways |
| Agreement.LiteralsSuffice | src/plan.rs:212-217 | a query whose literals are told apart is unambiguous |
| Zeros.ZerosMerged | src/exec.rs:901-918 | SELECT max(x / 0.0), max(x / -0.0): one aggregate is collected for the two, and over one row every answer the rewritten query can give is the quotient by 0.0 twice, where the quotients by 0.0 and by -0.0 are asked for |
| Rewriting.AcceptedIff | src/exec.rs:972-986 | the projection passes the check if and only if the source columns left in place have numbers below the width of the frame |
| Rewriting.BelowIff | src/exec.rs:972-986 | the check looks at every column reference in the expression, however deep |
| Rewriting.WellGroupedAccepted | src/exec.rs:972-986 | rewritten by bits, an expression with all source columns inside aggregates or keys meets that condition |
| Queries.WellGroupedPasses | src/exec.rs:972-986 | an unambiguous query with all source columns inside aggregates or keys is never rejected by the check |
| Rewriting.StrayColumnReadsAnother | src/exec.rs:973-986 | a stray column below the width is accepted and reads a column that has nothing to do with it |
| Grouping.Collect | src/exec.rs:901-918 | the walk collects every outermost aggregate unless one that compares equal is there, in order of first appearance |
| Grouping.AggregateIff | src/plan.rs:299-303 | a query is computed over groups if and only if it has keys, or an aggregate in the projection or the order |
| Grouping.KeyConstant | src/exec.rs:1041-1061 | inside a group a key has one value, so the first row stands for all |
| Grouping.BuiltSummarises | src/exec.rs:920-953 | key columns and aggregate columns side by side hold for every group its keys and its aggregates |
| Grouping.Aggregate | src/exec.rs:892-996 | aggregation succeeds if and only if all aggregates have types and the check passes, and then the frame summarises every group and the query is rewritten onto it |
| Queries.Restrict | src/exec.rs:729-799 | WHERE and HAVING keep exactly the rows at which the condition is true, once and in order, constants included, and refuse a condition that is no boolean |
| Queries.Project | src/exec.rs:803-819 | the result's rows, put together from columns, are the projected values of the selected rows |
| Queries.Finish | src/exec.rs:778-820 | filter, order, cut and projection of a frame give its row-by-row answer |
| Queries.AnswerSame | src/exec.rs:778-820 | queries that agree on every item about passing, sort keys and output have one answer |
| Queries.AnswerInOrder | src/exec.rs:778-820 | an answer shows its items sorted by the values of their keys, and cut by OFFSET and LIMIT |
| Queries.GroupedQueryExact | src/exec.rs:892-996 | the answer of a well-grouped and unambiguous query, rewritten with the code's equality, on the intermediate frame is the answer about the groups of source rows |
| Queries.RunSelect | src/exec.rs:723-820 | a plain query is the projection of the window of the sort of the rows that pass WHERE; a grouped one is that of the rewritten query on a frame of the groups, and, well grouped and unambiguous, the same over groups, with keys at any row of a group and aggregates over all its rows; columns bear the query's names and the types of their expressions; in each case the rows come sorted by the values of their keys, as `TopK.PrecedesMeans` has it, and OFFSET and LIMIT count from there |

## Left out

- SQL text, name binding and the JSON, HTTP, gRPC and command-line layers: the model starts from the
  `Select` and `Expr` values of src/plan.rs and from method calls on the database.
- Rounding of floating point: doubles are bit patterns with open operations; `Simd` is over exact reals.
  The casts and the mean are modelled through these open operations.
- ILIKE, lower and upper: Unicode case mapping is not modelled. LIKE works on characters in `Like`;
  evaluation takes the matcher as a parameter.
- Thread interleavings: every client call is one step. insert_rows releases the table lock before it logs
  (src/db.rs:306-310), so a snapshot can fall between the two, and the recovery theorem does not reach
  that. Parallel paths are modelled serially.
- A crash that leaves part of the log's header: open refuses such a file (`Recovery.PartialHeaderRefused`);
  the runs of `Recovery.RecoveryIsExact` exclude it.
- The cut of a torn tail during open is one step: the crash points are those of the writes of commands and
  snapshots.
- Columns and string arenas are values inside `Tables.TableCell`, which is updated as a whole: aliasing and
  buffer growth are not modelled.
- The sort and the selection of the standard library: `TopK.SortBy` and `TopK.SelectNth` are one way to
  meet their contracts, and the callers rely on the contracts alone.
- Allocation failure, multiplication overflow in the readers' size checks (`n * 8` in src/codec.rs), the
  memory limit, fsync versus buffered writes.
- Quiet convergence: after a truncation with no later write a pull returns nothing, so the replica stays at
  a correct but old prefix; `Replication.PullOutcome` says when. The restarts of the two-node machine are
  those of a primary whose commands memory and disk take alike; half batches and integers in DOUBLE columns
  are covered for one node (`Twins`).
- Queries.RunSelect: stated for queries whose expressions have types and whose sort keys vary by row; for
  others `Evaluation.Eval` models the refusal, but which ill-typed queries it refuses is not stated.
- GroupLaws.DistinctExactIff: the hash of strings is open, so for strings the condition is on the hash.
- Calendar.TruncatedParts: within one unit of the smallest 64-bit integer the code overflows; the model is
  over unbounded integers there, and `Functions` saturates.
- Agreement.RewrittenAlikeIff: for an equality that is symmetric, as that of numbers is; the other lemmas
  about equality, and the theorems about queries, do not need it.
- Functions.TruncRightIff: stated for at least one row. Without rows the code reads the first entry of an
  empty array of units and stops; the model gives an error there.
- A grouped query over a vector key is refused; one over a vector key and no rows is not covered.
- Moments.TruncMeans: from one day above the smallest 64-bit integer on.
- Totals.SumMeans, Totals.MeanMeans: the sum and the mean of doubles that are no integers depend on rounding,
  which is not modelled.
- Laws.CallsMean: what the length, the parts and the rounding are is left to the open operations.
- norm, normalize and the column statistics of src/simd.rs, the JSON forms of values, and rendering are not
  modelled.
