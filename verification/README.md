# The kernels of the control plane, modelled and proved

The repository is a control plane for containers, databases and the private
network between nodes. Most of it is HTTP, SQL and calls to containerd. This
project models the parts that decide something on their own, in the form the
source has them: loops as methods with loops, objects as classes, expressions as
functions, and the two protocols as state machines over their steps.

| module | what it models |
|---|---|
| `TreeLexer`, `TreeProduction`, `TreePaths` | reading Rust source: blanking comments and literals, taking out test items, finding `crate::` paths |
| `Wal`, `WalArchive` | write-ahead-log segment names and retention, and the archive command as a protocol with crashes |
| `LogWriter` | two readers and one writer draining a container's output, in every interleaving and with any failure |
| `Join`, `JoinRuns` | a node joining with a token: one request with crashes, and any number of requests at once |
| `Sections`, `ConfigFile` | replacing one section of a configuration file, and the strings and credentials in it |
| `DnsNames`, `DnsRecords` | zones, record names and records, from what is typed to what is stored and back |
| `Reveals` | secrets shown once |
| `Slugs` | slugs, and the container ids built of them |
| `Floats`, `Sizes`, `Slots` | 64-bit floats, size fields, and replication slots as the primary prints them |
| `Text` | the string operations of Rust's standard library that these are written with |

A loop of the source is proved equal to a recursive specification, and what the
source promises is proved about the specification, for all inputs or all runs.
`hide` statements in proofs only keep definitions from the solver that a proof
does not need.

## What turned out not to hold

Each is stated as the exact condition under which the code does what it promises,
or as a concrete run.

- The lexer takes the third character of the escaped single quote for its end, and
  takes a block comment as a whole only if nothing in it closes one
  (`TreeLexer.EscapedQuoteIsTheException`,
  `TreeLexer.CommentIsWholeUnlessClosedInside`).
- Taking out test items is idempotent only if no kept line still ends in a carriage
  return, which no LF or CRLF source brings about
  (`TreeProduction.IdempotentOnOrdinarySources`).
- `crate::{..}` is not opened (`TreePaths.GroupWithoutPrefix`).
- A segment name with a low field of 256 or more is read as a segment whose own
  name is later in text order (`Wal.LowFieldMustBeCanonical`).
- If the archive command stops between its rename and its exit, the segment is safe
  but can never be reported archived, since the command refuses a file that is there
  (`WalArchive.CrashBeforeReportSticks`).
- A comment in the join handler says that a node already known keeps its address.
  It does unless one of its requests looks it up and finds no row while another, with
  another address, is in flight: two first joins with two tokens, or a node
  forgotten under its own request (`JoinRuns.OnlyAClashDisagrees`, `JoinRuns.AClashMovesTheNode`). After that a
  request that had found the row can move it too (`JoinRuns.AStaleLookupMovesItBack`).
- Withdrawing deletes a token whether it is spent or not, and its address is then
  minted again; a save that comes late is refused by the unique index
  (`JoinRuns.RefusedExactlyIfHandedTwice`).
- The comment on `RecordData` says that parsing the stored form gives the same
  record. TXT and CAA records do so only under a condition
  (`DnsRecords.StoredRecordReadsBack`).
- A relative record name can read back as another name, when it is or ends in the
  zone's own name (`DnsNames.RelativeReadsBack`).
- The comment on `replace_section` counts a header with a comment after it among the
  cases it handles; the code compares the whole line, so such a header is not found
  (`ConfigFile.CommentedHeaderIsNotFound`).
- A clock that goes back lets a sweep drop a secret that is young again
  (`Reveals.SweptDiffersExactlyIfDroppedYoung`).
- The comment on `size_field` says that reading it back gives the same number. Beyond
  2^53 it does so only for megabytes, floats and the largest number
  (`Sizes.SizeFieldReadsBack`).

## Model

| member | source | states |
|---|---|---|
| `TreeLexer.SkipLine` | src/tree.rs:74-77 | the inner loop over a line comment stops at the newline or at the end of the source |
| `TreeLexer.SkipBlockComment` | src/tree.rs:78-83 | the inner loop over a block comment stops at the first `*/`, or one short of the end |
| `TreeLexer.CountHashes` | src/tree.rs:84-90 | counts exactly the hashes that follow |
| `TreeLexer.SkipRawString` | src/tree.rs:96-103 | stops at the first quote with enough hashes after it, or at the end |
| `TreeLexer.SkipString` | src/tree.rs:104-110 | stops at the first quote no backslash escapes, or beyond the end |
| `TreeLexer.SkipCharacter` | src/tree.rs:113-118 | stops at the next single quote, or at the end |
| `TreeLexer.Advance` | src/tree.rs:71-122 | one turn of the outer loop: what is pushed and the index it leaves, in every branch |
| `TreeLexer.CodeOnly` | src/tree.rs:66-125 | the whole loop: it ends, stays in bounds and pushes what the specification `CodeFrom` says |
| `TreeLexer.LexesTokens` | src/tree.rs:66-125 | wherever a well-formed token sequence stands in a source, the lexer pushes what is kept of it and goes on after it |
| `TreeLexer.LexerKeepsOnlyCode` | src/tree.rs:64-125 | for every source rendered from a well-formed token sequence, the output is its plain characters with every string emptied and every comment and character literal gone |
| `TreeLexer.Tokenizes` | src/tree.rs:66-125 | every text at all is a well-formed token sequence followed by at most one comment or literal that is never closed |
| `TreeLexer.LexerOnEverySource` | src/tree.rs:66-125 | so the output is settled by the token grammar on every source, well-formed or not |
| `TreeLexer.LiteralsNeverInfluence` | src/tree.rs:64-125 | sources that differ only inside comments, strings and character literals have the same output |
| `TreeLexer.LexerBounds` | src/tree.rs:66-125 | for every input the output is at most one character longer, and each quote in it belongs to an emptied string |
| `TreeLexer.EscapedQuoteIsTheException` | src/tree.rs:111-118 | an escaped character literal vanishes exactly if it is not the escaped quote, whose third character is taken for its end |
| `TreeLexer.RawStringTakesNoWordBefore` | src/tree.rs:84-103 | wherever a raw string stands, with any hashes and any body without its closing, it is emptied as a whole exactly if the character before it is no letter, digit or underscore |
| `TreeLexer.ByteRawStringIsOrdinary` | src/tree.rs:73-110 | so after `b` it is not: the letters stay, and what follows is read as an ordinary string |
| `TreeLexer.UnfinishedIsNeverClosed` | src/tree.rs:74-118 | what is swallowed to the end of the source is a comment or literal whose closing is nowhere in it |
| `TreeLexer.CommentEndsAtFirstClose` | src/tree.rs:78-83 | a block comment ends at the first `*/` after its opening, wherever that is |
| `TreeLexer.CommentIsWholeUnlessClosedInside` | src/tree.rs:78-83 | so a comment is taken as a whole exactly if `*/` is nowhere in its body, for every body and whatever is around it |
| `TreeLexer.NestedCommentIsCutShort` | src/tree.rs:78-83 | a comment inside a comment is one that is not |
| `TreeProduction.SkipItem` | src/tree.rs:139-149 | the inner loop leaves the lines after the marked item |
| `TreeProduction.Production` | src/tree.rs:130-152 | the two loops over one iterator keep what the specification `Kept` says |
| `TreeProduction.KeepsLinesInOrder` | src/tree.rs:127-152 | only original lines come out, in their order, and no marker among them |
| `TreeProduction.KeepsEverythingUnmarked` | src/tree.rs:127-152 | a source without a marker keeps every line |
| `TreeProduction.RemovesExactlyTheItem` | src/tree.rs:139-149 | of a marked item exactly its marker, attributes, signature and balanced body go; what is before stays and what is after is treated as if it stood alone |
| `TreeProduction.ItemEndsAtFirst` | src/tree.rs:139-149 | whatever the lines are, those that go after a marker are the ones up to the first on which no brace is open and which ends in `;` or `}`, attributes before it aside; all, if there is none |
| `TreeProduction.IdempotentUnlessCarriageReturns` | src/tree.rs:130-152 | a second pass changes nothing exactly if no kept line still ends in a carriage return |
| `TreeProduction.IdempotentOnOrdinarySources` | src/tree.rs:130-152 | so it is on every source, LF or CRLF, in which no newline has two carriage returns before it and none ends the text; of the sources without a marker, on no others |
| `TreeProduction.NotAlwaysIdempotent` | src/tree.rs:130-152 | `\r\r\n` is a source on which it does |
| `TreePaths.SegmentsOf` | src/tree.rs:157-175 | identifiers joined by `::` and the text after the last of them |
| `TreePaths.WordIsOneSegment` | src/tree.rs:157-175 | a word of letters, digits and underscores is one segment, whole, before anything that is none of these |
| `TreePaths.CrateYieldsExactly` | src/tree.rs:179-184 | `crate::` stands for a path exactly where none of these is before it |
| `TreePaths.OpenGroup` | src/tree.rs:189-194 | one path for every name of a group that is not blank |
| `TreePaths.PathsAfter` | src/tree.rs:185-197 | what one `crate::` stands for: a path, or a group opened up to its first closing brace |
| `TreePaths.CratePaths` | src/tree.rs:177-199 | the loop over a shrinking slice finds the paths at exactly the positions where `crate::` stands with no identifier character before it |
| `TreePaths.PathsOfImport` | src/tree.rs:157-197 | the printed text of one import gives back its paths, whatever follows it |
| `TreePaths.ExtractionInvertsPrinting` | src/tree.rs:154-200 | imports printed among other code, which may hold identifiers that end in `crate`, come back as the expanded list, in order and nothing else |
| `TreePaths.GroupWithoutPrefix` | src/tree.rs:185-196 | a group right after `crate::` is not opened |
| `Wal.NameFields` | src/domain/policies/wal.rs:32-40 | a name is 24 upper-case hexadecimal characters that read as timeline, log id and a low field below 256 |
| `Wal.NameReadsBack` | src/domain/policies/wal.rs:97-106 | `segment_of` of a name is the timeline and the position divided by the segment size |
| `Wal.SegmentsAreThreeFields` | src/domain/policies/wal.rs:97-106 | a name is read as a segment exactly if it is three fields of eight hexadecimal digits, of which the first of a field may be a plus; no history file is |
| `Wal.CaseOfDigits` | src/domain/policies/wal.rs:101-103 | the case of the digits changes no number |
| `Wal.TextOrderOfHex` | src/domain/policies/wal.rs:72 | text order of hexadecimal numbers of one width is their order as numbers, both ways for upper-case digits |
| `Wal.TextOrderIsFieldOrder` | src/domain/policies/wal.rs:62-73 | a deletable file has an earlier timeline, log id or low field, whatever the case of its digits; with upper-case digits the converse holds too |
| `Wal.NameOrder` | src/domain/policies/wal.rs:32-40 | comparing two names as text is comparing timeline and then segment number |
| `Wal.LowFieldMustBeCanonical` | src/domain/policies/wal.rs:97-106 | a name and the name of the segment it reads as agree in the order exactly if the low field is below 256 |
| `Wal.BitOrDisjoint` | src/domain/policies/wal.rs:21 | joining two halves with a bitwise or adds them as long as the low half fits |
| `Wal.PositionReadsBack` | src/domain/policies/wal.rs:17-22 | every 64-bit position printed as Postgres prints it reads back, with any whitespace around it |
| `Wal.HalvesAreTakenTogether` | src/domain/policies/wal.rs:17-22 | any two 64-bit halves are joined bit by bit, the high one moved up by 32 bits |
| `Wal.DeletableIsEarlier` | src/domain/policies/wal.rs:62-73 | a canonical segment, compressed or not, may be deleted exactly if it comes before the oldest one needed |
| `Wal.DeletableExactly` | src/domain/policies/wal.rs:62-73 | a file may be deleted exactly if it is twenty-four hexadecimal digits, with `.gz` after them or not, that are before the oldest one needed, character by character |
| `Wal.SweepKeeps` | src/infra/repositories/wal_archive.rs:124-152 | a retention pass keeps exactly the canonical segments at or after its anchor, and everything when there is no anchor |
| `Wal.RetentionMakesNoHole` | src/infra/repositories/wal_archive.rs:124-152 | with the smallest start of the kept backups as the anchor, every archived segment a kept backup may need survives, an archive without a gap has none afterwards, and what is not named as a segment stays |
| `WalArchive.TemporaryIsKept` | src/domain/policies/wal.rs:62-72 | a leftover `.gz.tmp` is never taken for a segment and never deletable |
| `WalArchive.StepKeepsSound` | src/domain/policies/postgres.rs:260-262 | every step of the command, a crash and a retention pass keep: a file under a final name is the whole segment compressed |
| `WalArchive.ArchiveRestoresOriginals` | src/domain/policies/postgres.rs:328-330 | over every run, a file present under its final name restores to the original bytes, and a reported segment restores unless retention deleted it |
| `WalArchive.FinalFilesNeverChange` | src/domain/policies/postgres.rs:260-262 | a file seen twice under its final name is the same file |
| `WalArchive.OnlyRetentionDeletes` | src/domain/policies/wal.rs:62-72 | nothing but a retention pass removes a file under a final name |
| `WalArchive.NeededSegmentsRestore` | src/infra/repositories/wal_archive.rs:124-152 | over every run from an empty archive, a segment that is there at some moment, and at or after the anchor of every later pass by timeline and segment number, restores to its bytes at the end |
| `WalArchive.ReportedAndNeededRestores` | src/infra/repositories/wal_archive.rs:112-123 | so does every segment that was reported archived and that every pass of the run must leave |
| `WalArchive.TakenExactlyIfEarlier` | src/infra/repositories/wal_archive.rs:124-152 | over every run a segment that is there has been taken out by the end exactly if a pass with an anchor after it reaches its file, and else it is there |
| `WalArchive.UnnamedIsNeverPruned` | src/domain/policies/wal.rs:64-71 | a file that is not twenty-four hexadecimal digits, with its suffix or without, is left as it is by any pass with any anchor |
| `WalArchive.StrangersStay` | src/domain/policies/wal.rs:57-61 | over every run such a file stays as it was, unless it has the archive's own suffix |
| `WalArchive.PassIsSweep` | src/infra/repositories/wal_archive.rs:124-152 | an undisturbed pass over the whole directory leaves exactly what `Wal.Sweep` keeps, each file as it was |
| `WalArchive.AttemptSucceedsUnlessPresent` | src/domain/policies/postgres.rs:260-262 | an undisturbed command reports the segment exactly if its file is not there, whatever an earlier attempt left behind |
| `WalArchive.CrashBeforeReportSticks` | src/domain/policies/postgres.rs:260-262 | after a crash between the rename and the report no run of retries ever reports the segment |
| `WalArchive.StuckStateIsReachable` | src/domain/policies/postgres.rs:260-262 | and a run reaches that state |
| `LogWriter.LinesAreTheData` | src/cli/log_writer.rs:114-126 | the lines that are read are the data character by character: all of it, with a newline after a last line that has none; or, if a read error ends it, all up to its last newline |
| `LogWriter.StepKeepsInv` | src/cli/log_writer.rs:70-128 | every step of any thread keeps the accounts: written, discarded, queued, held and unread lines are each stream's lines, in order |
| `LogWriter.SendNeverFails` | src/cli/log_writer.rs:124-126 | `send` never fails while a reader lives |
| `LogWriter.ReaderNeverWaits` | src/cli/log_writer.rs:84-98 | a reader that has not returned can take its next step whatever has become of the file, and comes nearer to the end of its stream |
| `LogWriter.NeverStuck` | src/cli/log_writer.rs:65-99 | the process can always take a step until it has exited |
| `LogWriter.EveryStepTakesWork` | src/cli/log_writer.rs:88-128 | every step uses up work, so every run ends |
| `LogWriter.NothingAfterFailure` | src/cli/log_writer.rs:91-97 | after the first failure nothing is ever appended |
| `LogWriter.ExitAccountsForEverything` | src/cli/log_writer.rs:65-99 | at exit both streams were read to their end, the lines written or discarded are each stream's data character by character, and the file holds whole lines and at most one torn one |
| `LogWriter.StreamsComeApart` | src/cli/log_writer.rs:124 | selecting one stream's word gives back that stream's written lines, whole and in order, whatever torn end follows |
| `LogWriter.PrefixWidth` | src/cli/log_writer.rs:124-146 | a line in the file is its stamp, a space, the stream's word, a space, the line and a newline: 28 bytes more, and unchanged after them |
| `LogWriter.FileShowsEachStream` | src/cli/log_writer.rs:70-128 | at any moment of any run a new file shows a prefix of each stream's data, and at the end all of it if nothing failed |
| `LogWriter.Process.Prepare` | src/cli/log_writer.rs:70-82 | each statement before the loop is one step of the system |
| `LogWriter.Process.ReceiveLine` | src/cli/log_writer.rs:87-97 | one turn of the writing loop is one step, whether the write succeeds, tears a line or is skipped |
| `LogWriter.Process.Drain` | src/cli/log_writer.rs:114-128 | one move of a reader is one step |
| `LogWriter.Process.Run` | src/cli/log_writer.rs:54-128 | under any scheduler, clock and failures the process finishes with every character of both streams accounted for |
| `Join.Server.Join` | src/web/remote_node_rest_controller.rs:683-720 | the handler, stopped after any number of statements, is a run of the specification `Handle` |
| `Join.Server.Admit` | src/web/remote_node_rest_controller.rs:722-809 | finding, spending and saving, with each early return |
| `Join.Server.Answer` | src/web/remote_node_rest_controller.rs:811-881 | naming itself, granting and answering |
| `Join.AnswersExactly` | src/web/remote_node_rest_controller.rs:683-881 | every answer a whole request can get and exactly when, in terms of the request, the token and the rows |
| `Join.AcceptedIsRecorded` | src/web/remote_node_rest_controller.rs:738-835 | an accepted request leaves the token spent by its node, the grant written, the node's row with the name, key and capabilities it sent, the certificate it brought or else the old one, and the address it is told; every other row is as it was |
| `Join.StoppedAnywhere` | src/web/remote_node_rest_controller.rs:711-881 | a request stopped anywhere leaves one of four databases; run through, it answers its verdict |
| `Join.VerdictAfterStop` | src/web/remote_node_rest_controller.rs:711-809 | what an interrupted request left changes no verdict of a later one by the same node |
| `Join.CrashThenRetry` | src/web/remote_node_rest_controller.rs:738-835 | a retry after a crash answers what the first request would have, and then the row is as the retry said, with that address, and token and grant are recorded |
| `JoinRuns.StepKeepsInv` | src/web/remote_node_rest_controller.rs:711-849 | every statement of every request, and minting, withdrawing any token, forgetting and stopping keep: each recorded address came from a token that node spent, and no two rows share one |
| `JoinRuns.AddressesAreNeverShared` | src/web/remote_node_rest_controller.rs:775-780 | over every run no two nodes share an address, each came from a token its node spent, and this node's own row is never overwritten |
| `JoinRuns.RefusedExactlyIfHandedTwice` | migrations/0015_network.sql:52-54 | over every run the unique index refuses a save exactly if another node spent a second token with the address and has it in its row |
| `JoinRuns.NeverTaken` | src/infra/network/overlay.rs:67-89 | as long as every token spent on the address is still there, no save of it is refused |
| `JoinRuns.ARefusedSaveIsReached` | src/infra/network/enrolment.rs:213-222 | a token withdrawn between its spending and its save leads to a refused one |
| `JoinRuns.OnlyAClashDisagrees` | src/web/remote_node_rest_controller.rs:722-780 | while the requests of a node in flight agree with its row on its address, no step of anything moves it, and they go on agreeing exactly if the step is not a lookup that finds no row beside a request with another address |
| `JoinRuns.WhatAClashTakes` | src/web/remote_node_rest_controller.rs:730-780 | such a lookup takes a second token, or a node forgotten under a request that had found it |
| `JoinRuns.SteadyRunsAreApart` | src/cli/join.rs:39-44 | so retrying with one token, re-joining with any, or making one request at a time leads to none |
| `JoinRuns.KnownNodesNeverMove` | src/web/remote_node_rest_controller.rs:770-780 | over every run in which this node's requests do not clash, and whatever others do, a known node keeps its address until it is forgotten |
| `JoinRuns.RepliesNameTheRow` | src/web/remote_node_rest_controller.rs:864-871 | at any moment of such a run the reply names the address in the row |
| `JoinRuns.SavesItsAddress` | src/web/remote_node_rest_controller.rs:749-780 | a request left alone moves a known node exactly if the address it settled on is not the row's |
| `JoinRuns.AClashMovesTheNode` | src/web/remote_node_rest_controller.rs:730-780 | a clash of two requests that can save does move the node |
| `JoinRuns.OverlappingRequestsMoveANode` | src/web/remote_node_rest_controller.rs:730-780 | two first joins of one node with two tokens reach it |
| `JoinRuns.AStaleLookupMovesItBack` | src/web/remote_node_rest_controller.rs:722-780 | and then a request that had found the row moves the node again |
| `ConfigFile.TwoReplacementsEscape` | src/infra/config.rs:622 | the two replacements together escape character by character |
| `ConfigFile.EscapingIsReversible` | src/infra/config.rs:621-624 | a TOML reader at the opening quote stops at the closing one with the value, whatever follows, exactly for values without control characters (TOML v1.0.0, section "String") |
| `ConfigFile.SkipSection` | src/infra/config.rs:650-656 | the inner loop stops at the next line that starts a section |
| `ConfigFile.SpliceLines` | src/infra/config.rs:633-657 | the two loops over one iterator write the specification and report whether the header was there |
| `ConfigFile.ReplaceSection` | src/infra/config.rs:632-667 | the whole function is the specification `Replaced` |
| `ConfigFile.LinesAfterSave` | src/infra/config.rs:632-667 | the lines of a saved file: the section in its place, or at the end after at most one blank line |
| `ConfigFile.SavingTwiceIsSavingOnce` | src/infra/config.rs:632-667 | a save leaves one header with exactly the section under it, and saving twice is saving the second only |
| `ConfigFile.SavingThenForgetting` | src/infra/config.rs:632-667 | saving and forgetting is forgetting, or adds at most a blank line if there was no section |
| `ConfigFile.LinesOutsideSurvive` | src/infra/config.rs:632-667 | every line outside the section survives in order, through a save and through forgetting |
| `ConfigFile.CommentedHeaderIsNoHeader` | src/infra/config.rs:626-638 | a header line with a comment after it starts a section and is not the header |
| `ConfigFile.CommentedHeaderIsNotFound` | src/infra/config.rs:626-667 | in any file without a line that is the header, a save leaves every line and adds the section after them, and forgetting it forgets nothing |
| `ConfigFile.SavedCredentialsReadBack` | src/infra/config.rs:591-613 | whatever was in the file, after a save the one section in it reads as the credentials saved |
| `DnsNames.ZonesAre` | src/domain/values/zone_name.rs:55-63 | a zone is two labels or more of 1 to 63 lower-case letters, digits and inner hyphens, 253 characters in all |
| `DnsNames.PastedZoneIsRead` | src/domain/values/hostname.rs:20-34 | a zone pasted in any case, with a scheme, a path, trailing dots or whitespace around it, is that zone |
| `DnsNames.ZoneParsesToItself` | src/domain/values/zone_name.rs:19-36 | a name parses to itself as a zone exactly if it is one: two labels or more, each 1 to 63 bytes, 253 in all |
| `DnsNames.AcceptedZoneParsesToItself` | src/domain/values/zone_name.rs:19-36 | whatever was pasted, an accepted zone is one and parses to itself |
| `DnsNames.HoldsByLabels` | src/domain/values/zone_name.rs:42-46 | a zone holds a name exactly if the name's last labels are the zone's |
| `DnsNames.NormalIs` | src/domain/values/zone_name.rs:44 | the form names are compared in: trailing dots gone and letters in lower case |
| `DnsNames.RecordNamesAre` | src/domain/values/record_name.rs:32-76 | a record's name is the apex, or labels of lower-case letters, digits, underscores and inner hyphens of which the first may be a star, 253 characters in all with the zone's |
| `DnsNames.TypingChangesNothing` | src/domain/values/record_name.rs:20-23 | upper case, trailing dots and whitespace change neither what a typed name parses to nor what a zone holds; nothing, `@` and the zone's own name are the apex |
| `DnsNames.FqdnParsesBack` | src/domain/values/record_name.rs:19-60 | the full name of a record name parses back to it |
| `DnsNames.AcceptedNameParsesBack` | src/domain/values/record_name.rs:19-60 | whatever was typed, an accepted name is found again by its full name |
| `DnsNames.FqdnIsInjective` | src/domain/values/record_name.rs:54-59 | distinct names have distinct full names |
| `DnsNames.FqdnFitsDns` | src/domain/values/record_name.rs:29-39 | the zone holds every full name, within 253 bytes and labels of 1 to 63 (RFC 1035 section 2.3.4) |
| `DnsNames.RelativeReadsBack` | src/domain/values/record_name.rs:19-40 | the relative form reads back exactly if it is not the zone's own name and does not end in a dot and it |
| `DnsNames.ZoneUnderItselfIsLost` | src/domain/values/record_name.rs:19-40 | the zone's own name under itself, typed in full, is accepted and does not |
| `DnsNames.TypedAsMeant` | src/domain/values/record_name.rs:17-27 | a full name inside the zone stands for itself, and anything else for a name under the zone |
| `DnsRecords.Ipv4ReadsBack` | src/domain/values/record_data.rs:97 | an address is read from exactly the text it is written as |
| `DnsRecords.AcceptedIsWellFormed` | src/domain/values/record_data.rs:90-119 | an accepted record is of the kind asked for and within that kind's limits |
| `DnsRecords.TargetsAre` | src/domain/values/record_data.rs:190-202 | a target is two labels or more of lower-case letters, digits, underscores and inner hyphens, 253 characters in all |
| `DnsRecords.TypedTargetIsRead` | src/domain/values/record_data.rs:190-202 | typed in any case, with trailing dots and whitespace around it, it is that target |
| `DnsRecords.PriorityIsRead` | src/domain/values/record_data.rs:181-188 | a priority is a number up to 65535 between any whitespace; there is no other, and none for nothing |
| `DnsRecords.ServiceIsRead` | src/domain/values/record_data.rs:101-112 | a service record is weight, port and target in this order |
| `DnsRecords.AuthorityIsRead` | src/domain/values/record_data.rs:218-240 | for every flags byte the record is critical exactly from 128 on, and without one it is not; a tag in any case is that tag, and quotes around the authority come off |
| `DnsRecords.StoredRecordReadsBack` | src/domain/values/record_data.rs:64-65 | every accepted A, CNAME, MX and SRV record reads back from its stored form; TXT and CAA exactly if nothing at the ends of the text reads as padding or quotes |
| `DnsRecords.QuotedTextIsAccepted` | src/domain/values/record_data.rs:204-216 | any text up to the limit without a seam of quotes is accepted between quotes as it stands, and does not read back if it is padded or quoted itself |
| `DnsRecords.PiecesAreOneText` | src/domain/values/record_data.rs:204-216 | a text pasted in any number of quoted pieces is accepted as the pieces put together, or refused as empty or longer than 2048 bytes |
| `DnsRecords.UnquotedPieces` | src/domain/values/record_data.rs:204-216 | pieces without quotes in them are such pieces, as any text between quotes is |
| `DnsRecords.PaddedTextIsLost` | src/domain/values/record_data.rs:204-216 | a text with a space before it is one |
| `DnsRecords.SpacedAuthorityIsLost` | src/domain/values/record_data.rs:218-240 | a quoted authority with spaces inside its quotes is accepted with them and does not read back |
| `DnsRecords.TxtReadsBack` | src/domain/values/record_data.rs:204-216 | a text reads back exactly if it is trimmed and not between quotes |
| `DnsRecords.CaaReadBack` | src/domain/values/record_data.rs:218-240 | what a CAA record reads back as: its value without the whitespace at its ends |
| `DnsRecords.CaaReadsBack` | src/domain/values/record_data.rs:218-240 | a CAA record reads back exactly if its value has no outer space |
| `DnsRecords.TextStrings` | src/domain/values/record_data.rs:165-178 | the strings concatenate to the text, each fits in 255 bytes and none is cut before the next character would not fit |
| `DnsRecords.OnlyOneCut` | src/domain/values/record_data.rs:165-178 | which leaves only one way to cut a text |
| `DnsRecords.StringsAreFew` | src/domain/values/record_data.rs:161-178 | every string but the last has 252 to 255 bytes |
| `DnsRecords.AcceptedTextIsNineStrings` | src/domain/values/record_data.rs:204-216 | an accepted text goes out as at most nine strings |
| `Reveals.Reveals.Stash` | src/shell/state.rs:63-73 | the map sweeps and then holds the new secret, and nothing in it is expired |
| `Reveals.Reveals.Take` | src/shell/state.rs:76-82 | the entry is gone and the answer is the secret if it is young enough |
| `Reveals.SweptAnswersLikeUnswept` | src/shell/state.rs:63-82 | a take answers as from a log that is never swept, over every history in which the clock does not go back |
| `Reveals.SweptDiffersExactlyIfDroppedYoung` | src/shell/state.rs:63-82 | over every history and any clock the answers differ exactly if a stash came a minute or more after the entry and the entry is younger than that at the take |
| `Reveals.SweepShowsWhenTheClockGoesBack` | src/shell/state.rs:70 | a history in which they do |
| `Reveals.ReadOnceWithinAMinute` | src/shell/state.rs:36-59 | a take answers with the secret exactly if it is the first take of its nonce and less than 60 seconds later |
| `Reveals.NothingToRead` | src/shell/state.rs:76-82 | a nonce never given out has no secret |
| `Slugs.Of` | src/domain/values/slug.rs:16-35 | the loop computes the runs of letters and digits joined by hyphens, in lower case, cut to a DNS label |
| `Slugs.SlugIsSlug` | src/domain/values/slug.rs:3-11 | at most 63 lower-case letters and digits joined by single hyphens |
| `Slugs.SlugsAreTheFixedPoints` | src/domain/values/slug.rs:9-11 | slugs are exactly what making a slug leaves alone |
| `Slugs.SlugIsTheWords` | src/domain/values/slug.rs:16-35 | for words with anything between them, the slug is the words in lower case with one hyphen between each two, or as much of that as a label holds |
| `Slugs.SlugKeepsLetters` | src/domain/values/slug.rs:16-35 | no letter or digit is lost, added or moved, but for those at the end that a full label cuts off |
| `Slugs.ContainerIdMatches` | src/domain/entities/service.rs:318-325 | an id matches containerd's grammar exactly if neither slug is empty |
| `Slugs.PartsOfId` | src/domain/entities/replica.rs:158-163 | an id comes apart at its dots |
| `Slugs.ContainerIdsAreUnambiguous` | src/domain/entities/replica.rs:158-163 | no two slots of any services share an id |
| `Floats.NearestOfWhole` | src/domain/policies/presets.rs:203 | a whole number is a 64-bit float exactly if what precedes its zeros has 53 bits |
| `Floats.NearestIsNear` | src/domain/policies/presets.rs:249-257 | the float a number is read as is within one part in two to the fifty-third |
| `Sizes.TypedSizeIsRead` | src/domain/policies/presets.rs:192-227 | a whole number and any unit in any case is that many bytes, a bare number and `m` being megabytes; beyond 2^64 it is too large, and 2^64 itself is taken for the largest size |
| `Sizes.OtherUnitIsRefused` | src/domain/policies/presets.rs:212-219 | any other unit is refused |
| `Sizes.SizeFieldReadsBack` | src/domain/policies/presets.rs:272-286 | a stored 64-bit size reads back from its field exactly if a container may have it and it is a number of megabytes, or is a float, or is the largest there is; as a budget, if it is not nought and one of these; all sizes to 2^53 are floats |
| `Sizes.FirstSizeThatDoesNotReadBack` | src/domain/policies/presets.rs:272-286 | 2^53 + 1 does not |
| `Sizes.CoresFieldReadsBack` | src/domain/policies/presets.rs:288-299 | a stored number of millicores reads back from its field, in each of its three spellings and through two roundings, exactly if a container may have it |
| `Slots.ExactlySlotLinesAreRows` | src/domain/policies/postgres.rs:938-958 | a line is read as a row exactly if it names a slot and has a field after the name |
| `Slots.RowIsRead` | src/domain/policies/postgres.rs:938-958 | a row is read as its slot, active exactly if the flag is `t` or `true`, and its count |
| `Slots.UnreadableCountIsNought` | src/domain/policies/postgres.rs:947-950 | a count that is missing or does not read is nought and costs no row |
| `Slots.OutputIsReadCompletely` | src/domain/policies/postgres.rs:938-958 | rows printed among any noise are read back, all of them, in order and nothing else |
| `Slots.BlocksAreReadApart` | src/domain/policies/postgres.rs:938-958 | reading distributes over blocks of lines |

## Left out

- TreePaths.ExtractionInvertsPrinting: imports have a prefix and a flat group, because a group right after `crate::` is not opened and a nested group ends at the first closing brace.
- TreePaths.CratePaths: takes from Unicode's alphanumeric table that ASCII letters and digits are in it and no whitespace is; the table itself is a parameter.
- TreeLexer.LexerKeepsOnlyCode: nested block comments and the escaped single quote are outside the token grammar, and a byte-raw string is the letters before it and an ordinary string, as the code reads them.
- Wal.LowFieldMustBeCanonical: positions are below 2^64; the wrap-around of `segment_of` cannot occur in a field of eight digits.
- Wal.NameReadsBack: names are ASCII where they are sliced, as the source's indexing by bytes demands; a 24-byte name cut inside a character panics there.
- Wal.RetentionMakesNoHole: starts are given; reading them from the JSON of a backup manifest (`start_of`) is the JSON library's.
- WalArchive.ArchiveRestoresOriginals: a rename and a finished write are durable; loss of power before the disk has them is not modelled, and `gzip` and `gunzip` are an inverse pair.
- WalArchive.PassIsSweep: a file that the system refuses to remove stays, as if the pass had not reached it; the counts a pass returns are left out.
- WalArchive.StrangersStay: a stranger's file named with `.gz` or `.gz.tmp` is one the archive command may write itself.
- LogWriter.FileShowsEachStream: a stream is text that was decoded already; the lossy decoding of bytes that are not UTF-8 is not modelled.
- JoinRuns.KnownNodesNeverMove: runs with a clash of the node's own requests are left out, since it is false of them, as `JoinRuns.AClashMovesTheNode` shows.
- JoinRuns.AddressesAreNeverShared: an address is minted free in one step, as `allocate` promises; two tokens minted at once are not modelled.
- Join.CrashThenRetry: database statements succeed or stop the request; the `Err` of a statement that may or may not have happened is the same as stopping before or after it.
- Join.Server.Answer: what a grant is worth is the capability module's, and the tunnel and the certificate in the answer are left out.
- Join.Server.Admit: the row's fields that are constants or the clock are left out, and the accepted capabilities are recorded as the list that was sent.
- ConfigFile.SavingTwiceIsSavingOnce: the file has LF lines and at most one header line of the section, with no comment after it, which is all the code recognises as a header.
- ConfigFile.SavedCredentialsReadBack: the comment under the header is any comment lines, and the TOML reader knows basic strings only; the whole-file parse before the write is the TOML library's.
- DnsRecords.StoredRecordReadsBack: AAAA is left out, since IPv6 addresses are the standard library's.
- Reveals.Reveals.Stash: the generated nonce is a parameter, and times are unbounded integers.
- Sizes.CoresFieldReadsBack: the printing of a float is given as the exact decimal, which is the shortest that reads as it.
- Sizes.TypedSizeIsRead: whole amounts below 2^53, the ones a float holds exactly whatever they are; fractions are read as the function says.
- Slugs.ContainerIdsAreUnambiguous: slot numbers are unbounded.
- Hostnames for their own sake: they are modelled as far as zones need them.
- SQL, HTTP, containerd, ACME, TLS and WireGuard; the pages and the command line.
- The errand, report and doorbell endpoints, whose rules live in modules that are not part of this model.
- Container and database tuning tables, roles, themes, languages and zone serials: they would only add easy members.
