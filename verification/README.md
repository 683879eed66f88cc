# Redis server core: a verified model

This project models the parts of the Redis server where a small mistake loses data or
changes what a client sees, and proves what they promise for every input, every run and
every failure the code handles. Each module follows one component of the C sources: code
that updates buffers, tables and queues in place is modelled by classes and array methods
and tied to specification functions; the theorems are about those functions.

| component | modules | main results |
|---|---|---|
| append-only file: writing and loading | AofLog, AofLoad, AofFlush, AofSelect | a log cut at any byte loads exactly its whole commands and closed transactions, each in its own database; over every run file plus buffer is what was fed |
| append-only file: rewrite | AofManifest, AofRewrite, AofFiles, AofFailures | at every step of a background rewrite, crashes included, a restart finds the dataset; the three kinds of steps that break this are characterised exactly; no file is ever forgotten |
| ACL selectors | AclRules, SdsSplit, Acl, AclMeaning, AclSelector | every operation changes exactly the bits it names; the textual rule log rebuilds the bitmap after every history of operations |
| blocked clients | Blocked, BlockedMeaning, BlockedServer | the two-way index, reference counts and counters are exact in every reachable state; a pass over a changing list visits each waiter once and serves exactly those the key is meant for |
| cluster slots | SlotRanges, SlotRangeArray, SlotText | normal forms of slot ranges are exact and unique; printing round-trips; the texts that are read are characterised exactly |
| slot migration | ClusterRoute, ClusterMigration | when each redirection is given, exactly; a migration with ASK redirections refines one data set if and only if no key is copied or given up under way |
| bit operations | BitString, Popcount, BitRange, Bitpos, Bitfield | fast counting and searching agree with bit-by-bit definitions; overflow policies are exact |
| CRC-64 | Word64, Polynomials, Crc64, CrcCheck, CrcCombine | the register is the remainder of the message polynomial; combining two CRCs with a matrix cache gives the CRC of the concatenation |
| background jobs | Bio, BioQueues | order, completion callbacks, drain and wake-ups in every interleaving |
| top-k sketch | Chk | displacement chains keep every heavy entry but one where lookups find it; the heap is restored |

`Basics` and `Numbers` hold what several modules share. `dafny verify dfyconfig.toml` checks everything.

Some natural promises do not hold of the code as it is. Each is kept as the code has it,
shown by a concrete case or an exact condition, and the condition is part of the theorem:

- Incremental files of a rewrite are opened without O_APPEND, so a short write that is taken
  back and retried leaves a gap of zero bytes, and the server then refuses to restart
  (`AofFlush.FlushKeepsLawExactly`, `AofFailures.FlushRecoverable`, `AofFailures.GapIsReachable`);
  inside a command the load may even accept other bytes (`AofFailures.GapInsideCommand`).
- A log cut inside a command of a MULTI block, or ending inside nested ones, is repaired to a
  file that needs another repair (`AofLoad.ReloadAfterRepair`, `AofLoad.RepairedTwice`).
- A directory fsync that fails after the manifest was renamed makes the clean-up remove a file
  the manifest on disk names (`AofFailures.LateFailureLosesBase`, `AofFailures.LateOpenRecovery`).
- A rewrite goes on although its forced flush left bytes in the buffer. Commands can then reach
  the new file without their SELECT (`AofSelect.LeftoverGoesToNewFile`), the restart can be
  refused (`AofFailures.RestRecovery`), and a finished rewrite has the commands twice
  (`AofFailures.RestIsDoubled`).
- A first argument with a blank or a quote in an ACL rule does not survive the rebuild
  (`Acl.RebuildsIffClean`); the server notices it exactly as `Acl.PassesExactly` says.
- Backward slot ranges can be merged away with slots they should not touch, and the verdict can
  depend on the sort, though only if one shares its start with another range
  (`SlotRanges.AcceptedKeepsSlots`, `SlotRanges.OrderDecides`, `SlotRanges.OrderDoesNotMatter`); numbers above
  65535 in a printed range are cut to 16 bits (`SlotRangeArray.PrintedRangeReads`).
- A key that is under way, or taken and unread, when MIGRATE gives up can come back after a
  client deleted it, and so can a copied one; transparency holds if and only if none of this
  happens (`ClusterMigration.TransparentIffSettled`, `ClusterMigration.AbandonedIsReachable`).
- A BITCOUNT or BITPOS range that ends before the string is not empty but selects the first byte
  or bit (`BitRange.RangeBeforeString`).
- Saturating SET of a value far below a signed field stores the maximum
  (`Bitfield.SetUnderflow`).

## Model

| member | source | states |
|---|---|---|
| AofLog.CatGenericCommand | src/aof.c:1357-1380 | the one-pass writer appends to `dst` exactly the wire form the lemmas below read back |
| Numbers.ParseNumber | src/aof.c:1607-1608 | a printed number followed by anything but a digit is read back as itself |
| AofLog.ReadEncodedArg | src/aof.c:1618-1646 | an encoded argument of any bytes, CR, LF and NUL included, is read back with its exact size, whatever follows it |
| AofLog.ReadCutArg | src/aof.c:1618-1646 | an encoded argument cut at any byte reads as a short read, never as malformed input or another argument |
| AofLog.ReadEncodedArgs | src/aof.c:1618-1646 | the argument loop returns the encoded arguments and stops exactly at their end |
| AofLog.ReadCutArgs | src/aof.c:1618-1646 | a list of encoded arguments cut at any byte reads as a short read |
| AofLog.ReadEncoded | src/aof.c:1581-1647 | reading undoes writing: every encodable command is read back, with its size, in front of any rest |
| AofLog.ReadCut | src/aof.c:1581-1647 | a command cut anywhere strictly inside is an unexpected end of file, never a shorter or different command |
| AofLoad.ArgumentLoop | src/aof.c:1618-1646 | the loop over positions returns what the recursive reader defines, short and malformed input included |
| AofLoad.NextCommand | src/aof.c:1581-1647 | one turn of the main loop from any position agrees with the reader on the rest of the file |
| AofLoad.LoadFile | src/aof.c:1507-1772 | the load loop with `valid_up_to` and `valid_before_multi` agrees with the recursive loader on every byte string; on a log of transactions cut at any byte it executes what lies wholly before the cut, less a block still open there, in order and without the MULTI and EXEC markers |
| AofLoad.LoadCutRest | src/aof.c:1507-1772 | from any loop state, a log cut at any byte runs exactly the commands wholly before the cut and then takes the end the cut calls for |
| AofLoad.LoadCut | src/aof.c:1700-1760 | the verdict, the executed commands and the repaired length for a log cut at any byte, MULTI blocks included |
| AofLoad.RunPlain | src/aof.c:1660-1697 | without MULTI every command is executed in order and `valid_up_to` is the encoded length |
| AofLoad.LoadCutPlain | src/aof.c:1700-1760 | without MULTI: executed is exactly the longest whole-command prefix, and the file is cut to precisely its encoding when truncation is allowed |
| AofLoad.LoadWhole | src/aof.c:1507-1772 | loading undoes encoding: a complete log executes exactly the commands that were encoded |
| AofLoad.OpenBlock | src/aof.c:1660-1711 | where a log ends inside a MULTI block, the mark the loader goes back to is the last MULTI, nested ones included, and nothing was executed since |
| AofLoad.ReloadAfterRepair | src/aof.c:1700-1760 | for every cut that is repaired: loading the repaired log again executes the same commands, and it needs another repair if and only if what is left ends inside a MULTI block |
| AofLoad.RepairedTwice | src/aof.c:1700-1760 | MULTI and the first byte of PING: a log that is repaired twice |
| AofLoad.LoadThenBad | src/aof.c:1742-1760 | a log followed by anything that starts neither a command nor an annotation is refused, or cut back to exactly the log when the damage is smaller than the configured tail |
| AofLoad.ClientAfter | src/aof.c:1660-1697 | after any transactions the loader has executed the commands of the closed blocks without their markers, and holds those of the open block |
| AofLoad.TransactionsRun | src/aof.c:1660-1711 | a log of transactions cut at any byte, under any configuration, executes exactly what lies wholly before the cut, less a block still open there, in order and without the markers |
| AofLoad.BlocksLoad | src/aof.c:1660-1697 | a whole log that ends outside a block is loaded and executes all its commands |
| AofLoad.NotesAreSkipped | src/aof.c:1581-1606 | annotation lines anywhere between commands change neither what is executed nor the verdict |
| AofFlush.AofWriter.constructor | src/aof.c:727-782 | a descriptor positioned at the end of its contents |
| AofFlush.AofWriter.Feed | src/aof.c:1438-1445 | the bytes go to the end of the buffer and nothing else changes |
| AofFlush.AofWriter.Write | src/aof.c:1109-1126 | one write lands at the end with O_APPEND and at the offset, zero-filled, without it |
| AofFlush.AofWriter.AofWrite | src/aof.c:1109-1126 | retries on interrupts and short writes: the bytes on disk are exactly the counted prefix of the buffer, and -1 only if none was written |
| AofFlush.AofWriter.FlushAppendOnlyFile | src/aof.c:1147-1321 | every path of the flush, postponed, short, taken back, failed or fatal, leaves the state the flush relation gives |
| AofFlush.FlushKeepsLaw | src/aof.c:1147-1321 | every outcome of a flush that returns keeps: file followed by buffer is everything fed, and the recorded size is the file size |
| AofFlush.FlushKeepsAlignment | src/aof.c:1218-1300 | the next byte stops landing at the end of the file if and only if a short write is taken back on a descriptor without O_APPEND |
| AofFlush.FlushKeepsLawExactly | src/aof.c:1147-1321 | from any lawful state a flush keeps the law if and only if the next byte lands at the end, or nothing is written, or what was written is taken back |
| AofFlush.UnalignedFlush | src/aof.c:1218-1300 | after such a take-back, the next bytes that stay break the law, and only those |
| AofFlush.FlushWithoutGap | src/aof.c:1147-1321 | any flush that leaves no gap, even one that ends the process, leaves a prefix of what was fed in the file |
| AofFlush.FlushWithGap | src/aof.c:1147-1321 | otherwise the file is what it was, the zeros of the gap and the bytes written |
| AofFlush.WrittenIs | src/aof.c:1109-1126 | the write loop stops short if and only if a write is refused before everything was taken, and then exactly what was taken before it is written |
| AofFlush.FlushOutcome | src/aof.c:1147-1321 | a flush waits only for a background fsync, at most two seconds and never when forced; otherwise, unless a write is refused, the buffer is empty afterwards, the file holds everything fed and the error state is cleared; a refusal ends the process under `always` and else keeps a buffer and sets the error state |
| AofFlush.RunKeepsLaw | src/aof.c:1147-1321 | over any run of feeds and flushes with any disk behaviour, the law holds with O_APPEND, and without it as long as no short write was taken back |
| AofFlush.RunFromOpen | src/aof.c:727-782 | from opening a file on: contents plus everything fed is the file followed by the buffer |
| AofFlush.RetryWithoutAppendLeavesGap | src/aof.c:804-868 | a concrete run on a file opened without O_APPEND leaves a zero byte in the log, so the condition above is needed |
| AofSelect.SelectIsEncoded | src/aof.c:1423-1432 | the literal SELECT text is the encoding of the two-argument command for every database number |
| AofSelect.FeedEncodes | src/aof.c:1409-1448 | what a feed appends is the encoding of the optional SELECT and the command |
| AofSelect.Feeder.Feed | src/aof.c:1409-1448 | the buffer grows by those entries exactly when the state accumulates, and the selected database follows |
| AofSelect.FeedIsConsistent | src/aof.c:1409-1448 | the entries of one feed replay the command in its own database and leave the remembered database right |
| AofSelect.NextKeepsInv | src/aof.c:2860-2928 | feeds, flushes and rewrite starts keep: every file so far, replayed from database 0, runs each command in its database |
| AofSelect.RunKeepsInv | src/aof.c:2860-2928 | the same for every reachable state |
| AofSelect.EveryFileIsConsistent | src/aof.c:1409-1448 | in every reachable state each closed file and the current one replay every command in the database it was fed for |
| AofSelect.LeftoverConsistent | src/aof.c:1423-1432 | entries that began in another database replay correctly from database 0 if and only if they bring their own SELECT first |
| AofSelect.LeftoverGoesToNewFile | src/aof.c:2868-2879 | if the forced flush of a rewrite start leaves entries behind, the new file is right if and only if they came from database 0 or start with a SELECT |
| AofSelect.LeftoverRunsElsewhere | src/aof.c:2868-2879 | a reachable state where it is wrong: a second command of database 1 is left over and would run in database 0 |
| AofSelect.ReplayRunsInFedDatabase | src/aof.c:1507-1772 | cut a consistent file at any byte and load it: every command that was fed with a database id runs in that database |
| AofManifest.ManifestObject.constructor | src/aof.c:241-261 | an in-memory manifest with the given contents |
| AofManifest.ManifestObject.GetNewBase | src/aof.c:440-459 | the old BASE becomes history and the sequence number grows by one |
| AofManifest.ManifestObject.GetNewIncr | src/aof.c:468-478 | the new INCR name is appended with the next sequence number |
| AofManifest.ManifestObject.MarkRewrittenAsHistory | src/aof.c:506-536 | the walk from the tail moves every INCR file but the last to history, in the order of the original |
| AofManifest.HistoryIsNotLive | src/aof.c:682-706 | no history file is named as BASE or INCR, so deleting history touches no live file |
| AofManifest.NewIncrKeepsWellFormed | src/aof.c:468-478 | a new INCR name is not in use and keeps names unique and numbers ascending |
| AofManifest.RewriteKeepsWellFormed | src/aof.c:440-536 | the manifest after a rewrite is well formed and its new BASE name is not in use |
| AofManifest.DroppingHistoryKeepsWellFormed | src/aof.c:682-706 | removing any number of history entries keeps the live names |
| AofFiles.RewriteForgetsNone | src/aof.c:440-536 | a finished rewrite forgets no name: live are the new BASE and the current INCR file, and all that was live or history before is history, nothing else |
| AofFiles.NextForgetsNone | src/aof.c:2860-3177 | every step, every failure and a crash keep: each file is named by the manifest or has one of the two names the next rewrite writes over |
| AofFiles.NoFileIsForgotten | src/aof.c:2860-3177 | so it is in every reachable state, harmful steps included, for the manifest on disk and the one in memory |
| AofFiles.DeletesHistory | src/aof.c:682-706 | the deletion loop removes exactly the history files and leaves no history |
| AofFiles.RewriteCompacts | src/aof.c:3035-3177 | a rewrite whose last steps go well leaves the new BASE file with what the child wrote, the current INCR file untouched and no history, in memory and on disk; besides them only names written over next can exist |
| AofRewrite.RecoverReadsView | src/aof.c:1775-1898 | a restart from a disk that shows the dataset returns it less only what is not wholly in the last file |
| AofRewrite.FeedKeepsInv | src/aof.c:1409-1448 | feeding a command keeps the rewrite invariant: manifest on disk, files and buffer together are the dataset |
| AofRewrite.FlushKeepsInv | src/aof.c:1147-1321 | every flush, and the forced flush of a rewrite start, keep it unless they leave bytes behind a gap: postponed, interrupted, short, taken back, refused or fatal |
| AofRewrite.OpenNewKeepsInv | src/aof.c:804-868 | creating the next INCR file, or failing to, keeps it |
| AofRewrite.PersistOpenKeepsInv | src/aof.c:804-868 | writing and renaming the manifest with the new INCR file after a complete forced flush, or failing before the rename, keeps it |
| AofRewrite.UseNewKeepsInv | src/aof.c:804-868 | switching to the new file, opened without O_APPEND, keeps it |
| AofRewrite.ForkKeepsInv | src/aof.c:2860-2928 | forking the child, or failing to, keeps it |
| AofRewrite.RenameKeepsInv | src/aof.c:3035-3093 | renaming the temporary BASE file into place, or failing to, keeps it |
| AofRewrite.PersistDoneKeepsInv | src/aof.c:3095-3126 | writing and renaming the final manifest, or failing before the rename, keeps it |
| AofRewrite.UnlinkKeepsInv | src/aof.c:3095-3126 | removing the new BASE file after a failed manifest write keeps it |
| AofRewrite.UseRewrittenKeepsInv | src/aof.c:3095-3126 | switching to the manifest of the rewrite keeps it |
| AofRewrite.DeleteKeepsInv | src/aof.c:682-706 | deleting one history file keeps it |
| AofRewrite.CrashKeepsInv | src/aof.c:1775-1898 | a crash at any step, or an exit in a flush, with the load, repair and reopening that follow, keeps it |
| AofRewrite.NextKeepsInv | src/aof.c:2860-3177 | every step keeps it, except the three kinds looked at in `AofFailures`: bytes written behind a gap, a rewrite that starts with a buffer left over, and a directory fsync that fails after a rename |
| AofRewrite.RunKeepsInv | src/aof.c:2860-3177 | so does every run |
| AofRewrite.InitialInv | src/aof.c:727-782 | it holds at the first start |
| AofRewrite.InvIsRecoverable | src/aof.c:1775-1898 | it implies that the disk can be recovered |
| AofRewrite.AlwaysRecoverable | src/aof.c:2860-3177 | in every reachable state, mid-rewrite included, every file the manifest on disk names exists, and a restart gives the dataset less exactly the last commands not yet wholly written |
| AofRewrite.NothingBufferedNothingLost | src/aof.c:2860-3177 | in every reachable state with an empty buffer a restart loses nothing |
| AofFailures.GapRefusesRestart | src/aof.c:1218-1300 | after a flush that leaves a gap behind a whole command a restart is refused; where a corrupt tail may be dropped and this one is small enough, it gives exactly what it gave before the flush |
| AofFailures.FlushRecoverable | src/aof.c:1147-1321 | where no corrupt tail may be dropped, a flush leaves a disk to restart from if and only if it leaves no gap |
| AofFailures.GapIsReachable | src/aof.c:804-868 | every command can bring it about: one short write taken back after a rewrite started, then a complete flush, and nothing is buffered but the restart is refused |
| AofFailures.GappedFile | src/aof.c:1218-1300 | a run of three flushes that puts a gap inside a command |
| AofFailures.GapInsideCommand | src/aof.c:1581-1647 | there the load accepts the file with other bytes in the argument, so the condition on the end of the file is needed |
| AofFailures.LateFailureLosesBase | src/aof.c:3095-3126 | after a failed final manifest write and its clean-up, a restart is possible if and only if the failure was not a directory fsync failing after the rename |
| AofFailures.LateFailureIsReachable | src/aof.c:3095-3126 | every idle server whose next byte lands at the end of its file can get to that point |
| AofFailures.LateOpenStarts | src/aof.c:804-868 | a directory fsync failing after the rename when the new INCR file is opened leaves the state described next |
| AofFailures.LateOpenContinues | src/aof.c:804-868 | feeds and flushes without a gap keep that state |
| AofFailures.LateOpenRecovery | src/aof.c:1775-1898 | in it a restart is possible if and only if the current file ends with a whole command, and then gives all that is in the files |
| AofFailures.RestRecovery | src/aof.c:2868-2879 | whatever the forced flush left in the buffer, once the manifest lists the new file a restart is possible if and only if the old file ends with a whole command, and then gives what it gave before |
| AofFailures.RestIsDoubled | src/aof.c:2860-3177 | if such a rewrite is finished, a restart gives the dataset followed by the left-over commands a second time |
| AofFailures.DoubledIsReachable | src/aof.c:2860-3177 | every command can be doubled in this way from the first start |
| AofFailures.RefusalIsReachable | src/aof.c:2868-2879 | one byte that cannot be taken back is enough for both refusals, with the manifest written or its directory fsync failing late |
| AclRules.WordsOfJoin | src/acl.c:624-632 | cutting a log at spaces undoes joining its rules |
| AclRules.JoinOfWords | src/acl.c:624-632 | joining undoes cutting, for every text |
| AclRules.StrLen | src/acl.c:578-620 | the length up to the terminator of the buffer |
| AclRules.FindSpace | src/acl.c:578-620 | the first space from a position, or none |
| AclRules.MoveDown | src/acl.c:578-620 | an overlapping move to a lower position copies the old bytes and touches nothing before the target |
| AclRules.SamePrefix | src/acl.c:578-620 | equality of the first characters |
| AclRules.Redundant | src/acl.c:578-620 | the byte test holds exactly for the same rule name or that name and a bar |
| AclRules.NextRule | src/acl.c:578-620 | the bounds of the next rule, with the space to remove after it or, for the last one, before it |
| AclRules.Overwrite | src/acl.c:578-620 | cutting a piece out of the terminated buffer leaves the two other pieces joined |
| AclRules.RemoveCommandRule | src/acl.c:578-620 | the in-place removal on the byte buffer is: split, drop the rules the new one makes redundant, join |
| AclRules.KeptIsPart | src/acl.c:578-620 | exactly the redundant rules go |
| AclRules.KeptIsCanonical | src/acl.c:578-620 | removal keeps the log free of redundant rules |
| AclRules.UpdateKeepsCanonical | src/acl.c:624-632 | so does adding a rule after the removal |
| SdsSplit.CleanStart | src/sds.c:1056-1164 | a piece without blanks and quotes is copied unchanged in front of whatever the rest of the argument gives |
| SdsSplit.CleanWordsFirst | src/sds.c:1056-1164 | words without blanks and quotes are the first arguments of the line, whatever follows, errors included |
| SdsSplit.SplitOfJoin | src/sds.c:1056-1164 | splitting a line of such words returns exactly those words |
| SdsSplit.UncleanShrinks | src/sds.c:1056-1164 | reading an argument past a blank or a quote gives fewer characters than were read |
| SdsSplit.ArgumentsFit | src/sds.c:1056-1164 | no argument of a line is longer than the line |
| Acl.Find | src/server.c:3572-3586 | a command found by name is in the table and has that name |
| Acl.Bar | src/acl.c:912-918 | the first bar of a name, or its end |
| Acl.LastBar | src/acl.c:1142-1149 | the last bar of a name |
| Acl.ReservedUntouched | src/acl.c:658-672 | no rule but +@all and -@all touches the reserved bit |
| Acl.DroppedIsPart | src/acl.c:578-620 | a rule that a different rule makes redundant is about a subcommand or first argument of that rule’s command |
| Acl.DroppedBits | src/acl.c:578-620 | every bit a dropped rule sets or clears, the new rule sets or clears too |
| Acl.DroppedFirst | src/acl.c:578-620 | the same for first arguments |
| Acl.SubNeverAdded | src/acl.c:1133-1196 | subcommands never get first arguments |
| Acl.DropKeepsBit | src/acl.c:578-620 | removing the redundant rules changes no bit the new rule does not decide |
| Acl.DropKeepsFirst | src/acl.c:578-620 | nor any first argument it does not decide |
| Acl.LogAfter | src/acl.c:624-632 | the log after a rule is the kept rules and the new one, and is again well formed |
| Acl.RuleKeepsGood | src/acl.c:1041-1216 | after any accepted rule the bitmap and the first arguments are still what the log says, bit by bit |
| Acl.StepKeepsGood | src/acl.c:1041-1216 | so they are after any operation, accepted or refused |
| Acl.ReplayGood | src/acl.c:784-792 | replaying a well-formed log on top of its first part gives the whole log again |
| Acl.SameLogSameView | src/acl.c:764-817 | two selectors with the same log and start agree on every bit and first argument |
| Acl.LogSplits | src/acl.c:784-787 | the log of a good selector splits into exactly its rules |
| Acl.LogRebuilds | src/acl.c:764-817 | from +@all or -@all, as the reserved bit says, the log rebuilds bitmap, first arguments and log |
| Acl.HistoryIsGood | src/acl.c:1041-1216 | every history of operations without blanks and quotes keeps the selector and its log in step |
| Acl.EveryHistoryRebuilds | src/acl.c:764-817 | after every such history on a new selector the log rebuilds the selector |
| Acl.HarmlessKeepsMissing | src/acl.c:784-792 | replaying rules none of which allows a first argument never allows it |
| Acl.UncleanIsArgument | src/acl.c:1133-1196 | only a first argument can bring a blank or a quote into an accepted rule |
| Acl.LogIsHarmless | src/acl.c:784-787 | no argument such a log splits into allows that first argument again |
| Acl.RebuildsIffClean | src/acl.c:764-817 | an accepted operation leaves a log that rebuilds the selector if and only if it has no blank and no quote |
| Acl.PassesExactly | src/acl.c:764-817 | the assertions and the panic of the rebuild are reached after exactly these accepted operations: a blank or quote in it, and it cannot be split, or a piece is refused, or the pieces change a bit |
| Acl.BlankExample | src/acl.c:764-817 | +select|a b with a table of one command is accepted, does not rebuild and does not pass |
| AclSelector.Selector.constructor | src/acl.c:352-369 | a new selector has no command, no first argument and an empty log |
| AclSelector.Selector.SetCommandBit | src/acl.c:564-573 | one bit changes; clearing it clears the all-commands flag |
| AclSelector.Selector.ResetFirstArgsForCommand | src/acl.c:922-929 | the first arguments of one command are forgotten |
| AclSelector.Selector.ChangeSelectorPerm | src/acl.c:636-650 | the command and all its subcommands get the value; its first arguments are forgotten |
| AclSelector.Selector.SetSubBitsForCategory | src/acl.c:658-672 | exactly the subcommands of the category change |
| AclSelector.Selector.SetCommandForCategory | src/acl.c:658-672 | one command of the table with the category of its subcommands |
| AclSelector.Selector.SetBitsForCategory | src/acl.c:658-672 | over the whole table the loops change exactly the bits of the category |
| AclSelector.Selector.AddAllowedFirstArg | src/acl.c:949-975 | the argument is added once, compared without case |
| AclSelector.Selector.AppendRule | src/acl.c:624-632 | the rule is put behind the log with a separating space |
| AclSelector.Selector.UpdateCommandRules | src/acl.c:624-632 | the buffer holds the log without the redundant rules and with the new one at the end |
| AclSelector.Selector.ResetAll | src/acl.c:1057-1071 | +@all and -@all set every bit, the reserved one included, and forget log and first arguments |
| AclSelector.Selector.ChangeAndLog | src/acl.c:1133-1205 | permission and log change together: of a command its bit and those of its subcommands take the value and its first arguments are forgotten, of a subcommand its bit alone, and no other bit or first argument changes |
| AclSelector.Selector.AllowCommand | src/acl.c:1133-1196 | every branch for "+name", with its error, is the abstract step |
| AclSelector.Selector.DenyCommand | src/acl.c:1197-1205 | every branch for "-name", with its error, is the abstract step |
| AclSelector.Selector.SetCategory | src/acl.c:712-721 | every branch for a category is the abstract step |
| AclSelector.Selector.SetSelector | src/acl.c:1041-1216 | the whole operation on arrays and buffer is the step the rebuild theorems are about, and for every operation: which bits and first arguments change and to what, that no others do, the all-commands flag, which operations are accepted and which error the others get |
| AclMeaning.CategoryBits | src/acl.c:658-672 | the bits of a category are those of its commands with their subcommands and of its own subcommands; only the first arguments of its commands and subcommands are forgotten |
| AclMeaning.EffectObeys | src/acl.c:1133-1205 | "+name", "-name", "+name|sub", "-name|sub", "+@category", "-@category" and "+name|argument" set, clear and add exactly what the command table says, and nothing else |
| AclMeaning.OperationObeyed | src/acl.c:1041-1216 | every operation does what it says or changes nothing, and is refused if and only if it names nothing |
| AclMeaning.TargetObeyed | src/acl.c:636-650 | a command or subcommand that was found: exactly its bits take the value |
| AclMeaning.FlagFollows | src/acl.c:564-573 | the all-commands flag is on if and only if everything was allowed and no bit was denied since |
| AclMeaning.ErrorIs | src/acl.c:1133-1216 | which error each refused operation gets |
| AclSelector.Selector.Started | src/acl.c:764-782 | a fresh selector after +@all or -@all |
| AclSelector.Selector.DescribeCommandRules | src/acl.c:764-817 | neither the assertions nor the panic are reached: no rule is refused and the bitmaps agree; the description is the start and the log |
| AclSelector.ClassifyWithBar | src/acl.c:1142-1196 | the decision for "+command|rest" follows the last bar, the parent and its subcommands as the code tests them |
| AclSelector.CommandIdTable.constructor | src/acl.c:1534-1559 | no name has an id |
| AclSelector.CommandIdTable.GetCommandId | src/acl.c:1534-1559 | a name keeps its id, different names get different ids, none gets the reserved one, and the first 1023 stay below it |
| Blocked.BlockForKeysKeepsInv | src/blocked.c:396-447 | blocking on keys keeps the index, its reference counts, the per-kind counters and the queues in agreement |
| Blocked.BlockKeepsInv | src/blocked.c:74-87 | so does blocking without keys |
| Blocked.UnblockKeepsInv | src/blocked.c:184-215 | so does unblocking |
| Blocked.QueueKeepsInv | src/blocked.c:173-180 | so does queueing for reprocessing, and a client is queued at most once |
| Blocked.SignalKeepsInv | src/blocked.c:484-531 | so does signalling a key |
| Blocked.StartBatchKeepsInv | src/blocked.c:359-367 | so does detaching the ready list |
| Blocked.TakeKeyKeepsInv | src/blocked.c:369-382 | so does taking the next key, which is then no longer marked ready |
| Blocked.ReexecuteKeepsInv | src/blocked.c:674-722 | so does executing a command again, whatever it signals and whether or not it blocks again |
| Blocked.ServeKeepsInv | src/blocked.c:590-626 | so does serving one waiter |
| Blocked.ServeList | src/blocked.c:590-626 | serving a waiter takes its node out of the list and puts it back only at the end, with a newer node |
| Blocked.WaitersDistinct | src/blocked.c:396-447 | no client waits twice for a key |
| Blocked.PassStep | src/blocked.c:590-626 | one visit: what is left of the list to visit is untouched |
| Blocked.PassKeepsShape | src/blocked.c:590-626 | after any number of visits the live list is the kept waiters, the ones still to visit in order, and those that came back |
| Blocked.FreeKeepsInv | src/networking.c:2230-2276 | freeing a client in any state keeps the invariant and takes it out of every list and queue |
| Blocked.NextKeepsInv | src/blocked.c:343-387 | every step of the server keeps the invariant |
| Blocked.RunKeepsInv | src/blocked.c:343-387 | so does every run |
| Blocked.IndexIsTwoWay | src/blocked.c:396-465 | in every reachable state a client is in the list of a key exactly once if the key is its own and not at all otherwise; no list is empty; reference counts are exact |
| Blocked.CountersAreExact | src/blocked.c:74-87 | in every reachable state the counters are the numbers of blocked clients of each kind, and the ready set is exactly the ready keys, each listed once |
| BlockedServer.EntryIsThere | src/blocked.c:544-577 | the two entries the code asserts to exist do exist |
| BlockedServer.ReleaseOneMore | src/blocked.c:451-465 | leaving the lists one by one adds up to leaving all of them |
| BlockedServer.ServerObject.constructor | src/blocked.c:74-87 | an empty server |
| BlockedServer.ServerObject.BlockClientAs | src/blocked.c:74-87 | updates client and counters as the specification says |
| BlockedServer.ServerObject.WaitForKey | src/blocked.c:407-439 | one turn: duplicates skipped, list created when missing, reference count kept |
| BlockedServer.ServerObject.WaitForKeys | src/blocked.c:407-439 | the loop over the keys |
| BlockedServer.ServerObject.BlockOnKeys | src/blocked.c:396-447 | the whole call |
| BlockedServer.ServerObject.ReleaseBlockedEntry | src/blocked.c:544-577 | node unlinked, empty list removed, reference count dropped or removed at zero |
| BlockedServer.ServerObject.LeaveRest | src/blocked.c:451-465 | the loop over the keys in any order ends with all of them left |
| BlockedServer.ServerObject.LeaveOne | src/blocked.c:451-465 | one turn of it |
| BlockedServer.ServerObject.LeaveLists | src/blocked.c:451-465 | the client is in no list afterwards, even if it had left some before |
| BlockedServer.ServerObject.UnblockNow | src/blocked.c:184-215 | unblocking after part of the lists were left is unblocking |
| BlockedServer.ServerObject.UnblockOnKey | src/blocked.c:674-722 | this key first and then the others is the same as all at once |
| BlockedServer.ServerObject.UnblockAndQueue | src/blocked.c:184-215 | counters, lists and queue after unblocking |
| BlockedServer.ServerObject.QueueClient | src/blocked.c:173-180 | queued unless it is already |
| BlockedServer.ServerObject.SignalKey | src/blocked.c:484-531 | the three reasons not to signal, and otherwise exactly one entry |
| BlockedServer.ServerObject.SignalAll | src/blocked.c:484-531 | any number of signals one after the other |
| BlockedServer.ServerObject.ServeWaiter | src/blocked.c:605-624 | a waiter the key is meant for is unblocked, its command run again and the client queued or blocked as that command says; any other waiter, and every other client, stays as it was |
| BlockedServer.ServerObject.ListNext | src/blocked.c:597-605 | the iterator returns the node it stands on and moves to the next live one |
| BlockedServer.ServerObject.VisitNode | src/blocked.c:590-626 | one turn over the live list: the node is live, and the iterator then stands on the next waiter of the start |
| BlockedServer.ServerObject.HandleKey | src/blocked.c:590-626 | the pass over a list that changes under it visits exactly the waiters of the start, once each, in order of blocking; each comes out as ServeWaiter says, the served ones in no list and the others still in that of the key, and no other client changes |
| BlockedServer.ServerObject.RunBatch | src/blocked.c:343-387 | the batch is served to the end with the invariant kept, each of its keys handled in turn as HandleKey says; keys signalled meanwhile wait in the new list, without duplicates |
| BlockedMeaning.BlockedAs | src/blocked.c:396-447 | a client that blocks waits for exactly the given keys, with the given kind, and no other client changes |
| BlockedMeaning.BlockedLast | src/blocked.c:407-439 | it stands last in the list of each of these keys and in no other list, and the deletion counts follow |
| BlockedMeaning.LeavesLists | src/blocked.c:451-465 | a client that is unblocked is in no list; everyone else stays in theirs |
| BlockedMeaning.SignalQueues | src/blocked.c:484-531 | after a signal the key is queued if and only if it was before, or a client of that kind or a module is blocked and someone waits for the key, or for its deletion; no other key, client or list changes |
| BlockedMeaning.WaiterIsSignaled | src/blocked.c:484-531 | a key with a waiter of the signalled kind is queued afterwards |
| BlockedMeaning.ServeOutcome | src/blocked.c:590-626 | one visit: who is unblocked, who blocks again, who is queued, and that nobody else changes |
| BlockedMeaning.PassHandles | src/blocked.c:590-626 | the whole pass: every waiter visited once in order and come out as it should, nobody else changed |
| BlockedMeaning.BatchServes | src/blocked.c:343-387 | a client waiting for any key of a batch, which holds what it waits for and whose command does not block again, is unblocked when the batch is done |
| SlotRanges.CoverOfSort | src/cluster.c:1898-1904 | the order of the ranges does not matter for how often a slot is held |
| SlotRanges.MergeCovers | src/cluster.c:1911-1924 | merging ranges that run forwards keeps the number of times each slot is held |
| SlotRanges.MergeIsMerged | src/cluster.c:1911-1924 | afterwards no two neighbouring ranges touch |
| SlotRanges.NormalizeAccepts | src/cluster.c:1787-1822 | for ranges that run forwards, in any sort order: accepted if and only if not empty, not too many, in range and disjoint |
| SlotRanges.NormalizeIsCanonical | src/cluster.c:1787-1822 | and then the result is the canonical array of the same slots |
| SlotRanges.AcceptedIsCanonical | src/cluster.c:1787-1822 | whatever the input, what is accepted is canonical |
| SlotRanges.AcceptedKeepsSlots | src/cluster.c:1911-1924 | for every accepted input the slots are kept if and only if no range ends more than one before its start |
| SlotRanges.BackwardExample | src/cluster.c:1787-1822 | 2-9 10-5 is accepted as 2-5: the condition is needed |
| SlotRanges.OrderDecides | src/cluster.c:1898-1924 | with backward ranges the verdict depends on how the sort orders equal starts |
| SlotRanges.NeighboursRejected | src/cluster.c:1787-1822 | two ranges with the same start, the first one forwards, are rejected whatever follows them |
| SlotRanges.OrderDoesNotMatter | src/cluster.c:1898-1924 | unless a backward range shares its start with a different range, every order the sort may choose gets the same verdict |
| SlotRanges.CanonicalIsUnique | src/cluster.c:1927-1940 | two canonical arrays of the same slots are the same array |
| SlotRanges.CanonicalIsDisjoint | src/cluster.c:1787-1822 | a canonical array holds no slot twice |
| SlotRangeArray.SlotsAscend | src/cluster.c:2027-2040 | the slots of a canonical array, as iterated, ascend strictly and are exactly the slots held |
| SlotRangeArray.SlotArray.constructor | src/cluster.c:1825-1842 | an array with the given ranges |
| SlotRangeArray.SlotArray.LibrarySort | src/cluster.c:1911-1924 | the array holds the order the library sort chose |
| SlotRangeArray.SlotArray.SortAndMerge | src/cluster.c:1911-1924 | the in-place result is the merge of the sorted ranges |
| SlotRangeArray.MergeInPlace | src/cluster.c:1911-1924 | the two-index loop over one array computes the merge |
| SlotRangeArray.MergeOne | src/cluster.c:1911-1924 | one turn keeps what the rest of the merge will give |
| SlotRangeArray.MarkRange | src/cluster.c:1813-1819 | marking a range succeeds if and only if no earlier range holds one of its slots |
| SlotRangeArray.CheckRanges | src/cluster.c:1787-1822 | the loops over ranges and slots answer exactly: in range, forwards and disjoint |
| SlotRangeArray.SlotArray.NormalizeAndValidate | src/cluster.c:1787-1822 | accepts exactly what the specification accepts and then holds the merge |
| SlotRangeArray.SlotArray.IsEqual | src/cluster.c:1927-1940 | equal if and only if the merged arrays are |
| SlotRangeArray.EqualIffSameSlots | src/cluster.c:1927-1940 | for valid arrays that is: if and only if they hold the same slots |
| SlotRangeArray.SlotArray.Append | src/cluster.c:1954-1984 | appending a later slot adds exactly that slot and keeps the array canonical, growth included |
| SlotRangeArray.SlotArray.Contains | src/cluster.c:1987-1992 | true if and only if the slot is held |
| SlotRangeArray.SlotIterator.constructor | src/cluster.c:2018-2024 | stands on the first slot |
| SlotRangeArray.SlotIterator.Next | src/cluster.c:2027-2040 | one slot further, or -1 for ever |
| SlotRangeArray.ToString | src/cluster.c:1845-1857 | the printed form the lemmas below read back |
| SlotRangeArray.PrintedRangeReads | src/cluster.c:1861-1896 | a printed pair of any two numbers up to the largest signed 64-bit one is read back modulo 65536 |
| SlotRangeArray.PrintReads | src/cluster.c:1861-1896 | a printed array of 16-bit ranges is read back |
| SlotRangeArray.PrintParse | src/cluster.c:1845-1896 | printing, parsing and normalising a canonical array returns it |
| SlotText.ReadsExactly | src/cluster.c:1874-1878 | a number is read if and only if it is how a signed 64-bit number is printed, and as that number |
| SlotText.ParsesExactly | src/cluster.c:1861-1896 | a text is read if and only if it is a list, with one space between, of two such numbers around a dash, the first not negative; the ranges are the numbers modulo 65536 |
| ClusterRoute.GetNodeByQuery | src/cluster.c:1197-1450 | each answer is given if and only if its condition on the key set and the slot holds: served, moved to the owner, asked to the target of a migration, delayed, trimming, refused while down, across slots or without owner |
| ClusterRoute.Decide | src/cluster.c:1360-1450 | the same conditions, from exact counts of missing and existing keys |
| ClusterRoute.RouteAnswers | src/cluster.c:1197-1450 | the conditions are exhaustive and exclude each other: every request gets the one answer whose condition holds |
| ClusterMigration.SourceRoutes | src/cluster.c:1390-1407 | the source of a migration serves if and only if all keys are there, asks the target if and only if none is, and otherwise delays |
| ClusterMigration.TargetRoutes | src/cluster.c:1409-1422 | the target serves an asking client if and only if it names one key or has all of them, and otherwise delays it; a client that does not ask is sent to the source |
| ClusterMigration.NextKeepsInv | src/cluster.c:454-792 | every step of clients, source, target and network keeps the invariant, and the source never gains a key |
| ClusterMigration.RunKeepsInv | src/cluster.c:454-792 | so does every run |
| ClusterMigration.SafeInEveryRun | src/cluster.c:454-792 | in every reachable state: no new key at the source, redirected commands name only keys that are gone, and a key is at both nodes only after a copy or an unread reply |
| ClusterMigration.NoKeyLost | src/cluster.c:661-714 | no step makes a key disappear from both nodes, except a client command that names it |
| ClusterMigration.StepRefines | src/cluster.c:1390-1422 | each step of a run of acknowledged transfers is one client command on a single data set, or invisible |
| ClusterMigration.StepKeepsClean | src/cluster.c:661-714 | such steps leave no key at both nodes |
| ClusterMigration.RunRefines | src/cluster.c:454-792 | so a whole run is the client commands executed on a single data set |
| ClusterMigration.MigrationIsTransparent | src/cluster.c:454-792 | from the start of a migration: clients see what one node would have shown them, and between transfers no key is at both nodes |
| ClusterMigration.GiveUpDuplicates | src/cluster.c:707-743 | after an abandoned transfer the keys at both nodes are exactly those taken, unread and still at the source |
| ClusterMigration.CleanIsTransparent | src/cluster.c:454-792 | from every clean state every settled continuation refines one data set |
| ClusterMigration.DuplicateRevives | src/cluster.c:707-743 | a key at both nodes is back after its client deleted it |
| ClusterMigration.LateRestoreRevives | src/cluster.c:707-743 | from every state with a RESTORE still under way, its key can come back after its client deleted it, at the source or after a redirection at the target |
| ClusterMigration.CopyRevives | src/cluster.c:661-714 | a MIGRATE with COPY of a key that is there ends transparency |
| ClusterMigration.GiveUpRevives | src/cluster.c:707-743 | so does a transfer given up with a key under way, or taken, unread and still at the source |
| ClusterMigration.TransparentIffSettled | src/cluster.c:454-792 | exactly: from a clean state the continuations after a step refine one data set if and only if the step is none of those |
| ClusterMigration.FirstUnsettledStep | src/cluster.c:454-792 | the same for the first such step of any run from the start of a migration |
| ClusterMigration.AbandonedIsReachable | src/cluster.c:454-792 | every key of the slot can be under way when its transfer is given up |
| ClusterMigration.RepliesAreSteps | src/cluster.c:661-714 | the reply loop leaves at the source what as many ReadReply steps leave as replies arrived before the first socket error |
| ClusterMigration.TransferMoves | src/cluster.c:454-792 | a MIGRATE whose steps all go well: every named key that was at the source is at the target with its value, and only there; no other key moves |
| ClusterMigration.MigrateSource.constructor | src/cluster.c:454-470 | the data of the source |
| ClusterMigration.MigrateSource.ReadReplies | src/cluster.c:661-714 | exactly the acknowledged keys leave the source and are propagated as DEL, in order, up to the first socket error; with COPY none; both error flags are exact |
| Popcount.BlockIsPop | src/bitops.c:53-62 | the nested macros give the number of ones of each index |
| Popcount.TableIsCount | src/bitops.c:53-62 | the 256 entries of the byte table are right |
| Popcount.FirstStep | src/bitops.c:124-144 | the first mask step leaves the counts of bit pairs |
| Popcount.SecondStep | src/bitops.c:124-144 | the second the counts of nibbles |
| Popcount.ThirdStep | src/bitops.c:124-144 | the third the counts of bytes |
| Popcount.SwarIsLanes | src/bitops.c:124-144 | the three steps together, for every word |
| Popcount.LanesAdd | src/bitops.c:124-144 | the multiplication and shift add the four lanes as long as the sum stays below 256 |
| Popcount.SevenWords | src/bitops.c:110-145 | seven words at a time count exactly their ones, since no lane overflows |
| Popcount.RedisPopcount | src/bitops.c:67-152 | head, 28-byte blocks and tail count the ones of the string at any alignment |
| BitRange.MaskValues | src/bitops.c:1660-1667 | the edge masks are the arithmetic expressions of the code |
| BitRange.SplitBytes | src/bitops.c:1660-1667 | the bytes a bit range touches are the bits before it, the range and the bits after it |
| BitRange.CountBits | src/bitops.c:1690-1711 | whole bytes less what the masks select is the number of ones in the bit range |
| BitRange.Clamp | src/bitops.c:1654-1659 | negative and too large indexes |
| BitRange.WindowIs | src/bitops.c:1654-1659 | a position is in the converted range if and only if its index lies between the two indexes, negative ones counting from the end |
| BitRange.RangeBeforeString | src/bitops.c:1654-1659 | a range that ends before the string selects exactly its first byte or bit |
| BitRange.WindowCounts | src/bitops.c:1690-1711 | the count over the range is the number of set positions in it |
| BitRange.Bitcount | src/bitops.c:1617-1712 | the reply is the number of set bits whose byte or bit index lies between start and end, for all start and end; a last index before the string still selects the first unit |
| Bitpos.LoadWord | src/bitops.c:442-450 | the last word: the bytes in order, then zeros |
| Bitpos.RedisBitpos | src/bitops.c:392-477 | the first position of the bit; for a set bit -1 if there is none, for a clear bit the length |
| Bitpos.FindFrom | src/bitops.c:1825-1851 | the search after a masked first byte |
| Bitpos.FindMasked | src/bitops.c:1805-1852 | the search with both edge bytes masked |
| Bitpos.SearchedIsRange | src/bitops.c:1805-1852 | what is searched is the range with uninteresting bits around it |
| Bitpos.ResultOfRange | src/bitops.c:1805-1852 | so the answer is the first position in the range, -1, or the end of the string |
| Bitpos.PositionIsFirst | src/bitops.c:1715-1853 | no earlier position of the range has the bit, and the reply is a position if and only if one has |
| Bitpos.BitposCommand | src/bitops.c:1715-1853 | the reply is the first position in the range with that bit; without one it is -1, or the end of the string for a clear bit with no end given; the missing key included |
| Bitfield.SetBitfield | src/bitops.c:500-518 | the field holds the low bits of the value and no other bit changes, across byte borders |
| Bitfield.GetUnsigned | src/bitops.c:520-532 | the number the field’s bits stand for |
| Bitfield.GetSigned | src/bitops.c:534-554 | the same in two’s complement, 64 bits included |
| Bitfield.UnsignedExact | src/bitops.c:579-614 | overflow is reported if and only if the exact sum is out of range; wrap is the sum modulo the width and saturation the bound on its side |
| Bitfield.SignedExact | src/bitops.c:616-669 | the same for signed fields of 1 to 64 bits, with 64-bit wrap-around written out |
| Bitfield.SignedWraps | src/bitops.c:649-667 | the mask arithmetic is two’s complement truncation |
| Bitfield.ReadsBack | src/bitops.c:500-554 | every value in range is read back as it was stored |
| Bitfield.OutcomeFits | src/bitops.c:1987-2067 | every result of an overflow policy fits the field |
| Bitfield.IncrBy | src/bitops.c:1987-2067 | INCRBY replies with the exact policy result, the field then reads as the reply, FAIL changes nothing, and no other bit changes |
| Bitfield.SetUnderflowExample | src/bitops.c:616-669 | SET i1 -2^63 with saturation stores 0, the maximum |
| Bitfield.SetUnderflow | src/bitops.c:616-669 | SET below the range is an underflow if and only if a 64-bit difference does not wrap; otherwise saturation stores the maximum |
| Crc64.ReflectReverses | src/crc64.c:75-103 | the six swaps are exactly bit reversal |
| Crc64.ReflectLinear | src/crc64.c:75-103 | reflection distributes over exclusive or |
| Crc64.ReflectShift | src/crc64.c:75-103 | reflection turns a left shift into a right shift |
| Crc64.CrcBitByBit | src/crc64.c:113-136 | the nested loops compute the register function; the result, reflected, is the remainder of the message polynomial, lowest bit of each byte first and moved up by 64, divided by x^64 plus the polynomial |
| Crc64.Turn | src/crc64.c:119-129 | one bit of it |
| Crc64.BitsDivide | src/crc64.c:113-136 | the bits that leave the register are the quotient of that division and the register its remainder |
| Crc64.RegisterIsRemainder | src/crc64.c:113-136 | the register is a remainder of the message, and the only word that is |
| Crc64.SentAt | src/crc64.c:114-119 | bit j of byte i is the (8i+j)-th bit sent |
| Polynomials.MulAdd | src/crc64.c:113-136 | multiplication of polynomials over GF(2) distributes over addition |
| Polynomials.RemainderIsUnique | src/crc64.c:113-136 | a division has only one remainder below the degree of the divisor |
| CrcCheck.StepIs | src/crc64.c:118-129 | a turn on 64-bit vectors is a turn on the bits |
| CrcCheck.CheckValue | src/crc64.c:270-271 | the CRC of "123456789" is 0xe9c6d914c4b8d9ca, the value the self-check of the source expects |
| Crc64.ReflectedTurn | src/crc64.c:118-132 | a turn, seen through reflection, moves the register on as if by a zero bit |
| Crc64.TurnsKeepDifference | src/crc64.c:118-132 | the difference of two registers moves on as if by zero bits, whatever the input |
| Crc64.DataKeepsDifference | src/crc64.c:113-136 | the same over any data |
| Crc64.RegisterAppends | src/crc64.c:113-136 | processing two blocks in a row is processing their concatenation |
| Crc64.CrcOfConcatenation | src/crc64.c:113-136 | the CRC of a concatenation depends on the two CRCs and the second length alone |
| CrcCombine.SwitchSumsSelectedColumns | src/crccombine.c:47-112 | the sixteen-way switch adds exactly the columns its four bits select |
| CrcCombine.FourColumns | src/crccombine.c:47-112 | so four columns at a time is the matrix product |
| CrcCombine.Times | src/crccombine.c:47-112 | the loop, which stops when no bit is left, is the matrix product |
| CrcCombine.ProductAppends | src/crccombine.c:47-112 | a matrix right on single bits appends zeros to any word |
| CrcCombine.SquaredAppends | src/crccombine.c:172-177 | squaring doubles the zeros appended |
| CrcCombine.OneBitAppends | src/crccombine.c:192-212 | the first matrix appends one zero bit |
| CrcCombine.Combiner.constructor | src/crccombine.c:192-212 | an empty cache |
| CrcCombine.Combiner.SquareRow | src/crccombine.c:172-177 | one row becomes the square of another and no other row changes |
| CrcCombine.Combiner.FirstRow | src/crccombine.c:192-201 | row 1 holds the matrix of one zero bit |
| CrcCombine.Combiner.Init | src/crccombine.c:192-212 | every row appends its power of two of zero bits |
| CrcCombine.Combiner.AppendZeroBytes | src/crccombine.c:235-245 | one matrix per bit of the length appends exactly that many zero bytes |
| CrcCombine.Combiner.Combine | src/crccombine.c:225-250 | the result, with the cache built on first use and reused after |
| CrcCombine.CombineJoins | src/crccombine.c:225-250 | combining the CRCs of two blocks gives the CRC of their concatenation, for every length below 2^64 |
| Bio.SubmitKeepsInv | src/bio.c:181-189 | submitting keeps order, counters and the completion list right |
| Bio.ProcessKeepsInv | src/bio.c:281-360 | so does processing the first job outside the lock |
| Bio.RemoveKeepsInv | src/bio.c:362-368 | so does removing it |
| Bio.NextKeepsInv | src/bio.c:281-368 | so does every step of submitters, workers, drain and event loop |
| Bio.RunKeepsInv | src/bio.c:281-368 | so does every interleaving |
| Bio.OrderInEveryRun | src/bio.c:181-189 | in every reachable state each worker’s finished jobs followed by its queue are its submissions in order, and the counters are exact |
| Bio.CallbacksComeAfter | src/bio.c:416-445 | a completion callback is made only after every job submitted to that worker before it was removed |
| Bio.AnsweredOnce | src/bio.c:416-445 | no completion request is answered twice |
| Bio.DrainIsComplete | src/bio.c:383-391 | a drain returns if and only if the queue is empty, and then everything submitted is finished and none is running |
| Bio.NobodySleepsForever | src/bio.c:383-391 | with jobs queued the worker can go on; with none, a waiting drain has been woken |
| BioQueues.SubmitIsStep | src/bio.c:181-189 | submitting on the queues is the Submit step of the threads, whichever thread the signal reaches |
| BioQueues.RemoveIsStep | src/bio.c:362-368 | removing the first job is the Remove step of every reachable state |
| BioQueues.CompletionsAreSteps | src/bio.c:416-445 | reading the completions is one TakeList step and a Callback step for each response |
| BioQueues.JobQueues.constructor | src/bio.c:59-67 | empty queues |
| BioQueues.JobQueues.SubmitJob | src/bio.c:181-189 | the job is last in the queue of its own worker and its counter follows |
| BioQueues.JobQueues.RemoveFirst | src/bio.c:362-368 | the first job leaves and its counter follows |
| BioQueues.JobQueues.PendingJobsOfType | src/bio.c:372-380 | the counter is the number of queued jobs of that kind |
| BioQueues.JobQueues.ReadCompletions | src/bio.c:416-445 | the list is taken over whole and called back in order |
| Chk.XorTwice | src/chk.c:169-171 | exclusive or with the same number twice gives the number back |
| Chk.AltIsInverse | src/chk.c:169-171 | the alternate index of the alternate index is the index |
| Chk.LooksAtHome | src/chk.c:173-186 | a lookup looks at a place for its fingerprint if and only if the place is at home with the item |
| Chk.MovedIsAtHome | src/chk.c:248-281 | moving an entry to its alternate bucket keeps the items that find it |
| Chk.HeaviesUpdate | src/chk.c:248-281 | writing one place exchanges one heavy entry for another |
| Chk.FoundIffFinds | src/chk.c:196-234 | scanning two buckets finds an entry if and only if some heavy entry is at home with the item |
| Chk.Keeper.constructor | src/chk.c:173-186 | empty tables |
| Chk.Keeper.Put | src/chk.c:248-281 | the multiset of heavy entries changes by the two entries exchanged |
| Chk.Keeper.Smallest | src/chk.c:262-275 | an empty position, or one of the smallest count; none exactly when every count is the largest number |
| Chk.Keeper.Displace | src/chk.c:258-279 | one move: the entry takes an empty position of its alternate bucket if there is one, and else that of a smallest entry, which it displaces |
| Chk.Keeper.Kickout | src/chk.c:248-281 | the chain of displacements keeps every heavy entry, with the items that find it, except at most one, in at most sixteen moves; a light entry is dropped at once and nothing moves; with room in the alternate bucket a heavy one is placed and nothing is dropped; anything dropped before the sixteenth move is light |
| Chk.Keeper.ScanBucket | src/chk.c:196-234 | finds the fingerprint if and only if it is there, and otherwise room if there is any |
| Chk.Keeper.CheckHeavyEntries | src/chk.c:196-234 | an entry of the item is always found and grows; otherwise the first free place is taken; nothing else changes |
| Chk.Keeper.TryPromoteAndKickout | src/chk.c:286-328 | the promotion is refused if and only if both counts of the bucket are above the new count and the draw is lost, and then nothing happens; with room nothing is lost; otherwise the item takes the place and count of a smallest entry, where lookups find it, the lobby entry is cleared and at most one other entry is lost |
| Chk.StillFound | src/chk.c:248-281 | after a displacement every item still finds its entry unless it is the one dropped |
| Chk.RaisedCount | src/chk.c:75-105 | raising a count leaves a heap in order but for that place |
| Chk.SiftStep | src/chk.c:75-105 | one move down keeps that and the elements |
| Chk.SmallerChild | src/chk.c:81-84 | a child of the smallest count |
| Chk.SiftDown | src/chk.c:89-104 | the loop restores the heap and keeps its elements |
| Chk.HeapifyDown | src/chk.c:75-105 | so does the whole call |

## Left out

- AofRewrite.AlwaysRecoverable: for `aof-load-truncated yes` and commands without MULTI; flushes that leave a gap, rewrites that start with a buffer left over and late directory-fsync failures are excluded there and characterised in AofFailures.
- AofRewrite.NothingBufferedNothingLost: the same exclusions.
- AofFailures.GapRefusesRestart: the file ends with a whole command; inside a command the outcome depends on the bytes, as GapInsideCommand shows.
- AofFailures.RestIsDoubled: the old file ends with a whole command; otherwise the new file starts inside one.
- AofFailures.LateOpenContinues: follows feeds and flushes, not further rewrites.
- AofRewrite.CrashKeepsInv: a crash keeps everything written to files; losing unsynced pages in a power failure is not modelled.
- AofFlush.AofWriter.FlushAppendOnlyFile: the fsync scheduling after a complete write and the replication offset it records are not modelled.
- AofFlush.RunKeepsLaw: files without O_APPEND are covered until the first short write that is taken back; what follows is FlushKeepsLawExactly.
- AofSelect.NextKeepsInv: a forced flush at a rewrite start that leaves entries behind is excluded; LeftoverGoesToNewFile says exactly what happens then.
- AofLoad.LoadFile: RDB preambles, read errors other than the end of the file, old single-file layouts and the progress reports are not modelled; timestamp annotations are read but not written.
- AofLog.ReadEncoded: at most 2^31-1 arguments of at most 2^63-1 bytes, where the C conversions are defined.
- AofManifest.ManifestObject.constructor: the text format of the manifest file is not modelled; a manifest is its list of files.
- Acl.EveryHistoryRebuilds: operations without blanks and quotes; RebuildsIffClean shows that nothing more can be promised.
- Acl.RebuildsIffClean: embedded NUL characters are excluded; after a rule with a blank the text of the log is not followed further, only bits and first arguments are.
- AclSelector.Selector.SetSelector: key and channel patterns, passwords and users are not modelled; a log that already holds a blank is excluded; the bitmap is an array of bits instead of 64-bit words.
- AclSelector.CommandIdTable.GetCommandId: uniqueness holds for any number of names, the bound below the reserved bit for the first 1023.
- BlockedServer.ServerObject.RunBatch: one batch of ready keys; the outer loop that starts the next batch is a sequence of steps in Blocked.RunKeepsInv, since commands may signal for ever.
- Blocked.ReexecuteKeepsInv: what a command does is any list of signals and at most one new block; a command that frees its own client, module callbacks, timeouts and reply contents are not modelled.
- SlotRangeArray.SlotArray.SortAndMerge: qsort is any order sorted by start; the theorems hold for each of them.
- SlotRangeArray.SlotArray.Append: creating the array for the first slot is the constructor.
- SlotRangeArray.SlotIterator.constructor: for ranges that run forwards, which is what validation accepts.
- ClusterRoute.GetNodeByQuery: keys, slot map and node state are given; extraction of keys from arguments, EXEC queues, scripts and the module no-redirect flag are not modelled.
- ClusterMigration.MigrationIsTransparent: one slot between two nodes, without expiry; COPY and transfers given up with keys under way or unread are what TransparentIffSettled shows to break it.
- ClusterMigration.MigrateSource.ReadReplies: the socket cache, AUTH and SELECT replies and the retry of the whole command are not modelled.
- Popcount.RedisPopcount: the popcnt, AVX2, AVX-512 and NEON variants are not modelled.
- BitRange.Bitcount: parsing of arguments is not modelled.
- Bitpos.BitposCommand: the parsing of arguments is not modelled.
- Bitfield.IncrBy: the string is already long enough; growing it, GET past its end and the replies of SET are not modelled.
- Bitfield.UnsignedExact: values inside the field; a value of SET above it is reported as overflow by the same branch.
- Crc64.ReflectReverses: 64-bit words, the only width the server uses.
- CrcCombine.CombineJoins: the table-driven crcspeed variants are not modelled.
- Bio.NobodySleepsForever: one drain per worker at a time.
- Chk.Keeper.Kickout: counts below 2^64-1, the value the code uses as a sentinel; Smallest states what happens at it.
- Chk.Keeper.TryPromoteAndKickout: the random choice is a parameter; decay probabilities and error bounds of the sketch are not modelled.
- Chk.HeapifyDown: that every update of the top-k list goes through it is not modelled.
- BITOP, HyperLogLog, streams, replication, sentinel, scripting and the event loop are not modelled.
