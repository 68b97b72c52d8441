# A model of Scambio

Scambio keeps message directories ("mdirs"): lists of append-only journals of
versioned ADD and REM patches.  A server replicates them to clients; a client
applies the patches it receives, shows its own local patches until the server
has versioned them, and builds views, a file synchroniser, transfers, access
control and mail gateways on top.

The loops of the source that change fields, files and lists in place are
methods here (of classes where the source has an object), each proved equal to
a function of the old state; the theorems are about those functions and about
runs of state machines made of them.

| file | what it holds |
|---|---|
| `Headers.dfy` | the text of headers: folding, parsing, printing, numbers in fields |
| `Journals.dfy` | log and index bytes of one journal, and the entries they stand for |
| `Mdirs.dfy` | the list of journals as one flat sequence; `mdir_patch` and the reading loops |
| `Loading.dfy` | journal files found in any order make the same list |
| `Marks.dfy` | marks threaded through the index as disjoint lists, the index being written in place |
| `Replication.dfy` | server, subscription, network and client as a step system; safety in every run |
| `Confluence.dfy` | delivery in any order, convergence, and when a client is stuck |
| `Reader.dfy` | the client's patch list and the server's subscription, changed in place |
| `Uploads.dfy` | commands for local patches and the count of pending acks |
| `Views.dfy` | message lists kept from a cursor, against a listing from scratch |
| `HandOver.dfy` | from the local copy of a patch to its central version, in every run |
| `Merefs.dfy`, `FileSync.dfy`, `SyncRounds.dfy` | three-way file synchronisation: one file, one round, two rounds |
| `Paths.dfy` | the path buffer of its traversal, in place, against the traversal that is meant |
| `Auth.dfy` | membership by alias, permissions |
| `Channel.dfy` | blocks, chunks and fragments of a file transfer |
| `Commands.dfy` | command lines tokenised in place, answers and queries read back |
| `Base64.dfy` | the encoder of the forwarder, the decoder of the SMTP daemon |
| `Calendar.dfy` | dates brought into range, their order, the sorted event list |

Strings and files are sequences of characters or bytes, the error stack is a
result value, and a digest stands for a content.

## What the code does not do

Each of these comes with the condition under which the code does keep its
promise, exact unless the line says otherwise.

- A field whose name is blank is read, and lost when the header is printed and read again: a header comes back if and only if it is normal (`Headers.RoundTrip`, `Headers.Redump`, `Headers.BlankNameLost`).
- A value goes on over a line end that a blank or a tab follows (`Headers.Unfolds`), but not over a carriage return and a line feed: the first ends the value, the second the header (`Headers.CarriageReturnEnds`).
- A session converges if and only if the client's list was empty at its start and no patch sent has a mark on a version that does not exist (`Confluence.Convergence`).  Such a mark makes `mdir_patch` fail after its append and is never taken from the list (`Confluence.DanglingMarkBlocks`, `Confluence.DanglingMarkStops`); a patch from before the last version blocks it as well (`Confluence.StaleBlocks`, `Confluence.StuckForever`).
- A journal file that starts inside another is refused; one that reaches into the next is not (`Loading.RefusedExactly`, `Loading.OverlapMissed`).
- Both copies of a local patch stay in the view if and only if the local one had been listed and its PATCH came before the ack of its own PUT (`HandOver.HandOverExact`, `HandOver.LateAckShowsBoth`).
- A local copy that was listed stays in the view after an update if and only if no update, this one included, saw its central version as a live addition with its local version (`HandOver.StaleExactly`).  Once that version is applied it stays for ever if and only if in addition it is not such an entry now: it was removed, or its ack came late (`HandOver.StaleForever`); a message acked, applied and removed between two updates is an example (`HandOver.RemovedUnseenStays`).
- An answer orphans exactly the commands sent after the one it answers, or all if it answers none, whose query is more than 20 seconds old (`Uploads.OrphanedExactly`, `Uploads.LateAnswerDrops`); their files are never sent again and patches are held back for ever (`Uploads.OrphanForever`).
- The number of a query is sent with 7 characters at most, so that it is read back if and only if it is below 10^7 (`Commands.SeqReadsBack`, `Commands.TenMillionCut`); from there on no command is ever answered (`Uploads.CutNumberNeverAnswered`).
- A view is right if and only if no addition that was alive when listed says that `-v` was its local version for a version `v` before it that is still visible (`Views.IncrementalView`, `Views.FreshView`, `Views.NegativeLocalIdHides`).
- A listed file whose path has a hidden component is created by one round of merefs and retracted from the server by the next (`SyncRounds.ThenQuiet`, `SyncRounds.HiddenNameRetracted`).
- The traversal of merefs writes names in a space computed from the size of a pointer: every directory and file is visited under its own path if and only if the root has more than 8 characters or no path has more than 7; else none of the longer ones is ever visited (`Paths.WalkExact`).  With the root `/sync` the files `a` and `ab` are both worked on as `a`, without error (`Paths.ShortRoot`); if `a` was in sync the second time unlinks it (`Paths.WorkTwice`).  From then on every round stops at `ab`, and once that is gone too the next round that ends well retracts `a` from the server (`Paths.ThenRetracted`).
- A local content is lost by a round that ends well if and only if its file clashed and a listed file of another content was created over its backup, with no fault and no change from outside (`FileSync.SettledKeeps`, `FileSync.BackupOverwritten`).  A round that stops loses what was so spoiled before, and at the stop an edit whose rename failed and whose removal did not, or a backup unlinked for a file that could not be linked (`FileSync.Syncer.Round`, `Merefs.OutcomeKeeps`, `Merefs.EditLost`).
- An edit against a removal ends every round with an error (`Merefs.OutcomeSettles`), and a file edited on the server and removed locally is retracted from it (`Merefs.RemoteEditsKept`).
- Under a tag that the search counter had 2^32 searches ago, names entered then are not gone into; under the tag 0, names not read yet are not (`Auth.Directory.IsInGroup`).
- Offsets of chunks are sent as 32-bit numbers: a file is received whole if and only if its last chunk starts below 2^32 (`Channel.TransferExact`).
- A hole is seen in front of a fragment if and only if that fragment was not looked at for longer than the time-out (`Channel.OldGapKept`).
- Once the first chunk to arrive is the one at 0, holes are never seen, and the end mark is thanked for as soon as it arrives (`Channel.HolesNeverSeen`, `Channel.ThankedEarly`).
- Surplus arguments come back as written if and only if single spaces are between them (`Commands.TrailingExact`).
- Words behind a last argument that is a number stay: the command has more arguments than its definition allows (`Commands.SurplusWords`).
- The date comparison is not antisymmetric: midnight is before the same day without time, which is not after it (`Calendar.CompareIsOrder`, `Calendar.MidnightAgainstDay`).
- Where a write to a file opened for appending is appended whatever its offset, as on Linux and by the `pth_pwrite` of GNU Pth that `WriteTo` calls (commons/misc.c:104), replacing a mark misplaces every later record (`Journals.AppendedEntryMisplaced`): lib/jnl.c:115 opens the index so.  All theorems on marks are about positional writes.

## Model

| member | source | states |
|---|---|---|
| Headers.Parse | lib/header.c:223-260 | the token ends at the first delimiter; it is the text with white space runs folded and trimmed; an unended string is an error |
| Headers.CompactFolds | lib/header.c:234-249 | the folded text is compact and has the same words, in order |
| Headers.ParseField | lib/header.c:277-291 | one field, an empty name ending the header and a missing value being an error |
| Headers.HeaderParse | lib/header.c:293-309 | the fields up to the first blank line, error or end, after those already there |
| Headers.HeaderDump | lib/header.c:386-398 | the printed text |
| Headers.ReadsBackField | lib/header.c:277-291 | a tidy printed field, whatever follows it that does not continue the line, is parsed to itself and used up exactly |
| Headers.Unfolds | lib/header.c:262-291 | a value goes on over every line end that a blank follows, and over no other: it is what its lines joined are |
| Headers.UnfoldsField | lib/header.c:262-291 | a tidy field is read back however its value is cut into lines before blanks |
| Headers.TwoLines | lib/header.c:272-275 | the value on two lines, by a blank or a tab |
| Headers.CarriageReturnEnds | lib/header.c:262-275 | what follows a line ended by both characters is not read |
| Headers.ParsedTidy | lib/header.c:223-309 | every field parsed from any text is compact, lower-case in its name and free of delimiters |
| Headers.RoundTrip | lib/header.c:293-398 | parsing what is printed gives the header back if and only if its fields are normalised with non-empty names |
| Headers.Redump | lib/header.c:293-398 | for arbitrary input, printing and parsing again changes nothing if and only if no parsed name is empty |
| Headers.BlankNameLost | lib/header.c:277-309 | a field with a blank name is parsed and then lost |
| Headers.VersionReadsBack | lib/mdir.c:830-843 | every version printed is read back |
| Headers.ReadsNumber | lib/mdir.c:838-843 | a number behind white space and a sign, up to the first character that is no digit; none without a digit |
| Headers.TypesByField | lib/header.c:428-437 | the first "sc-type", in any case, tells directories and marks |
| Headers.TargetsByField | lib/mdir.c:513-522 | what a header targets and marks, by its first "sc-type" and "sc-target" |
| Headers.TagKeeps | mdsyncc/reader.c:191-196 | adding a local version to a header leaves its type, target and mark target alone |
| Journals.LogSplits | lib/jnl.c:217-230 | the log of a concatenation is the concatenation of the logs |
| Journals.RecordAt | lib/jnl.c:202-215 | offsets strictly increase, and the bytes between two of them are the record of that index |
| Journals.BlankInPlace | lib/jnl.c:242-256 | writing one byte at the offset of an entry blanks it and moves no other |
| Journals.Jnl.OffsetSize | lib/jnl.c:202-215 | offset and size of the record at an index, the last one by the length of the log |
| Journals.Jnl.Patch | lib/jnl.c:217-230 | appends the record and its index entry, returns the new version |
| Journals.Jnl.PatchBlank | lib/jnl.c:258-269 | the same for a blank record |
| Journals.Jnl.MarkDel | lib/jnl.c:242-256 | only an addition or a blank entry can be blanked; all others are as they were |
| Journals.Jnl.ReplaceLastMark | lib/jnl.c:232-240 | swaps the mark of one index entry in place and returns the old one |
| Journals.AppendedEntryMisplaced | lib/jnl.c:115-240 | were the entry appended instead, the next record would not be where its index entry says |
| Journals.Jnl.Read | lib/jnl.c:275-305 | from the bytes alone: the action and header of the entry, or nothing if blank, and an error exactly when the header's text is not parsed without one |
| Journals.PatchReadsBack | lib/jnl.c:217-305 | a patch with a normal header reads back with that action and header, and without error |
| Journals.BlankedReads | lib/jnl.c:275-305 | a blanked record reads as nothing, without error, whatever its text; a name without value is an error otherwise |
| Journals.ReadsHistory | lib/jnl.c:202-305 | after any sequence of patches, blank patches and deletions, index i reads the i-th appended patch unless a deletion took it |
| Journals.Replay | lib/jnl.c:217-269 | the journal built by such a sequence of calls is the one the history stands for |
| Mdirs.Mdir.LastVersion | lib/mdir.c:814-819 | the last version is the length of the flat sequence |
| Mdirs.Mdir.LastJnl | lib/mdir.c:431-441 | a journal with room at the end, a new one exactly when there is none or the last is full; the flat sequence does not change |
| Mdirs.Mdir.FindJnl | lib/mdir.c:443-450 | a journal holding the version, or none exactly when it does not exist |
| Mdirs.Mdir.InsertBlankPatches | lib/mdir.c:452-460 | so many blank entries at the end, across journals |
| Mdirs.Mdir.ReadAt | lib/jnl.c:275-305 | what a journal reads is what the flat sequence holds at that version |
| Mdirs.Mdir.PrepareRem | lib/mdir.c:462-481 | refused unless the target is an addition or gone; else it is blanked, and marks stay |
| Mdirs.Mdir.Thread | lib/mdir.c:548-554 | links the new version in front of its target's marks, and fails exactly on a mark without target |
| Mdirs.ThreadedByField | lib/mdir.c:548-554 | by the fields of the header: a mark goes in front of those of its target, any other header links nothing |
| Mdirs.DanglesByField | lib/mdir.c:548-551 | by the fields of the header: which marks have no target |
| Mdirs.Mdir.Patch | lib/mdir.c:524-558 | the whole new sequence and mark index, the version returned, and exactly when it fails; by its fields, a mark becomes the first of its target's and any other header leaves the index alone |
| Mdirs.Mdir.GetNextVersion | lib/mdir.c:298-316 | the next version and its journal, or none exactly past the end |
| Mdirs.Mdir.ReadNext | lib/mdir.c:319-332 | the first entry after a version that is not blank |
| Loading.Insert | lib/jnl.c:120-135 | where the scan of the list puts a journal, or the overlap it detects |
| Loading.RefusedExactly | lib/jnl.c:124-130 | a journal file is refused if and only if it starts where another does or inside it |
| Loading.PlacedInOrder | lib/jnl.c:124-135 | all others go after the files that start before them |
| Loading.OverlapMissed | lib/jnl.c:126-130 | one that reaches into the next is taken |
| Loading.LoadAnyOrder | lib/jnl.c:101-144 | contiguous journal files read in any order make the same sorted list |
| Marks.MarkLists | lib/mdir.c:548-554 | following last_mark from a version that is not a linked mark terminates and visits exactly the marks whose root it is, once each |
| Marks.PathUnique | lib/mdir.c:548-554 | from one version there is one such list |
| Marks.ListsDisjoint | lib/mdir.c:548-554 | lists of two versions that are not marks have nothing in common |
| Marks.IndexFollowsPatch | lib/mdir.c:524-558 | what `mdir_patch` leaves in the index files is the index of the headers appended, skipped versions included |
| Replication.ApplyKeeps | mdsyncc/reader.c:222-240 | applying a message gives exactly its version, never misses a removal's target, and keeps the replica invariant |
| Replication.RunKeeps | mdsyncd/queries.c:117-175 | in every run of server steps, sends, deliveries, acks and resets the invariants hold |
| Replication.ReplicaSafety | mdsyncc/reader.c:222-240 | in every run, whatever the order, delay or duplication, a client version is the server's entry up to a local version, or blank because the server's is |
| Replication.CaughtUp | mdsyncc/reader.c:222-240 | when the last versions are equal, the journals are, entry for entry |
| Replication.HeldBack | mdsyncc/reader.c:222-240 | while an ack is pending a received patch only joins the list; else nothing more at its head can be applied |
| Replication.SubscribeGoesBack | mdsyncd/sub.c:77-81 | in every run, subscribing again leaves a subscription where it is or moves it back to the version asked for |
| Replication.LiveSent | mdsyncd/sub.c:119-129 | in every run, since a subscription to a version all live versions above it that were passed were sent, and all there are once it is caught up |
| Replication.SentIsServed | mdsyncd/sub.c:107-117 | a message sent carries the entry the server has |
| Replication.SubscriptionProgress | mdsyncd/sub.c:102-129 | behind a journal that is not empty there is a patch to send; it raises the subscription, never past the last, and skips removed versions only |
| Confluence.AnyOrder | mdsyncc/reader.c:198-240 | every permutation of a chain of patches, with acks between, leaves no patch waiting and the journal of in-order application |
| Confluence.Convergence | mdsyncc/reader.c:222-264 | in every run: a session that starts at the client's last version and delivers each patch sent once, in any order, while the server appends, removes and sends, ends with an empty list if and only if the list was empty at its start and nothing sent dangles; then the journals are the same |
| Confluence.NothingApplied | mdsyncc/reader.c:224-229 | with an ack pending at each delivery, nothing is applied and every patch waits |
| Confluence.OneDelivery | mdsyncd/sub.c:119-129 | a session as above: one submission, sent and delivered |
| Confluence.SendsFormChain | mdsyncd/sub.c:119-129 | between two resets the patches sent form one chain |
| Confluence.StuckForever | mdsyncc/reader.c:232 | a patch from before the last version at the head of the list is never removed and nothing more is applied |
| Confluence.StaleBlocks | mdsyncc/reader.c:232-239 | an old duplicate is such a patch |
| Confluence.DanglingMarkBlocks | mdsyncc/reader.c:232-239 | whatever else arrives, a patch with a mark without target is never taken from the list |
| Confluence.DanglingMarkStops | lib/mdir.c:548-554 | its turn come it is appended all the same, whatever the gap before it, and nothing more is applied |
| Reader.InsertSorted | mdsyncc/reader.c:198-207 | after the patches that start no later |
| Reader.TagNormal | mdsyncc/reader.c:191-196 | a tagged header is still printed and read back unchanged |
| Reader.SyncedMdir.AddPatch | mdsyncc/reader.c:179-208 | tags the header with its local version, forgets the mapping, and inserts in order |
| Reader.SyncedMdir.SearchMap | mdsyncc/c2l.c:41-48 | the first mapping of a central version |
| Reader.SyncedMdir.ApplyFirst | mdsyncc/reader.c:232-238 | one turn of the loop, on journal files |
| Reader.SyncedMdir.Apply | mdsyncc/reader.c:222-240 | nothing changes while acks are pending, else what the step system's client does |
| Reader.SyncedMdir.PatchService | mdsyncc/reader.c:255-264 | receiving a message is the client step of the system, on journal files, which stay as they are while acks are pending |
| Reader.SyncedMdir.FinalizePutRem | mdsyncc/reader.c:97-144 | an ack with status 200 remembers the mapping; every ack counts down |
| Reader.Subscription.ResetVersion | mdsyncd/sub.c:77-81 | the version is at most the old one and the one asked for, and one of the two |
| Reader.Subscription.NeedsPatch | mdsyncd/sub.c:102-105 | behind the last version |
| Reader.Subscription.SendNextPatch | mdsyncd/sub.c:119-129 | the message of the step system, and the version it leaves |
| Uploads.RunKeeps | mdsyncc/writer.c:51-96 | in every run the pending acks are the commands under way, at most one a file, each for a file still there |
| Uploads.HeldBackExactly | mdsyncc/writer.c:70-92 | patches are held back exactly while some file waits for its answer, and a scan leaves no file without command |
| Uploads.AnswerEnds | mdsyncc/reader.c:80-116 | an answer to a query under way ends its command, and the file stays on a status from 300 to 399 only; any other answer ends nothing |
| Uploads.OrphanForever | lib/cnx.c:65-77 | a command whose query was dropped stays for ever, and so does the hold |
| Uploads.RetrievedKeeps | lib/cnx.c:65-77 | a query stays in the list if and only if it is not the one answered and is not an old one before it |
| Uploads.OrphanedExactly | lib/cnx.c:65-77 | which commands an answer orphans: those whose query comes before the one answered and is more than 20 seconds old |
| Uploads.LateAnswerDrops | lib/cnx.c:65-77 | one late answer does that to a query sent a second after its own |
| Uploads.CutNumberNeverAnswered | include/scambio/cmd.h:114-118 | a command numbered 10^7 or above is never answered, as answers carry the number sent |
| Uploads.Uploader.LsTransients | mdsyncc/writer.c:62-94 | the scan is one request for each file without a command |
| Uploads.Uploader.CommandGetByPath | mdsyncc/command.c:89-98 | the first command of that keyword and path |
| Uploads.Uploader.CommandNew | lib/cnx.c:80-111 | a fresh number, and a query and a command that keep it |
| Uploads.Uploader.QueryRetrieve | lib/cnx.c:60-78 | found and taken out, with the old ones passed on the way |
| Uploads.Uploader.Finalize | mdsyncc/reader.c:97-144 | the command goes whatever the status; the file stays only on a 3xx |
| Views.CentralListExact | lib/mdir.c:616-662 | listing from an index keeps the list equal to the visible versions so far, less the removed ones and those a negative local version takes away |
| Views.IncrementalView | lib/mdir.c:616-662 | however updates and patches interleave, what the list holds after an update, when it is right and when it is the one of a fresh cursor, each with its exact condition |
| Views.FreshView | lib/mdir.c:643-654 | a listing from scratch is right if and only if no live addition says that `-v` was its local version for a version visible before it |
| Views.IncrementalEqualsFresh | lib/mdir.c:616-662 | with local versions that are not negative, the list is the visible versions, once each, in order, and the same as from a fresh cursor |
| Views.NegativeLocalIdHides | lib/mdir.c:643-654 | an addition that does |
| Views.ShownByField | lib/mdirc.c:103-132 | which headers stay out of the list, by their first "sc-type" |
| Views.CursorStops | lib/mdir.c:633-660 | the cursor ends at the last entry that is not removed, or stays |
| Views.Mdirc.RemMsg | lib/mdirc.c:74-101 | the first message of that version goes, the count with it |
| Views.Mdirc.AddMsg | lib/mdirc.c:103-132 | directories and marks are not top-level messages; others go to the end, counted |
| Views.Mdirc.ListEntry | lib/mdir.c:634-658 | one entry: callbacks, and the cursor moved unless it is blank |
| Views.Mdirc.SynchListing | lib/mdir.c:616-662 | the loop over journals is the listing of the flat sequence from the cursor |
| Views.Mdirc.TransientListing | lib/mdir.c:679-709 | the files of `.tmp` newer than the cursor was at the start, in directory order |
| Views.Mdirc.Update | lib/mdir.c:755-772 | journals first, then local patches |
| HandOver.RunKeeps | mdsyncc/reader.c:80-116 | what relates local numbers, acks, received patches, journal and view, in every run |
| HandOver.AcksEnd | mdsyncc/reader.c:80-116 | in every run, what each kind of ack does to the count, the file and the map of versions |
| HandOver.WaitsForAcks | mdsyncc/reader.c:224-229 | in every run, nothing that arrives is applied as long as a command waits for its ack |
| HandOver.HandOverExact | mdsyncc/reader.c:191-196 | after any update both copies are shown exactly when the local one had been listed and its PATCH came before its ack; else a visible central one alone, and before it the local one alone |
| HandOver.LateAckShowsBoth | mdsyncc/reader.c:222-240 | a run that shows both: sent, accepted, received, acked, and applied with the next patch |
| HandOver.StaleExactly | lib/mdir.c:633-654 | in every run, after any update: which local copies are still there, by what the updates so far saw of their central versions |
| HandOver.StaleForever | lib/mdir.c:633-654 | when the central version is applied, exactly when the local copy stays in every continuation |
| HandOver.RemovedUnseenStays | lib/mdir.c:633-654 | a run that gets there: listed, sent, accepted, acked, received, removed |
| Merefs.BackupName | merefs/local.c:124-133 | the shifting loop hides the last component of the path |
| Merefs.BackupHidden | merefs/local.c:206-215 | the traversal never comes across a backup |
| Merefs.BackupInjective | merefs/local.c:124-133 | two files never share a backup name |
| Merefs.OneRoundAgrees | merefs/local.c:159-201 | whatever local, map and remote digests were, they agree once a round and its patches are done; three that agree ask for nothing |
| Merefs.RemoteEditsKept | merefs/local.c:159-272 | a remote edit survives if and only if the file was not removed locally |
| Merefs.OneSidedChange | merefs/local.c:159-272 | a change, creation or removal on one side alone becomes the state of the other |
| Merefs.OutcomeKeeps | merefs/local.c:120-202 | with any combination of faults the content stays, is the one last in sync, or is in the backup, except in exactly one case |
| Merefs.OutcomeSettles | merefs/local.c:146-202 | without error the effect is the agreed one; without fault it fails exactly on edit against delete, or on a version not yet central |
| Merefs.BackupsByDigest | merefs/local.c:146-202 | without fault, by digests alone: when a backup is made, and when work on a file ends in an error |
| Merefs.FaultsByDigest | merefs/local.c:44-144 | by digests alone: which work each fault stops, and what is then at the path and its backup |
| Merefs.EditLost | merefs/local.c:193-196 | the case that loses an edit |
| FileSync.Syncer.RemoteIsMaster | merefs/local.c:44-78 | file and map entry from the resource; a failed link leaves no file |
| FileSync.Syncer.Resource | merefs/local.c:86-99 | a known content is not uploaded again; either way the resource holds it |
| FileSync.Syncer.LocalIsMaster | merefs/local.c:80-118 | advertises the digest with a resource holding it, retracts the old version |
| FileSync.Syncer.Conflict | merefs/local.c:120-138 | the file moved over any earlier backup; on failure the earlier backup is gone all the same |
| FileSync.Syncer.RemoveLocalFile | merefs/local.c:140-144 | an error if it is not there |
| FileSync.Syncer.MatchListed | merefs/local.c:159-188 | the branches with a remote file have the outcome of the decision, faults included |
| FileSync.Syncer.MatchUnlisted | merefs/local.c:189-201 | so do those without |
| FileSync.Syncer.MatchLocalFile | merefs/local.c:146-202 | tree, next map, lists and patches after one local file |
| FileSync.Syncer.TraverseLocalPath | merefs/local.c:205-252 | all visible files, in any order, or a stop: the names done, the one it failed on and why, and exactly what it lost |
| FileSync.Syncer.CreateOne | merefs/local.c:260-273 | an unmatched file is created, or retracted if the map knows it |
| FileSync.Syncer.CreateUnmatchedFiles | merefs/local.c:255-274 | all of them, in any order, or such a stop |
| FileSync.Syncer.RemoveRemoteFile | merefs/readmdir.c:39-48 | by version; its content stays known |
| FileSync.Syncer.AddRemoteFile | merefs/readmdir.c:58-82 | one file a name, the last one |
| FileSync.Syncer.ReadMdir | merefs/readmdir.c:88-91 | the list after all that the listing reports |
| FileSync.Syncer.Round | merefs/merefs.c:105-113 | the whole state after a round that ends well; on an error the old map, the names done, and the name it stopped at with the fault or the block behind it; either way exactly which local contents are lost |
| FileSync.SettledKeeps | merefs/local.c:120-138 | after a round that ends well a content is lost if and only if its file clashed and a listed file of another content was created over its backup |
| FileSync.SettledSaves | merefs/local.c:159-188 | after a round that ends well a file was saved if and only if both files differ from the record and, without one, from each other; else its backup path is as it was |
| FileSync.SameLeftAlone | merefs/local.c:159-188 | a file equal to the listed one, without record or with the same, is left alone and asks for nothing |
| FileSync.BackupOverwritten | merefs/local.c:255-274 | a round that does that |
| SyncRounds.ListedPointwise | merefs/readmdir.c:39-82 | what is listed under a name after any reported sequence |
| SyncRounds.Converges | merefs/merefs.c:101-117 | from any state, a round that ends well and whose patches are read back in any order leaves local tree, map and listed files in agreement on every name |
| SyncRounds.ThenQuiet | merefs/merefs.c:101-117 | the next round changes no file, and asks for nothing if and only if no hidden path is listed; then nothing but a local file that cannot be read can stop it |
| SyncRounds.HiddenNameRetracted | merefs/local.c:260-272 | a hidden listed file is created, then retracted |
| Paths.Print | merefs/local.c:218-224 | the buffer after a name is written behind a path: what its text then is |
| Paths.ScanOpenedDir | merefs/local.c:205-235 | the loop over the entries, the buffer cut, written and restored in place |
| Paths.TraverseDirRec | merefs/local.c:237-243 | the directories opened and files worked on, in order, by the paths in the buffer |
| Paths.TraverseLocalPath | merefs/local.c:246-252 | the same from the root, for any file system |
| Paths.WalkExact | merefs/local.c:205-252 | it is the traversal that is meant if and only if the root is longer than a pointer or every path is shorter; below a short root no longer path is visited at all |
| Paths.HonestVisits | merefs/local.c:205-235 | the one that is meant, ending well, works on exactly the files that are there without a hidden component or a link on the way |
| Paths.HonestOnce | merefs/local.c:205-235 | and visits nothing twice |
| Paths.ShortRoot | merefs/local.c:224-231 | two files of a short root are worked on as the first of them; without that one the traversal stops |
| Paths.WorkTwice | merefs/local.c:146-192 | a file in sync that is worked on twice is unlinked, and stays in the map |
| Paths.ThenRetracted | merefs/local.c:269-272 | a file gone here, in the map and listed is retracted by a round that ends well |
| Auth.SearchSound | commons/auth.c:112-127 | from any tags, a search says yes, no or unknown with a reason, and on no everything it entered leads nowhere else |
| Auth.MembershipIsReachability | commons/auth.c:112-138 | no if and only if neither the user, "*", nor a name without file is reachable; unknown only if a name without file is; when none is, yes if and only if the user or "*" is |
| Auth.FirstMetCounts | commons/auth.c:112-138 | of the names met depth first and in alias order, the first decisive one decides: the user or "*" for a yes, a name without file for the caller's answer to doubt, none for a no |
| Auth.FirstRuleDecides | commons/auth.c:140-154 | the first field that has something to say decides |
| Auth.RuleMeaning | commons/auth.c:145-151 | a grant is backed by reachability, a refusal by reachability or doubt |
| Auth.HeaderDecides | commons/auth.c:140-159 | the first field of the header that has something to say is final; only where none has, the default decides |
| Auth.DenyAll | commons/auth.c:140-178 | a header that denies reading to everybody overrides the default, except for members of "admin" |
| Auth.DefaultPermissions | commons/auth.c:196-209 | without permissions everyone reads, and only members of "admin" write |
| Auth.Directory.Load | commons/auth.c:83-100 | the graph of aliases does not depend on what was read before |
| Auth.Directory.IsInGroupRec | commons/auth.c:112-127 | terminates on every graph; the search with tags is the search with a set of names |
| Auth.Directory.IsInGroup | commons/auth.c:129-138 | the result for any tag: names seen under it are not gone into, which are none until the counter wraps |
| Auth.Directory.CheckFields | commons/auth.c:142-154 | the loop over the fields, exact while the counter does not wrap |
| Auth.Directory.CheckUserPerms | commons/auth.c:140-159 | the header, then the default, then a refusal |
| Auth.Directory.CanAdmin | commons/auth.c:161-164 | by the fields for administration |
| Auth.Directory.CanRead | commons/auth.c:166-171 | by those for reading, or as administrator |
| Auth.Directory.CanWrite | commons/auth.c:173-178 | by those for writing, or as administrator |
| Channel.Sender.SendChunk | lib/channel.c:377-391 | one chunk, marked as the end only if nothing is left of an end fragment |
| Channel.Sender.SendAllChunks | lib/channel.c:393-399 | all chunks of a fragment, at least one |
| Channel.Sender.StreamPush | lib/stream.c:46-74 | all blocks of the file, in order, and no more after the one with the end |
| Channel.PiecesCover | lib/stream.c:55-62 | consecutive pieces of at most a chunk cover the file, the empty one too, with the end mark on the last alone |
| Channel.Transfer.InsertByOffset | lib/channel.c:238-253 | before the first fragment that starts later |
| Channel.Transfer.CheckInFrags | lib/channel.c:647-678 | the merging loop, for any fragments and times |
| Channel.Transfer.StreamWrite | lib/stream.c:190-198 | the data at its offset, the file cut at the end mark |
| Channel.Transfer.ServeCopy | lib/channel.c:699-749 | one chunk received, thanks if everything from 0 to an end mark is one fragment |
| Channel.NextFragment | lib/channel.c:647-749 | an interval from 0 and its next chunk make an interval from 0, thanked for exactly at the end mark |
| Channel.WrittenBytes | lib/stream.c:190-198 | byte for byte: the data at its offset, what was there elsewhere, zeros in a hole |
| Channel.StoredBytes | lib/stream.c:190-198 | the file is cut at the end mark, and only there |
| Channel.FirstChunk | lib/channel.c:699-749 | the first chunk to arrive is thanked for if and only if it is the whole file |
| Channel.OldGapKept | lib/channel.c:651-664 | a chunk before the one fragment received is kept apart from it if and only if there is a gap and the time-out has passed |
| Channel.TransferExact | lib/channel.c:377-749 | over an in-order channel the received file is the one sent, whatever was stored before, if and only if the last chunk starts below 2^32; then it is thanked for once, by the last chunk |
| Channel.AnyGapMerged | lib/channel.c:651-664 | one fragment from 0 and any chunk after it make one fragment from 0, whatever the gap and the time |
| Channel.HolesNeverSeen | lib/channel.c:699-749 | in every order in which the chunk at 0 comes first, what was received is one fragment from 0 |
| Channel.ThankedEarly | lib/channel.c:740-748 | an end mark past all that was received is thanked for at once |
| Commands.Tokenize | lib/cmd.c:90-106 | for any buffer: the maximal runs that some delimiter ends, each cut off in place, up to 64 |
| Commands.Glue | lib/cmd.c:60-67 | a space before every token from the last kept one on |
| Commands.ReadsTrailing | lib/cmd.c:60-67 | the last argument read from the buffer: its token and those after it, as far as one delimiter is between them |
| Commands.TrailingExact | lib/cmd.c:60-67 | that is the line as it was if and only if single spaces were between them |
| Commands.BuildCmd | lib/cmd.c:54-82 | number and type of the arguments, surplus ones swallowed, integers transcoded |
| Commands.Choose | lib/cmd.c:138-147 | the first definition of that keyword that the sign of the number admits |
| Commands.ParseLine | lib/cmd.c:123-148 | the line means what its tokens mean |
| Commands.AnswersOnly | lib/cmd.c:138-146 | negative numbers reach answer definitions only, positive ones the others only |
| Commands.ReadsBases | lib/cmd.c:108-115 | a number in base 16, 8 or 10, by its prefix and in either case, is read, with or without a sign, and cut to 64 bits |
| Commands.NotNumbers | lib/cmd.c:108-115 | a character that is no digit of the base makes it no number |
| Commands.NotHexadecimal | lib/cmd.c:108-115 | the same behind the hexadecimal prefix |
| Commands.WhatIsSeq | lib/cmd.c:117-121 | which first words are numbers |
| Commands.ChosenFirst | lib/cmd.c:138-147 | the definition found is the first that suits, and none is found exactly if none suits |
| Commands.SurplusWords | lib/cmd.c:60-67 | surplus words go into a last argument that is a text; behind one that is a number they stay |
| Commands.AnySpacing | lib/cmd.c:85-106 | words spaced by any mix of blanks, tabs and line ends are the tokens of the line |
| Commands.AnswerPrefix | lib/cnx.c:237-249 | the number in front of an answer, none for a query without |
| Commands.NumberReadsBack | lib/cmd.c:108-115 | a printed number is read back by strtoll with base 0 if and only if it fits 64 bits |
| Commands.SeqReadsBack | include/scambio/cmd.h:114-118 | the number of a query is read back if and only if it is below 10^7 |
| Commands.TenMillionCut | include/scambio/cmd.h:114-118 | 10^7 is sent as 1000000 |
| Commands.LineReadsBack | lib/cmd.c:90-148 | a line of fewer than 64 single-spaced words means what the words say, the last argument being the rest of the line |
| Commands.AnswerReadsBack | lib/cnx.c:237-249 | an answer is read back with its number, status and whole text, by an answer definition |
| Commands.QueryReadsBack | lib/cnx.c:80-111 | a numbered query is understood as the number sent, which is its own if and only if below 10^7, and what its definition makes of the words |
| Commands.PlainQueryReadsBack | lib/cnx.c:80-111 | a query without number, with what its definition makes of the words |
| Commands.ParameterOfWords | lib/channel.c:385-388 | several words given as one parameter are words all the same |
| Base64.TablesAgree | sendmail/forwarder.c:199-211 | the decoder's table inverts the encoder's |
| Base64.Alphabet | sendmail/forwarder.c:199-211 | the letters are those of RFC 2045, in order |
| Base64.LettersOnly | smtpd/parse.c:121-133 | a byte has a value if and only if it is one of them |
| Base64.ShortGroups | sendmail/forwarder.c:199-211 | groups of one, two and three bytes, missing bits being 0 |
| Base64.SendFile | sendmail/forwarder.c:216-234 | groups of four, a line break before the group that would fill the line |
| Base64.EncodedFits | sendmail/forwarder.c:228-232 | no line is longer than 76 characters, though the counter may be a group behind |
| Base64.DecodeBase64 | smtpd/parse.c:134-164 | the byte loop, on any text |
| Base64.Accepts | smtpd/parse.c:139-152 | a text is accepted if and only if its paddings come last and are two at most, other characters being passed over |
| Base64.NoiseIgnored | smtpd/parse.c:142-148 | characters that are no letters and no padding may stand anywhere |
| Base64.RoundTrip | smtpd/parse.c:119-165 | decoding what the encoder wrote gives the file back, for every file (section 6.8 of RFC 2045) |
| Calendar.MonthDays | lib/timetools.c:119-128 | 28 to 31 days |
| Calendar.DaysOfMonths | lib/timetools.c:114-128 | the months of 30 and of 31 days, and the leap years |
| Calendar.Make | vadrouille/cal_date.c:31-61 | terminates; from day 1 on the fields are in range and the absolute minute is the one asked for, hours above 23 staying as the mark of no time |
| Calendar.CompareIsOrder | vadrouille/cal_date.c:211-227 | positive if and only if strictly later; negative if and only if strictly earlier, or midnight against the same day without time |
| Calendar.MidnightAgainstDay | vadrouille/cal_date.c:218-223 | that is not antisymmetric |
| Calendar.Events.Insert | vadrouille/calendar.c:47-63 | after all events that start no later and before all others; the list stays sorted |
| Calendar.Events.ForEachBetween | vadrouille/calendar.c:292-312 | the early break visits exactly what a full filter would, in order |
| Calendar.BetweenIsOverlap | vadrouille/calendar.c:297-309 | for a range that starts with a time the filter is overlap by the minute |

## Left out

- Directory links, transient directory names and permission files of `mdir_link`, `mdir_unlink` and `mdir_confirm_add`: effects on the file system outside the journals.
- `varbuf_read_line` (commons/varbuf.c:104), which drops a carriage return before a line feed: the texts here are what `header_parse` is given.
- Sockets, threads, locks, mapped memory and configuration: reads and writes are atomic and complete, and I/O errors of journal files do not occur.
- Journals.Jnl.ReplaceLastMark: the write to the index file is positional, as the source means it; lib/jnl.c:115 opens that file for appending.
- Widths of versions (64 bits), of skipped versions (`unsigned`) and of buffers: numbers are unbounded except chunk offsets and the search counter.
- More than one client: clients do not interact, so the step system has one.
- Messages with a header that already has a local version: `ls_transients` strips it (mdsyncc/writer.c:81-86).
- Journals whose only file is empty, and a subscription with a negative version on an empty journal, for which the server would send a header it does not have.
- Marks attached to messages in a view, failed patches of `.err` and status fields: they change no list modelled here.
- Mdirs.Mdir.PrepareRem: without the unlinking of a directory target and its failure.
- Mdirs.Mdir.Patch: without the links of directories and the permission files, and their failures.
- Mdirs.Mdir.ReadNext: the parse error that `Mdirs.Mdir.ReadAt` tells is not passed on, here and in the other loops that read; tidy headers have none.
- Uploads.Uploader.LsTransients: files that could not be read or sent are left out of the scanned order.
- Uploads.Uploader.CommandNew: what is printed of the number is `Commands.SeqText`.
- Channel.Sender.StreamPush: one reader, and no wait for the thanks after the end.
- Channel.Transfer.CheckInFrags: the retransmission requests it sends.
- Channel.Transfer.StreamWrite: forwarding to the stream's own readers.
- `retransmit_missed`, `serve_miss`, `serve_skip`, time-outs of sent fragments and live streams with several readers: nothing answers a miss.
- Time-outs of connections and the queries of other services: they only take numbers.
- Quoted-printable, multipart splitting and the SMTP sessions.
- The GTK views, the MIME table, and the digest, uuid and regex libraries.
- Reader.SyncedMdir.AddPatch: asks for a normal header, as `Reader.SyncedMdir.PatchService` does; one with a blank field name would be stored and read back without that field.
- Reader.SyncedMdir.PatchService: asks for a version above the previous one, which the source asserts, and for a normal header, which every parsed one with non-empty names is.
- Reader.SyncedMdir.FinalizePutRem: the local file and the error report are in `Uploads.Uploader.Finalize`.
- Loading.LoadAnyOrder: files that overlap or leave gaps are left to `Loading.RefusedExactly`.
- Auth.Directory.CheckFields: says nothing once the search counter wraps, as `Auth.Directory.CheckUserPerms` does.
- Auth.Directory.CanAdmin: the same.
- Auth.Directory.CanRead: the same.
- Auth.Directory.CanWrite: the same.
- Auth.Directory.CheckUserPerms: says what is decided while the search counter does not wrap; past that each search is as `Auth.Directory.IsInGroup` says.
- The map file of merefs (`map_load`, `map_save`): the map stays in memory between rounds.
- FileSync.Syncer.Round: the reading of the directory before it is `FileSync.Syncer.ReadMdir`; the resource of every listed file is taken to hold the content of its digest, as that of every advertised one is proved to; a copy made where no hard link can be is the link; lists are maps by name and the directory gives each file once; names of listed files are paths the file system does not rewrite (no "..", no double slash), and a file never stands where a directory is asked for, which would be one of the faults.
- FileSync.Syncer.ReadMdir: versions of listed files are distinct, as those of a directory are.
- Confluence.Convergence: old messages still on their way when a session starts are not delivered in it; one from before the last version would block the client, as `Confluence.StaleBlocks` says.
- HandOver.RunKeeps: a PATCH received again while the first of its version still waits in the list; one received again after it was applied is in the runs, and is never applied.
- Channel.HolesNeverSeen: the thread that sweeps the received fragments between arrivals too (lib/channel.c, `tx_checker`).
- FileSync.Syncer.TraverseLocalPath: every visible file is taken to be visited under its own path, once, as by `Paths.HonestVisits` and `Paths.HonestOnce`; the source does so for the roots and paths of `Paths.WalkExact`.
- Paths.TraverseLocalPath: for pointers of 8 bytes, a root without trailing slashes, which the source trims from its length, and directories that do not change meanwhile; a path that would not end within 4096 characters stops the model, the source having no check for it; failures of the work on a file are in `FileSync.Syncer.TraverseLocalPath`.
- SyncRounds.ThenQuiet: for the roots and paths of `Paths.WalkExact`, as `SyncRounds.Converges`.
- SyncRounds.Converges: for the roots and paths of `Paths.WalkExact`, below others a file may be missed or worked on twice; a patch asked for is listed under one version; that its local version is later replaced by a central one with the same content is the subject of `HandOver`.
- Commands.ParseLine: with 64 tokens or more the source goes on with a negative count, and a definition without arguments reads a type before its table; the first is the result TooMany, the second takes no surplus.
- Commands.SeqReadsBack: for pointers of 8 bytes, whose size is the one given to `snprintf`.
- Commands.AnswerReadsBack: an answer longer than the 512 bytes of the reply buffer is not modelled.
- Base64.DecodeBase64: for the character 123 the source reads one entry past its table; it is passed over here.
- Calendar.Make: fields are unbounded, so a day or a year does not wrap; a day 0 is left as it is.
- Calendar.Events.ForEachBetween: the end of the range is a valid date.
