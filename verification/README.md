# Automatic, verified

A Dafny model of *Automatic*, the RSS torrent downloader, with proofs about its four
hardest parts. The model keeps the form of the C code: globals and structs are class
fields, buffers are arrays with index loops, and each routine is proved against a
specification whose properties are then proved for all inputs and all runs.

| files | what they model |
|---|---|
| `MwChain`, `MwWalk`, `MwStats`, `MemWatch` | the MEMWATCH allocation tracker: its chain of control blocks, the integrity check, the self-repair, counters, statistics, allocation limit, last-freed ring |
| `LinkedList`, `Bucket`, `StateFile`, `History`, `Daemon` | the heap list, the bounded download history and its state file, feed passes, the main loop and its signal handler |
| `ConfigLexer`, `ConfigRoundTrip`, `SubOptions`, `Continuation` | the configuration tokenizer, a printer it inverts, and the sub-option splitter that joins continued lines |
| `Base64`, `UrlCode`, `StringUtils`, `RegexReplace`, `Receive` | the codecs and buffer builders |
| `Wrappers`, `CStrings` | options, bytes, C strings and white space, shared by the others |

`dafny verify dfyconfig.toml` checks everything.

## How the program is represented

- MEMWATCH memory is a map from addresses to control blocks. An address is safe
  (`mwIsSafeAddr`, `mwIsReadAddr`) exactly when it is in the map, so links can be overwritten
  with anything. The C library's malloc succeeds and returns any address not in use.
- Regular expressions, HTTP transfers, parsed feeds, `set_option`, the configuration file
  read by a reload and the answer to a submission are oracles: values or functions every
  proof quantifies over.
- A signal may arrive between any two steps of the main loop; one handler call runs to its
  end before anything else happens.
- Sequences `chain` and `spine` are ghost views of the linked blocks and list nodes.
- Whatever a routine and its proofs share (constants, tables, specification functions) is also
  stated without it, as numbers, texts or laws: `AlphabetIsTheTable`, `ItemIs`, `TrimKeepsMiddle`,
  `ChecksumIsBitwise`, `LineKinds` and others of their kind.

## What turned out not to hold in general

- `mwRelink` reports success exactly when no block is no-man's-land: its count of the chain
  includes such blocks, the counter it compares with does not. The repair itself is complete
  either way (`TrashAndRelink`, `RepairReportedAsPartial`). The file label survives once per-module statistics are kept.
- `mwIsOwned` disowns a block it has just repaired if some block is no-man's-land, and takes a
  block whose links both lead to itself for undamaged (`TrashAndAsk`).
- The searches of `mwRelink` do not end when they come back to where they started
  (`WalkNeverEndsExactly`), as from a head that leads to itself both ways (`SelfLinkCircles`);
  the repair is modelled on all other graphs.
- The size estimate of `base64_encode` wraps around: of the lengths whose encoding fits 32
  bits, the eleven largest, from 3221225459 on, get a buffer that is too small
  (`EstimateSufficesExactly`, `EstimateWraps`). `base64_decode` writes its terminator one byte
  behind its buffer exactly when three characters are left over (`RoomSufficesExactly`,
  `ThreeCharactersOverflow`).
- A quoted sub-option that is continued but ends with the quote that opens its next line
  reaches `parseSubOption` as an empty line, on which the assertion there ends the program
  (`LoneQuotesAbort`, `AbortsExactly`, `ParameterAbortsExactly`).
- An item whose identifier is missing or empty is never recorded and is submitted in every
  pass (`ForgottenExactlyWithoutIdentifier`). An identifier with a newline or of more than
  2046 bytes does not come back from the state file as it was (`RoundTripExactly`,
  `SubmissionIsDurable`, `NewlineSplitsEntry`). After a restart the item is then submitted
  again, unless its URL is among the pieces that come back instead
  (`ResubmittedAfterRestart`, `TwoLineGuid`). Runs without such submissions are exactly those
  in which the state file stays in step (`CrashConsistentExactly`).
- `removeLast` leaves the caller of a one-node list with a dangling head (`RemoveLast`).
- After a placeholder the substitution code copies the next character unread, so `\1\2` does
  not expand the second reference (`AdjacentReferencesFail`). `AgreesExactlyWhenSettled` says
  for which templates the code and the documented meaning agree. A bad reference can go
  unnoticed the same way (`BadReferenceOverlooked`). An empty expansion becomes
  NULL, because `am_strdup` makes it so.
- A redirect after body bytes, or an announced length that does not cover them, loses bytes or
  the terminator of the receive buffer; every other header line keeps both (`WriteHeader`,
  `LateRedirectLosesBytes`).
- `addToHead` and `addToTail` return -1 on NULL data; their comment says 1.

## Model

| member | source | states |
|---|---|---|
| MemWatch.Tracker.IsHeapOK | src/memwatch.c:1900-1921 | on any link graph, cyclic or damaged, the check ends; with a head it accepts exactly the graphs that hold a doubly linked list from head to tail containing the requested block, and with no head it accepts exactly when no block is asked for |
| MwWalk.FailingBlockRefutes | src/memwatch.c:1904-1916 | a block that fails one of the tests rules out every possible chain, wherever on the walk it is met |
| MwChain.PathIsShort | src/memwatch.c:1904-1916 | a walk whose every step is confirmed by the link back visits no block twice, so it is no longer than the memory |
| MwChain.ChainUnique | src/memwatch.c:1896-1917 | a graph holds at most one chain from its head |
| MemWatch.Tracker.TrashAndRelink | src/memwatch.c:1606-1711 | whatever one block's prev, next and check are overwritten with, the repair brings back the original chain, links and checksum, touches no other block, and returns 1 exactly when no block is flagged NML |
| MemWatch.RepairReportedAsPartial | src/memwatch.c:1873-1887 | one release into no-man's-land is enough for a complete repair to return 0 |
| MemWatch.Tracker.Relink | src/memwatch.c:1606-1711 | the repair ends on every graph on which its two searches do not come back to their start, changes the given block only, and heals single-block damage |
| MemWatch.Tracker.VerifyRepair | src/memwatch.c:1862-1890 | the closing check aborts exactly on a broken heap; on a whole one it returns 1 exactly when as many blocks are linked as are counted live, and gives up the size of the repaired block exactly when the sizes then do not add up |
| MemWatch.Tracker.RepairFromHead | src/memwatch.c:1630-1653 | with only that block damaged, the forward search restores its prev |
| MemWatch.Tracker.RepairFromTail | src/memwatch.c:1665-1688 | with only that block damaged, the backward search restores its next |
| MwWalk.SearchFindsDamage | src/memwatch.c:1637-1648 | the search meets intact links only, until it stands at the true predecessor of the damaged block |
| MwWalk.WalkNeverEndsExactly | src/memwatch.c:1637-1648 | the search goes on for ever exactly when the head lies on a cycle of confirmed links that avoids the block under repair |
| MwWalk.SelfLinkCircles | src/memwatch.c:1637-1648 | a head that leads to itself both ways is such a start |
| MwWalk.NothingBeforeEnds | src/memwatch.c:1637-1648 | it ends when nothing precedes the head |
| MwWalk.BackSearchFindsDamage | src/memwatch.c:1672-1683 | the same from the tail, by mirroring every link |
| MwChain.HealingRestoresChain | src/memwatch.c:1658-1698 | with its true neighbours written back into the damaged block, the blocks form the original chain again |
| MemWatch.Tracker.RestoreInfo | src/memwatch.c:1705-1710 | checksum recomputed; the label is kept when a module record of that file exists and replaced otherwise |
| MemWatch.RelabelMeans | src/memwatch.c:1705-1709 | the label becomes <relinked> unless there is none or some module record has its file |
| MemWatch.Tracker.IsOwned | src/memwatch.c:1923-1983 | on a linked heap it answers whether the address is a block and changes nothing; where the two links of that block alone were overwritten, it repairs them unless they are accepted, and answers as the repair came out; otherwise it touches that block only |
| MemWatch.Tracker.TrashAndAsk | src/memwatch.c:1955-1973 | whatever one block's two links are overwritten with, the heap is restored, except that a block leading to itself both ways is taken as it is; the block is disowned exactly when no overwritten link was wild and some block is no-man's-land |
| MemWatch.AcceptedExactly | src/memwatch.c:1961-1973 | overwritten links are confirmed exactly when they are the true ones or both lead to the block itself, and otherwise the integrity check fails |
| MemWatch.Tracker.CountLinks | src/memwatch.c:1961-1966 | one point for each link confirmed by the block it leads to, or by head or tail, and one for the checksum |
| MemWatch.Tracker.Reseal | src/memwatch.c:1938-1947 | size given up, checksum recomputed, label kept when a module record knows it, everything else unchanged |
| MemWatch.Tracker.Unlink | src/memwatch.c:1574-1599 | neighbours are bridged, head and tail moved as needed |
| MwChain.UnlinkKeepsChain | src/memwatch.c:1574-1599 | unlinking any block of a chain leaves the chain without it |
| MwChain.PrependKeepsChain | src/memwatch.c:917-928 | linking a new block in front of a chain gives the chain with it in front |
| MwChain.ChecksumIsBitwise | src/memwatch.c:140-140 | every bit of the checksum is the parity of that bit of 0xFE0180, of count, of size and of line in 64 bits |
| MwChain.ChecksumDetects | src/memwatch.c:140-140 | a changed count, size or line alone always changes the checksum |
| MemWatch.Tracker.Malloc | src/memwatch.c:864-946 | fails exactly on size overflow or when the limit would be passed, and then changes only counter and errors; otherwise adds one block filled with 0xFE in front, keeps every other block, charges counters and statistics, and stays within the limit |
| MemWatch.Tracker.Realloc | src/memwatch.c:948-1028 | fails exactly on overflow, over the limit, or for a non-NULL pointer that is not live, leaving every block as it was; a NULL pointer allocates, size 0 frees; otherwise the new block has the requested size, its first min(old, new) bytes are those of the old block and the rest 0xFE, the old block is removed or kept as no-man's-land, and every other block keeps its bytes, site and checksum; the live byte counter moves by the difference; the limit flag is restored on every path and no success ends above the limit |
| MemWatch.Tracker.Free | src/memwatch.c:1052-1153 | releases exactly the blocks that are there and not yet no-man's-land, removing them or keeping them flagged and filled with 0xFC, with every counter moved by the size of the block and every other block kept; any other pointer changes no counter, record or block and is reported as a double free exactly when it is among the last 64 releases |
| MemWatch.NeededWraps | src/memwatch.c:877-881 | the request wraps around exactly when it does not fit 64 bits with its 72 bytes of overhead |
| MemWatch.NmlIsFlaggedAndFilled | src/memwatch.c:1102-1107 | a block in no-man's-land is the released one, flagged, its bytes 0xFC |
| MemWatch.NewBlockIsFilled | src/memwatch.c:917-931 | a new block has its size in bytes, all 0xFE, and its site and number |
| MemWatch.OthersKeptMeans | src/memwatch.c:1574-1599 | every other block keeps its site, number, size, flag, checksum and bytes |
| MemWatch.LongIsSigned | src/memwatch.c:884-884 | the cast of a size to long keeps its value modulo 2^64 |
| MemWatch.Tracker.RingReportsRecent | src/memwatch.c:1121-1133 | the ring of slots reports exactly the pointers of the last 64 releases |
| MemWatch.Tracker.RememberFreed | src/memwatch.c:1121-1124 | the ring keeps holding the last 64 releases |
| MemWatch.Tracker.FindFreed | src/memwatch.c:1132-1133 | the search finds a pointer exactly when some slot holds it |
| MemWatch.Tracker.Limit | src/memwatch.c:1203-1219 | zero switches the limit off, anything else sets it |
| MemWatch.Tracker.Run | src/memwatch.c:864-1153 | every state reachable by any sequence of malloc, realloc, free, limit and NML changes and writes within blocks satisfies the tracker's invariant |
| MemWatch.Tracker.ConservationLaws | src/memwatch.c:930-942 | the invariant implies: chain length is live plus NML count, each byte counter is the size sum of its blocks, the maximum is never below the current total, module records add up to the live bytes, to all bytes and to the number of all allocations ever made, each record holds the live bytes of its file or source line, and a file's line records add up to its module record less what was allocated without a line |
| MwStats.ReportAddsUp | src/memwatch.c:2289-2364 | with records that agree with the heap, the module records sum to all live bytes and the line records of a file to its module record less its unlined bytes |
| MwStats.AllocKeepsAgreement | src/memwatch.c:2327-2350 | charging an allocation keeps records and heap in agreement at every level, keys unique |
| MwStats.FreeKeepsAgreement | src/memwatch.c:2352-2364 | discharging it does too |
| MwStats.RecordsAfterAlloc | src/memwatch.c:2327-2350 | the records of the file and, at line level, of the line gain the size in total and current bytes, one in number, and the new peak if it is one; every other record stays as it was |
| MwStats.RecordsAfterFree | src/memwatch.c:2352-2364 | the same records lose the size from their current bytes and nothing else changes |
| MwStats.TallyMoves | src/memwatch.c:2327-2364 | bytes and number of all allocations ever made are those summed over the module records, through charges and discharges |
| MwStats.CountedOnce | src/memwatch.c:2289-2325 | with unique keys an allocation is counted by exactly one module record and at most one line record |
| MemWatch.Tracker.StatGet | src/memwatch.c:2289-2325 | the list walk finds the first record with the key, adding one in front when asked to |
| MemWatch.Tracker.StatAlloc | src/memwatch.c:2327-2350 | charges the module record and, at line level, the line record |
| MemWatch.Tracker.StatFree | src/memwatch.c:2352-2364 | discharges the same records |
| LinkedList.SimpleList.AddToHead | src/list.c:182-197 | the value becomes the first of the list; NULL is refused |
| LinkedList.SimpleList.AddToTail | src/list.c:199-214 | the value becomes the last of the list; NULL is refused |
| LinkedList.SimpleList.RemoveFirst | src/list.c:277-287 | the first node goes, and only that |
| LinkedList.SimpleList.RemoveLast | src/list.c:253-266 | with two or more nodes the last one goes; with exactly one the caller's head is left pointing at a freed node |
| LinkedList.SimpleList.ListCount | src/list.c:138-146 | the number of elements |
| LinkedList.SimpleList.FreeList | src/list.c:225-240 | empties the list and frees every node |
| LinkedList.SimpleList.ReverseList | src/list.c:118-131 | in place, the same nodes in reverse order, still acyclic |
| LinkedList.ReverseTwice | src/list.c:110-131 | reversing twice is the identity |
| Bucket.FindGuid | src/downloads.c:48-65 | found exactly when the identifier is neither NULL nor empty and is in the list |
| Bucket.AddToBucket | src/downloads.c:89-97 | newest entry first, and the oldest dropped when the bucket is over its size; the guard keeps removeLast to lists of two or more nodes |
| Bucket.BucketIs | src/downloads.c:89-97 | a usable identifier goes in front, any other does not; the oldest entry goes exactly when the bucket would be over its size, so it never grows past it |
| StateFile.SaveState | src/state.c:72-86 | one line per entry, in order |
| StateFile.SerializeIs | src/state.c:72-86 | every entry is its text and a newline, entries in order |
| StateFile.Fgets | src/state.c:113-113 | takes up to and including the newline, at most 2047 bytes |
| StateFile.LoadState | src/state.c:102-122 | appends the entries of any file: each chunk up to its first NUL without the last character, nothing for a chunk that begins with a NUL |
| StateFile.NulCutsLine | src/state.c:113-117 | a NUL cuts its line, and the last character before it; a line that begins with one adds no entry |
| StateFile.UnendedLineIsCut | src/state.c:113-117 | every full buffer of a longer line, and a last line without newline, loses its last character |
| StateFile.LoadAfterSave | src/state.c:72-117 | loading what was saved gives back the history in order, for entries without newlines of at most 2046 bytes |
| StateFile.RoundTripExactly | src/state.c:72-117 | loading what was saved gives the history back exactly when every entry has at most 2046 bytes and no newline or NUL |
| StateFile.NewlineSplitsEntry | src/state.c:72-117 | one entry with a newline comes back as two |
| StateFile.EntriesSplit | src/state.c:113-117 | what follows the end of an entry is read back on its own, however the line buffer chops the entry |
| StateFile.LoadedIsStorable | src/state.c:113-117 | whatever a file holds, what is loaded from it can be saved and loaded again |
| History.Session.ProcessRSSList | src/automatic.c:557-622 | a pass is the run that tries every item in turn; it changes the history only with an entry in the log, then leaves the file in step with it, and changes nothing if all items fail or do not match |
| History.PassIsRun | src/automatic.c:557-622 | the items of a pass are tried one after the other, from the first to the last |
| History.Session.ProcessItem | src/automatic.c:560-619 | a failed, unmatched or known item, or match-only mode, changes nothing; any other is logged once, under its guid or else its URL, put into the history, and saved |
| History.ItemIs | src/automatic.c:560-605 | the whole effect of an item on history, file and log in terms of the item alone: nothing unless it is matched, not refused, not match-only and not known; otherwise its identifier in front, the oldest entry dropped past the size, and the file rewritten |
| History.Session.ProcessFeed | src/automatic.c:648-661 | the first run enlarges the bucket by exactly the feed's item count before the items are processed, a later one does not; file and history change only with an entry in the log |
| History.RunLogs | src/automatic.c:557-622 | over any run from any state, every entry of the log was written for its own item, one that was matched and not refused, in the order of the run; and every such item that was not yet in the history is logged |
| History.BeginningsAre | src/automatic.c:308-349 | a reload saves a changed history, and reload and restart begin from the state file with a bucket of 30 |
| History.RepeatsAreSpaced | src/automatic.c:557-622 | over any run of passes, reloads and restarts in which what is submitted can be stored, and over any run of passes alone, between two successful submissions of one identifier there are at least as many others as a bucket size in force in between |
| History.NoRepeatWithinDefaultBucket | src/automatic.c:589-605 | with the program's own bucket size of 30: at least thirty other successful submissions |
| History.NextHasNoRepeats | src/downloads.c:75-97 | a history with pairwise distinct entries stays so through an item, and through a reload or restart when the state file is in step |
| History.RunHasNoRepeats | src/downloads.c:75-97 | over such runs, entries that start pairwise distinct stay so |
| History.CrashConsistent | src/automatic.c:600-605 | after any item of any pass, the state file rebuilds exactly the history in memory, on a restart and on a reload |
| History.CrashConsistentExactly | src/automatic.c:600-605 | the state file is in step after every event of a run exactly when every identifier submitted in it is one short line |
| History.SubmissionIsDurable | src/automatic.c:600-605 | recording an item keeps the state file in step exactly when its identifier is one short line |
| History.ResubmittedAfterRestart | src/automatic.c:600-605 | an item just submitted is submitted again after a restart exactly when it has no usable identifier, or one that is not one short line and whose pieces, as the state file brings them back, do not include the item's URL |
| History.TwoLineGuid | src/automatic.c:600-605 | with a guid of two lines, the item is submitted again after a restart unless its URL is one of the lines |
| History.ForgottenExactlyWithoutIdentifier | src/automatic.c:600-605 | an item just submitted is submitted again at once exactly when it has no usable identifier |
| Daemon.Program.Setup | src/automatic.c:308-349 | a session without feeds or filters is refused; otherwise the installed one is freed and replaced |
| Daemon.Program.SignalHandler | src/automatic.c:354-380 | TERM asks for the end; HUP is put off during a pass and otherwise reloads |
| Daemon.Program.ReloadConfig | src/automatic.c:366-375 | a new session is created and installed, or freed when the file cannot be read or the session is refused |
| Daemon.Program.Advance | src/automatic.c:767-799 | one step of the main loop: at its top it leaves exactly when closing, after a pass exactly when it runs once |
| Daemon.Program.Run | src/automatic.c:354-799 | the program follows the state machine under any interleaving of loop steps and signals; without --once it leaves only when closing |
| Daemon.ClosingExactly | src/automatic.c:356-360 | the program is closing exactly when it has received TERM |
| Daemon.LeavesOnlyWhenTold | src/automatic.c:766-799 | without --once a run leaves the loop only after a TERM; with it, the loop never rests, answers a HUP from there, or sleeps |
| Daemon.ClosingEndsTheLoop | src/automatic.c:766-767 | once closing, no further pass is begun: the next step at the top leaves, and the loop does not come back |
| Daemon.PassTakesAllFeeds | src/automatic.c:773-780 | a pass takes every feed of its session once, whatever signals arrive, and then ends |
| Daemon.PassEnds | src/automatic.c:787-798 | after a pass the flag is cleared, a HUP seen meanwhile makes one new session, and the loop sleeps and returns to its top |
| Daemon.TurnOfTheLoop | src/automatic.c:766-798 | left alone, the loop goes round: two steps to begin a pass, one for each feed and two around them, four to rest and sleep, with the same session |
| Daemon.RunIsSound | src/automatic.c:308-799 | in every reachable state the installed session has a feed and a filter, every other session ever created has been freed exactly once, a pass runs on the installed session, and no HUP is forgotten |
| Daemon.PassIsUndisturbed | src/automatic.c:768-792 | from isRunning = true to isRunning = false, whatever signals arrive, the session is neither replaced nor changed nor freed |
| Daemon.HupsAnsweredBeforeSleep | src/automatic.c:792-798 | whenever the loop goes to sleep, every HUP received so far has been followed by a reload attempt |
| Daemon.HupsAreReloaded | src/automatic.c:361-378 | after any HUP of any run a new session has been created by the time the loop sleeps |
| Daemon.ReloadFreesOne | src/automatic.c:366-375 | a HUP outside a pass creates one session; if it cannot be used the old one stays intact and the new one is freed, otherwise it is installed with the lists read and the old one freed |
| ConfigLexer.ParseConfig | src/config_parser.c:576-735 | the index loop delivers to set_option what the tokenizer specification says and ends the same way; its position grows in every round |
| ConfigLexer.SkipWhitespace | src/config_parser.c:503-523 | stops at the first character that is no white space |
| ConfigLexer.ReadOption | src/config_parser.c:600-659 | name, equals sign and parameter, or the reason why there is none |
| ConfigLexer.ReadParameter | src/config_parser.c:650-709 | quoted, braced or bare parameter, within the length limit |
| ConfigLexer.CharactersAre | src/config_parser.c:600-709 | which ASCII characters may stand in names, in bare tokens and around quoted text |
| CStrings.SpaceIs | src/config_parser.c:503-523 | white space is the six characters of isspace |
| ConfigRoundTrip.ParsePrinted | src/config_parser.c:576-731 | for any entries and any white space and comments between them, parsing the printed file delivers exactly the printed name/value pairs, in order, up to the first that set_option rejects |
| ConfigRoundTrip.AllAccepted | src/config_parser.c:716-731 | with nothing rejected, every entry is delivered once and parsing succeeds |
| ConfigRoundTrip.LayoutIsIrrelevant | src/config_parser.c:576-598 | two files with the same entries are the same to set_option, whatever stands between the entries |
| ConfigRoundTrip.SettingIsWritten | src/config_parser.c:600-714 | every setting delivered stands in the file as a name of 1 to 49 characters, an equals sign and a quoted, braced or bare parameter of less than 20000 |
| ConfigRoundTrip.WrittenIsSetting | src/config_parser.c:600-714 | and everything that stands there like that is delivered |
| ConfigRoundTrip.EndIsUnfinished | src/config_parser.c:620-648 | a setting ends the file without an error exactly when it breaks off after the name or after the equals sign |
| ConfigRoundTrip.CommentIs | src/config_parser.c:588-598 | a comment is what starts with # and ends with its line; without a newline after it the source reads on |
| ConfigRoundTrip.RejectionStops | src/config_parser.c:716-731 | the first setting that set_option rejects is the last it gets, and the parser fails |
| ConfigRoundTrip.SmallFiles | src/config_parser.c:576-735 | the smallest file for each way to end |
| ConfigRoundTrip.SmallSetting | src/config_parser.c:576-735 | a file of one setting, as text, delivers its name and parameter |
| SubOptions.TrimString | src/config_parser.c:96-133 | NULL for white space and for a quote with nothing behind it; otherwise the text without surrounding white space and without one quote at each end |
| SubOptions.TrimKeepsMiddle | src/config_parser.c:97-133 | of any text dark at both ends, one quote of either kind is dropped at each end that has one, nothing else; white space around it goes |
| SubOptions.TrimLeavesNothing | src/config_parser.c:97-133 | white space and a last quote leave NULL; a quote in front of white space leaves one white space character |
| SubOptions.TrimPlain | src/config_parser.c:97-133 | a text without quotes or white space at its ends is kept whole |
| SubOptions.TrimQuoted | src/config_parser.c:97-133 | what stands between quotes of either kind is kept whole, its own white space included |
| SubOptions.ParseSubOption | src/config_parser.c:157-195 | splits a non-empty line at the first arrow, dropping the character before it |
| SubOptions.ParsedExactly | src/config_parser.c:157-195 | a name and a value are read exactly from a line whose first arrow follows that non-empty name and one more character, with a rest that trim reduces to the value |
| SubOptions.ScanOption | src/config_parser.c:223-258 | the inner loop writes inside the buffer, tmp_pos never passing line_pos, and leaves what the scan specification says |
| SubOptions.BrokenExactly | src/config_parser.c:229-248 | after a plus or backslash at the end of a line, a next line that does not start with a quote, or a line without one before, breaks the scan |
| SubOptions.ParseMultiOption | src/config_parser.c:197-280 | ends on every input shorter than the buffer and returns the sub-options, newest first, or the failed assertion on an empty line |
| SubOptions.AbortsExactly | src/config_parser.c:223-269 | a sub-option reaches the parser as an empty line exactly when it opens with a quote, has no others but those that open continued lines, and ends the parameter with one of these |
| SubOptions.ParameterAbortsExactly | src/config_parser.c:212-277 | a whole parameter fails the assertion exactly when, before any broken continuation, one of its sub-options is left dangling |
| SubOptions.LoneQuotesAbort | src/config_parser.c:236-257 | the shortest such parameter |
| Continuation.ScanSubText | src/config_parser.c:223-258 | a quoted value spread over any number of lines leaves in the buffer what the same value on one line would |
| Continuation.JoiningPreservesMeaning | src/config_parser.c:212-277 | however values are split over lines with a plus or a backslash, the parameter parses to the same sub-options |
| Continuation.NamedAreDelivered | src/config_parser.c:157-277 | in a parameter of named sub-options, quoted and spread over any lines or unquoted, each is delivered once with its name and whole value, the last one first |
| Continuation.NamedIsParsed | src/config_parser.c:157-195 | name => "..." gives the name and the pieces of the value joined |
| Continuation.RawIsParsed | src/config_parser.c:157-195 | name => value without quotes gives the whole value, without the white space around it |
| Continuation.BreakKeepsEarlier | src/config_parser.c:243-263 | a broken continuation ends the list: what came before it is delivered, nothing after |
| Continuation.TwoOptions | src/config_parser.c:197-280 | a value over two lines, by either mark, followed by an unquoted one, as texts |
| Base64.DecodeInvertsEncode | src/base64.c:31-174 | decoding the encoding of any bytes gives them back (section 4 of RFC 4648) |
| Base64.Encode | src/base64.c:51-88 | the encoding has length 4 * ceil(n / 3) |
| Base64.AlphabetIsTheTable | src/base64.c:21-21 | the 64 characters are A-Z, a-z, 0-9, + and / in that order (table 1 of RFC 4648) |
| Base64.GroupKeepsBits | src/base64.c:51-71 | the four table positions of a group, six bits each, are the 24 bits of its three bytes in order |
| Base64.TailKeepsBits | src/base64.c:72-88 | one byte left over gives two characters and two =, two bytes three and one, with zero bits filled in |
| Base64.EncodeIsByGroups | src/base64.c:51-88 | groups of three bytes are encoded independently, in order |
| Base64.Base64Encode | src/base64.c:31-94 | for every input whose estimate does not wrap around, the 3-byte regrouping loop writes the encoding and its terminator inside the estimated buffer |
| Base64.Base64Decode | src/base64.c:117-174 | for every text that does not leave three characters over, the 4-byte regrouping loop writes the decoding and its terminator inside its buffer |
| Base64.DecodeStops | src/base64.c:132-150 | decoding ends at the first character outside the alphabet |
| Base64.ShortGroups | src/base64.c:152-167 | one, two or three characters left over give no, one or two bytes, of their leading bits |
| Base64.PaddingHasNoInfluence | src/base64.c:152-167 | whatever the lookup returns for the padding slots, the bytes emitted for a short group are the same |
| Base64.EstimateSufficesExactly | src/base64.c:46-47 | for every non-zero 32-bit length, the estimated size holds the encoding and its terminator exactly up to 3221225458; it fails for eleven lengths whose encoding still fits 32 bits |
| Base64.EstimateWraps | src/base64.c:46-47 | at the first of them the estimate is 0 and the encoding has 4294967280 characters |
| Base64.RoomSufficesExactly | src/base64.c:129-169 | the decoded bytes and their terminator fit the buffer exactly unless three characters are left over |
| Base64.ThreeCharactersOverflow | src/base64.c:129-169 | three characters of the alphabet and nothing else decode to as many bytes as the buffer has, without room for the terminator |
| Base64.Find | src/base64.c:100-108 | the index of an alphabet character, 255 for any other |
| UrlCode.DecodeInvertsEncode | src/urlcode.c:21-78 | decoding inverts encoding |
| UrlCode.EncodeIsUrlSafe | src/urlcode.c:26-34 | only unreserved characters, plus signs and percent escapes of two lower-case hex digits, at most three times as long |
| UrlCode.EncodedByte | src/urlcode.c:26-34 | letters, digits and - . _ ~ stand for themselves, a space is +, any other byte % and its two digits |
| UrlCode.EncodeIsByBytes | src/urlcode.c:26-35 | bytes are encoded independently, in order |
| UrlCode.HexDigits | src/urlcode.c:9-17 | the digits are 0-9 and a-f when written, and A-F as well when read |
| UrlCode.DecodedStep | src/urlcode.c:63-75 | an escape is the byte of its two digits, a plus sign a space, a % without two characters after it nothing, anything else itself |
| UrlCode.UrlEncode | src/urlcode.c:21-37 | the loop writes the encoding and its terminator inside 3n + 1 bytes |
| UrlCode.UrlDecode | src/urlcode.c:58-78 | the loop writes the decoding and its terminator inside n + 1 bytes |
| UrlCode.UrlEncodeWhitespace | src/urlcode.c:39-53 | the loop writes the text with spaces escaped inside 3n + 1 bytes |
| UrlCode.EncodeSpacesHasNone | src/urlcode.c:44-50 | no space is left |
| UrlCode.EncodedSpace | src/urlcode.c:44-50 | only a space is escaped, as %20 |
| UrlCode.EncodeSpacesIsIdempotent | src/urlcode.c:39-53 | a second pass changes nothing, and a first pass changes exactly the strings with a space |
| UrlCode.DecodeUndoesEncodeSpaces | src/urlcode.c:39-78 | decoding undoes it for strings without percent or plus signs |
| StringUtils.ReplaceStr | src/utils.c:263-314 | NULL exactly for a NULL or empty string or pattern or a NULL substitute; otherwise a string that is the replacement and fills its allocation to the last byte |
| StringUtils.SizeIsExact | src/utils.c:287-294 | the size computed from the counting pass, wrapping difference included, is that of the result with its terminator |
| StringUtils.CountMatches | src/utils.c:287-292 | the counting pass counts the leftmost non-overlapping occurrences |
| StringUtils.WritePass | src/utils.c:300-311 | the writing pass stays inside the allocation, terminators of strcpy included, and replaces the same occurrences |
| StringUtils.FirstIsReplaced | src/utils.c:301-309 | the first occurrence is replaced, what is before it kept, what is after it treated alike |
| StringUtils.OccursIs | src/utils.c:277-285 | strstr finds a pattern exactly when it stands somewhere in the string |
| StringUtils.NothingToReplace | src/utils.c:277-285 | without an occurrence nothing changes, which justifies the early returns |
| StringUtils.StripInPlace | src/utils.c:228-248 | the string is shifted and cut in place to its stripped text |
| StringUtils.StripRemovesSpace | src/utils.c:228-248 | stripping removes exactly the surrounding white space |
| RegexReplace.PerformRegexReplace | src/regex.c:175-263 | NULL for empty arguments, no groups, or a bad reference; otherwise the expansion, from the fixed buffer |
| RegexReplace.WrittenSpells | src/regex.c:208-254 | the bytes written spell the expansion, and a failure is flagged exactly when a reference has more than four digits, is outside 1 to 99 or names a missing group |
| RegexReplace.ReadReference | src/regex.c:219-231 | at most four digits of a reference are read into the index buffer |
| RegexReplace.NumberIs | src/regex.c:229-231 | digits are read as a decimal number |
| RegexReplace.PlainIsCopied | src/regex.c:208-250 | text without backslashes is copied |
| RegexReplace.EscapeIsCopied | src/regex.c:212-217 | a backslash with anything but a digit after it is copied with it |
| RegexReplace.ReferenceIs | src/regex.c:219-250 | a reference of at most four digits, from 1 to 99, gives its group if there is one and fails otherwise; the code takes the next character along |
| RegexReplace.TenthGroup | src/regex.c:219-231 | \10 is the tenth group, \100 a failure |
| RegexReplace.AgreesExactlyWhenSettled | src/regex.c:205-262 | for every template, the code gives the documented expansion or failure for all captures exactly when no reference is immediately followed by backslashes and a digit, or both readings meet a bad reference |
| RegexReplace.SettledAgrees | src/regex.c:205-262 | for such a template code and documented meaning agree on failure too |
| RegexReplace.AdjacentReferencesFail | src/regex.c:248-250 | of two references in a row the second is copied, not expanded |
| RegexReplace.BadReferenceOverlooked | src/regex.c:233-250 | a bad reference right after another is copied where NULL is documented |
| Receive.HTTPData.Write | src/web.c:174-203 | a chunk is appended to what has been received and NUL-terminated inside the buffer, which is doubled just until it fits |
| Receive.GrownSuffices | src/web.c:188-194 | doubling ends, at a size that suffices and is less than twice the need |
| Receive.GrownIsDoubled | src/web.c:188-194 | it is the start size doubled the least number of times that suffices |
| Receive.Web.WriteHeader | src/web.c:82-128 | what has been received, terminator included, survives a header line exactly when it is neither a redirect after body bytes nor a believed length that does not cover them; a length is believed unless a redirect is in progress |
| Receive.LateRedirectLosesBytes | src/web.c:92-99 | a redirect after two body bytes drops them and leaves the position at 2 |
| Receive.Web.ParseTransmission | src/web.c:133-168 | the session line replaces the session id by the text up to white space; content and terminator survive exactly when an announced length covers what has arrived |
| Receive.Web.Perform | src/web.c:82-203 | after any run of header lines and chunks in which no header line comes too late, lengths right, wrong or missing, what has been received is the concatenation of the chunks |
| Receive.LineKinds | src/web.c:92-152 | which lines count is decided by how they begin, byte by byte; only a positive length counts |
| Receive.DispositionIs | src/web.c:113-113 | the file name line is recognised in any mixture of cases |
| Receive.BodyGrows | src/web.c:174-203 | a chunk adds its bytes to the body, a header line none |
| Receive.LastCounts | src/web.c:82-168 | of session id, file name and redirect the last line of its kind is what is remembered, and an empty line ends a redirect |
| Receive.SessionIs | src/web.c:142-150 | the session id is the text up to the next white space |
| Receive.Web.GetHTTPData | src/web.c:381-454 | one exchange; its body, code and file name, or NULL when the transfer failed |
| Receive.Web.SendHTTPData | src/web.c:471-569 | the outcome and the remembered session id are those of the specified attempts, and only the last attempt's bytes are returned; only replies the attempts get need be orderly |
| Receive.SecondCarriesTheNewId | src/web.c:487-556 | there are at most two attempts, a second exactly after a 409, and for a Transmission URL it carries the session id that the 409 brought |
| Receive.SessionHeaderIs | src/web.c:504-509 | the header is X-Transmission-Session-Id: and the id |
| Receive.SessionIsRemembered | src/web.c:487-556 | the id remembered in the end is what the attempts brought, one after the other |
| Receive.GuardIsPassed | src/web.c:487-556 | against an endpoint that demands its current session id, whatever id is remembered, the last attempt carries the right one and is not refused |

## Left out

- MemWatch.Tracker.Relink: the emergency branch, taken when the head, the tail or another link is destroyed as well, ends the model with `Emergency`; graphs on which the source's own searches never end are excluded.
- MemWatch.Tracker.IsOwned: with more than one block damaged, only the blocks that may be touched are stated.
- MemWatch.Tracker.Free: a NULL file name, which hands untracked memory to the C library, is not modelled; neither are overflow zones (`mwTestBuf`), the FBI text and the fill of freed blocks.
- MemWatch.Tracker.Malloc: the C library's malloc always succeeds, so `mwFreeUp` is not part of this model; the long counters are unbounded integers.
- MemWatch.Tracker.Run: the statistics level is fixed before the first allocation; `mwCalloc`, `mwStrdup`, marks and grabs are thin wrappers or separate lists and would add easy members.
- MEMWATCH logging, mutexes, Abort/Retry/Ignore, address probes and `mwTestNow` reports.
- Bucket.AddToBucket: the 16-bit wrap of the bucket size is not modelled, and allocation always succeeds, here and in every other module.
- History.CrashConsistent: saves succeed, a crash does not fall inside one save, and a reload keeps the same state file.
- History.RepeatsAreSpaced: in runs that reload or restart, what is submitted must be storable, since other identifiers are lost on the way through the file; History.NoRepeatWithinDefaultBucket and History.RunHasNoRepeats likewise.
- Daemon.Program.Setup: saving the old history and loading the new one are modelled as the `Reload` event of `History`; here a session is a handle with the sizes of its lists.
- Daemon.Program.SignalHandler: signals during a reload or during shutdown, `xmlfile` runs and daemonizing are not modelled; SIGINT is TERM.
- ConfigLexer.ParseConfig: a final comment without newline ends the model with `Overrun` (the source reads on behind the buffer); a name of 50 or more characters is a failure without the write past the name buffer; NUL and non-ASCII bytes, line numbers and opening the file are not modelled.
- `set_option`'s chain of names, `feed_new`, `filter_new`: single-branch assignments.
- Base64.Base64Encode: inputs beyond 3221225458 bytes, and texts that leave three characters over for Base64.Base64Decode, make the source write behind its buffer; NULL arguments are not modelled.
- UrlCode.UrlEncode: character classes are those of the C locale, bytes from 128 on being in none.
- RegexReplace.PerformRegexReplace: the bytes written must fit the 1024-byte buffer with their terminator, which the source does not check.
- Receive.Web.Perform: runs in which a header line loses body bytes (bodies of redirects are not delivered) end with the step that loses them; announced lengths are below INT_MAX, size_t does not wrap, a session line has white space after its id and the id fits the 200-byte header buffer; `content_length`, which is only written, is not modelled.
- Receive.Web.SendHTTPData: an empty URL, for which the source searches a NULL string, is excluded.
- Receive.HTTPData.Copy: a body that begins with a NUL byte is returned as NULL, and an empty body as NULL or an empty string depending on uninitialised memory; the model allows both.
- Prowl, Pushover, JSON packets, `call_transmission`, `get_filename`, argument parsing and the XML parser: wrappers and I/O.
