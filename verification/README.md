# hjkl: verified model

A Dafny model of the parts of hjkl whose correctness is hard to see by reading
them, with proofs of what they keep. Each part follows the code step by step:
the same branches, the same order of checks, the same constants. Where the code
changes something in place, the model is a class whose methods are proved
against functions; what the code is *for* is then proved about those functions.

`dafny verify dfyconfig.toml` checks the whole project.

## What is modelled

**The install pool** (`PoolProtocol`, `PoolInvariants`, `PoolSafety`,
`PoolProgress`, `PoolVerdicts`, `PoolReports`, `InstallPool`). Submitters, two
workers, a bounded job queue, a locked registry of names in flight and one
bounded status channel per caller, as atomic steps in any interleaving. A
broadcast holds the lock while it sends, one send per step, so a full channel
blocks it in the middle. Single flight, the stream each handle sees, the verdict
at its end, and progress hold in every reachable state. `InstallPool` is the
registry as a mutable object; each of its methods is a run of the protocol.

**The GitHub install and its trust store** (`UrlPolicy`, `GithubInstall`,
`AttemptAnswers`, `ToolStore`, `InstallHistory`, `TreeSurvival`). One attempt as
a function of everything the world may answer: every step may fail, the machine
may stop between any two steps, and a directory move may be a rename or a staged
copy. The sidecar is kept as *text* between attempts, so the theorems about
whole histories pass through the real printer and parser. SHA-256 is an
arbitrary function with 64-digit results.

**The checksum sidecar** (`Text`, `Escaping`, `Order`, `Sidecar`, `SidecarFile`,
`SidecarSyntax`, `SidecarStore`). The printer, the line parser, and exactly
which contents survive.

**Unpacking** (`FindBin`, `Extract`). The worklist tree walk and the choice of
binary; entry paths, and one byte budget over all entries.

**The nvim API's buffer calls** (`Slices`, `Rows`, `Utf8`, `Indices`, `Splice`,
`TextRange`, `Columns`, `NvimBuffer`, `WindowCursor`). The code edits one UTF-8
byte string (section 3 of RFC 3629); the meaning is a list of rows. Byte splices
are shown to be row edits, reading and writing text to be inverse, column
conversions to be an adjoint pair.

**Smaller cores.** The JSON-RPC loop over newline-framed text (`RpcProtocol`,
`RpcLoop`, `RpcMeaning`); the side-by-side diff (`LineDiff`) and its character
ranges (`CharDiff`); the search counter and its cache (`SearchCount`); the
end-of-line state (`EndOfLine`) and the interception of `:set` tokens (`Words`,
`SetTokens`).

## What the code does that one might not expect

- **A full status channel stops everybody.** While a live handle neither reads
  nor goes away, the lock stays taken (`PoolProgress.FullChannelBlocksTheLock`),
  and such a state is reachable (`PoolProgress.UnreadHandleGetsStuck`). A full
  *job* queue never does that.
- **`wait` can report a closed channel after a success**: exactly when the
  reader already took every terminal of its stream, two for a success it followed
  from before the first announcement and one otherwise
  (`PoolVerdicts.ClosedExactlyWhenAllTaken`, `PoolVerdicts.TakingBothTerminals`).
- **A failed move may have moved.** When the copying fallback cannot clean up its
  source, the attempt fails and yet the new tree is in place, unless the rollback
  is a copy too (`TreeSurvival.FailedMoveIn`).
- **A half removed package directory puts the tree at risk, and nothing else
  does.** A complete tree survives the next attempt exactly when the package
  directory is not half removed as it begins
  (`TreeSurvival.SurvivesExactlyWhenUntorn`); over whole histories it is enough
  that no attempt begins that way (`TreeSurvival.TreeForGood`). A rename never
  half removes anything (`TreeSurvival.RenamesKeepUntorn`). The copying fallback
  may, when the package is set aside, and then a third attempt can lose the only
  complete tree (`TreeSurvival.CopyingTheBackupCanLoseTheTree`).
- **A version or asset named `.` is accepted** and then vanishes from the path
  that is asked for (`UrlPolicy.RequestedPathIsIntended`).
- **Sidecar triples with an `=`** do not survive; the exact condition is
  `SidecarFile.WellFormed`. Host triples always do (`SidecarFile.LookupSurvives`).
- **Replacing rows by nothing** through the last row leaves one empty row, and
  replacing rows by one empty line acts like deleting them; the exact condition
  is `Splice.SplicesFaithfully`. Writing back what was read is the identity
  except over one empty row that is not the last (`Splice.WriteBackRows`).
- **An oversized request line is answered with one error unless the cap falls
  inside a character**: then reading fails and the session ends without an
  answer (`RpcProtocol.CapInsideCharacter`).
- **A version 2.0 object with neither id nor method gets no answer**, where
  section 5 of JSON-RPC 2.0 asks for an error
  (`RpcProtocol.NoIdNoMethodNoAnswer`).
- **The search counter can be stale** exactly when the cached buffer was edited a
  nonzero multiple of 2^64 times since the cache was filled (`SearchCount.App.Stale`,
  `SearchCount.CountAfterFullCircle`).

## Model

| member | source | states |
|---|---|---|
| PoolInvariants.StepKeepsInv | crates/hjkl-anvil/src/job.rs:77-200 | every enabled step of any submitter, worker or reader keeps the invariant: one token per registered name, streams equal history, verdicts agree, lock exclusive |
| PoolInvariants.ReachableInv | crates/hjkl-anvil/src/job.rs:77-200 | the invariant holds after every run from the empty pool |
| PoolSafety.ExactlyOneJobPerName | crates/hjkl-anvil/src/job.rs:77-103 | in every reachable state a name is registered exactly when exactly one job token bears it, with its submitter, in the queue or on a worker |
| PoolSafety.SecondCallerJoins | crates/hjkl-anvil/src/job.rs:82-84 | a second caller, whatever its spec, creates no token and follows the running job from the current end of its history, before any verdict |
| PoolSafety.NextCallerStartsFresh | crates/hjkl-anvil/src/job.rs:85-98 | after a job is over the next call for its name makes one new token with its own spec and an empty stream |
| PoolSafety.HandleSeesSuffix | crates/hjkl-anvil/src/job.rs:193-200 | between critical sections, received plus queued of a live handle is the job's history from its attach point on |
| PoolSafety.NoCloseWithoutVerdict | crates/hjkl-anvil/src/job.rs:177-191 | when a live handle's sender has left the registry, its stream ends in the job's verdict and every terminal in it equals that verdict |
| PoolSafety.WaitReturnsTheVerdict | crates/hjkl-anvil/src/job.rs:137-150 | waiting on a closed stream returns the verdict exactly when something is left to read, and a reader that took no terminal always has something left |
| PoolSafety.AllHandlesAgree | crates/hjkl-anvil/src/job.rs:155-174 | two handles of one job are told the same verdict, whenever they attached |
| PoolVerdicts.ReachableReports | crates/hjkl-anvil/src/job.rs:155-200 | in every reachable state the log of a finished job is one install's report followed by its verdict, and what a busy worker said and has still to say is one report |
| PoolVerdicts.FinishedLogCount | crates/hjkl-anvil/src/installer.rs:744-748 | a success is announced exactly twice and a failure exactly once |
| PoolVerdicts.ClosedExactlyWhenAllTaken | crates/hjkl-anvil/src/job.rs:137-150 | waiting on a closed stream reports a closed channel if and only if the reader has taken two terminals of a success it followed from before the first, or one terminal otherwise; to anyone who took fewer it returns the verdict |
| PoolVerdicts.TakingBothTerminals | crates/hjkl-anvil/src/job.rs:131-150 | reachable states for both: one `Done` taken and the success still returned, both taken and the channel reported closed |
| PoolVerdicts.EveryHandleIsAnswered | crates/hjkl-anvil/src/job.rs:137-191 | where a pool without new calls comes to rest, every held handle's stream ends in its job's verdict, and waiting tells it to everyone who read no terminal |
| PoolReports.AnnouncedIsTheReport | crates/hjkl-anvil/src/job.rs:155-200 | along every run from the moment a worker takes a job, what has been announced and what the worker has still to say are together exactly the statuses its install reports; a finished log is exactly that report and then the verdict |
| PoolReports.HandleGetsTheReport | crates/hjkl-anvil/src/job.rs:155-200 | when a job is over, the stream of every live handle is, status by status, the install's report and the verdict, from where the handle joined |
| PoolReports.FirstInFirstOut | crates/hjkl-anvil/src/job.rs:59-71 | over every run the jobs taken up, followed by those still queued, are those queued and handed over, in that order |
| PoolReports.SubmitterWaitsExactlyWhenFull | crates/hjkl-anvil/src/job.rs:59-96 | in every reachable state at most 64 jobs are queued, and a submitter waits exactly while there are 64 |
| PoolProgress.InternalStepLowers | crates/hjkl-anvil/src/job.rs:155-200 | each step other than a new call, dropping a handle included, lowers a six-part measure |
| PoolProgress.BusyPoolMoves | crates/hjkl-anvil/src/job.rs:59-96 | while a name is registered some driving step is enabled; it is a read only if a broadcast holds the lock and waits for that full live channel, and a full job queue is never what is waited for |
| PoolProgress.DrainedPoolComesToRest | crates/hjkl-anvil/src/job.rs:155-191 | under any schedule, dropped handles included, the steps come to an end, and where no driving step is left no name and no job is in flight |
| PoolProgress.FullChannelBlocksTheLock | crates/hjkl-anvil/src/job.rs:185-200 | while the owner of a full channel neither reads nor lets go, no call gets in and no broadcast starts or ends, along every run |
| PoolProgress.UnreadHandleGetsStuck | crates/hjkl-anvil/src/job.rs:78-98 | one caller that never reads reaches such a state |
| InstallPool.InstallPool.constructor | crates/hjkl-anvil/src/job.rs:58-71 | a new pool is the empty state |
| InstallPool.InstallPool.Register | crates/hjkl-anvil/src/job.rs:77-102 | the critical section of a call is one protocol step: join, or register and hand out the job |
| InstallPool.InstallPool.SendJob | crates/hjkl-anvil/src/job.rs:90-96 | enqueueing happens outside the lock, as one step |
| InstallPool.InstallPool.TakeJob | crates/hjkl-anvil/src/job.rs:155-157 | a worker takes the job at the head of the queue |
| InstallPool.InstallPool.RetainSend | crates/hjkl-anvil/src/job.rs:187-198 | the send loop over the senders is that many protocol steps; senders of dropped handles are pruned, the others keep their order |
| InstallPool.InstallPool.Broadcast | crates/hjkl-anvil/src/job.rs:185-200 | a whole broadcast or finish is a run of the protocol from lock to unlock when every channel has room |
| InstallPool.InstallPool.Release | crates/hjkl-anvil/src/job.rs:185-191 | leaving the last broadcast removes the name in the same critical section |
| InstallPool.InstallPool.Wait | crates/hjkl-anvil/src/job.rs:142-150 | the loop over the receiver returns what the specification of waiting says |
| GithubInstall.AttemptReportIsWellFormed | crates/hjkl-anvil/src/installer.rs:591-757 | the statuses of every attempt that does not crash are a report the pool's worker step admits: a success is announced once before the worker repeats it |
| AttemptAnswers.InstalledPathIsTheBinary | crates/hjkl-anvil/src/installer.rs:734-756 | a success names `packages`, the tool's name and then, segment by segment, a file of the binary's name in the tree now in place, the one the lookup chose; the last status reported is that path |
| AttemptAnswers.ReportsFollowTheSteps | crates/hjkl-anvil/src/installer.rs:591-757 | every attempt reports the download's chunks, then verifying, extracting, the hash and triple put on record exactly if nothing was pinned or recorded, installing; a success says all of it and `Done`, any other ending a prefix |
| AttemptAnswers.FailuresNameTheirCause | crates/hjkl-anvil/src/installer.rs:599-683 | a failure other than an I/O error names its cause: the host without a triple, the first URL part that is not accepted, the pinned or recorded hash as the expected one and the download's as the actual one, the binary that is not in the tree; and at which stage each happens |
| AttemptAnswers.EndingsAreNotInvented | crates/hjkl-anvil/src/installer.rs:591-757 | a plain I/O failure comes from a step that failed, and an attempt ends without an answer only where the machine stopped |
| AttemptAnswers.UnreadableSidecarComesFirst | crates/hjkl-anvil/src/installer.rs:603-605 | a sidecar that cannot be read stops an unpinned attempt before the parts of the URL are looked at |
| AttemptAnswers.VerdictSaysIt | crates/hjkl-anvil/src/job.rs:160-174 | the verdict on a success is its path, on a mismatch a text with the expected hash first and the actual one second |
| AttemptAnswers.LateFailureIsInPlace | crates/hjkl-anvil/src/installer.rs:730-743 | when only the link or the revision file fails, the attempt fails although the new tree is in place |
| AttemptAnswers.TripleNamesTheHost | crates/hjkl-anvil/src/installer.rs:270-280 | which hosts have a triple, and that it begins with the host's own architecture and ends as the triples of its system do |
| UrlPolicy.ExpandAssetFillsIn | crates/hjkl-anvil/src/installer.rs:622-626 | an asset pattern has each `{triple}` and each `{version}` filled in where it stands and nothing else changed; an inserted version is not searched again |
| UrlPolicy.SafeComponentExactly | crates/hjkl-anvil/src/installer.rs:186-195 | accepted versions and assets are exactly the single words that are single path segments, without two dots in a row, backslash, query, fragment, percent sign or control character |
| UrlPolicy.SafeRepoExactly | crates/hjkl-anvil/src/installer.rs:202-216 | accepted repositories are exactly two path segments of letters, digits, dots, underscores and hyphens, neither a dot name |
| UrlPolicy.ReleasePathHasSixSegments | crates/hjkl-anvil/src/installer.rs:186-216 | accepted repository, version and asset names make a path string of exactly the six segments given, none empty or a step up, none cut short by a query or fragment |
| UrlPolicy.RequestedPathIsIntended | crates/hjkl-anvil/src/installer.rs:608-634 | after removal of dot segments (section 5.2.4 of RFC 3986) the path asked for is the intended one if and only if neither version nor asset is a single dot |
| UrlPolicy.DotVersionIsDropped | crates/hjkl-anvil/src/installer.rs:186-192 | such a version is accepted, and the path asked for is one segment short |
| GithubInstall.InstallsExactlyWhen | crates/hjkl-anvil/src/installer.rs:591-757 | the success path spelled out, for use by the results on repeated installs: nothing but a failing guard stops an attempt |
| InstallHistory.AttemptTrust | crates/hjkl-anvil/src/installer.rs:458-697 | the sidecar changes only in an unpinned attempt that found nothing recorded, after the binary was found, by exactly one entry; a success means the pinned or the recorded hash was met |
| InstallHistory.AttemptKeepsHash | crates/hjkl-anvil/src/installer.rs:689-697 | no attempt changes or removes a recorded hash, through printing and parsing the sidecar |
| InstallHistory.NewHashIsEarned | crates/hjkl-anvil/src/installer.rs:670-697 | a hash newly on record is the download's hash of an unpinned attempt whose archive unpacked and held the binary |
| InstallHistory.UnpinnedSuccessIsRecorded | crates/hjkl-anvil/src/installer.rs:648-697 | after every unpinned success the record is exactly the installed download's hash |
| InstallHistory.WrongHashChangesNothing | crates/hjkl-anvil/src/installer.rs:646-667 | a download that does not have the pinned or recorded hash leaves sidecar, package and backup untouched and is never unpacked |
| InstallHistory.TrustComesFirst | crates/hjkl-anvil/src/installer.rs:648-728 | whatever fails or stops the machine, package and backup are touched only for a download that unpacked, held the binary and has the pinned hash or the one on record when the attempt ends |
| InstallHistory.OnlyTheFirstDownload | crates/hjkl-anvil/src/installer.rs:458-697 | after an unpinned success the same tool, version and platform accept exactly that hash again, and any other download changes nothing |
| InstallHistory.ReinstallSucceeds | crates/hjkl-anvil/src/installer.rs:591-757 | what was installed once can be installed again: neither the recorded hash nor the package in place is an obstacle |
| InstallHistory.PinnedIgnoresSidecar | crates/hjkl-anvil/src/installer.rs:458-481 | a pinned install behaves the same for every sidecar and leaves it as it was |
| InstallHistory.HashNeverChanges | crates/hjkl-anvil/src/installer.rs:603-697 | over any history of attempts on any tools, a hash once on record stays |
| InstallHistory.UnpinnedSuccessesAgree | crates/hjkl-anvil/src/installer.rs:603-697 | over any history, two unpinned successes for one tool, version and platform installed downloads of one hash |
| TreeSurvival.SurvivesExactlyWhenUntorn | crates/hjkl-anvil/src/installer.rs:704-728 | a complete tree survives the next attempt, for every manifest entry and everything the world may do, if and only if the package directory is not half removed as the attempt begins |
| TreeSurvival.EveryFutureKeepsTree | crates/hjkl-anvil/src/installer.rs:704-728 | the same for whole futures: a complete tree survives every history in which setting aside never half removes the package, but for the last attempt perhaps, if and only if the package directory is not half removed now |
| TreeSurvival.TreeForGood | crates/hjkl-anvil/src/installer.rs:591-757 | over any history of attempts with any failures, crashes and kinds of move, a complete tree stays as long as no attempt on its tool begins with a half removed package directory |
| TreeSurvival.InstalledForGood | crates/hjkl-anvil/src/installer.rs:704-757 | a success has the new tree in place, and from then on a complete tree stays under the same condition |
| TreeSurvival.LastTreeSurvives | crates/hjkl-anvil/src/installer.rs:704-728 | from an empty store on, the very tree that was in place last is complete: there still, or at the backup path while nothing complete is in place |
| TreeSurvival.AttemptSwap | crates/hjkl-anvil/src/installer.rs:704-728 | one attempt from an untorn package directory keeps a tree and the last tree; what is in place afterwards is the new tree, the old one or the backup; and nothing is torn unless setting aside tears |
| TreeSurvival.SuccessPutsTreeInPlace | crates/hjkl-anvil/src/installer.rs:713-757 | a success has the attempt's tree in place, whatever the disk was like before, and what is left of a backup is nothing, or a part where its removal stopped half way |
| TreeSurvival.ClearingCrash | crates/hjkl-anvil/src/installer.rs:708-711 | a crash while a stale backup is cleared leaves the package alone, and of the backup all or a part |
| TreeSurvival.RenamesKeepUntorn | crates/hjkl-anvil/src/installer.rs:359-387 | when setting aside is a rename, no attempt ever begins with a half removed package directory |
| TreeSurvival.FailedMoveIn | crates/hjkl-anvil/src/installer.rs:713-728 | what is in both places after a failed second move, for every kind of failure and rollback |
| TreeSurvival.CopyingTheBackupCanLoseTheTree | crates/hjkl-anvil/src/installer.rs:359-387 | a history of three attempts from an empty store, one success, one copy aside that half removes the package, one failure, after which no complete tree is left |
| InstallHistory.BackupsDoNotCollide | crates/hjkl-anvil/src/installer.rs:229-241 | backup names are injective and never another valid tool's package name |
| InstallHistory.PutIsLocal | crates/hjkl-anvil/src/installer.rs:229-241 | an attempt on one tool leaves the packages, backups and sidecars of all others alone |
| ToolStore.ToolStore.ResolveExpected | crates/hjkl-anvil/src/installer.rs:458-481 | pin, else recorded hash, else first use; a pin is answered without reading |
| ToolStore.ToolStore.RecordHash | crates/hjkl-anvil/src/installer.rs:689-697 | read, set one entry, write the whole text back |
| ToolStore.ToolStore.SwapIn | crates/hjkl-anvil/src/installer.rs:704-728 | the two moves with clean-up and rollback |
| ToolStore.ToolStore.InstallLocked | crates/hjkl-anvil/src/installer.rs:591-757 | the imperative attempt with its early returns does what the specification of an attempt says to disk, reports and result |
| Escaping.TomlEscape | crates/hjkl-anvil/src/store.rs:380-396 | the loop computes the escape function |
| Escaping.TomlUnescape | crates/hjkl-anvil/src/store.rs:400-432 | the loop computes the unescape function |
| Escaping.UnescapeUndoesEscape | crates/hjkl-anvil/src/store.rs:377-432 | unescaping an escaped string gives it back, for every string |
| Escaping.UnescapeAfterEscape | crates/hjkl-anvil/src/store.rs:400-432 | the same in front of any further text |
| Escaping.EscapedCharacters | crates/hjkl-anvil/src/store.rs:380-396 | escaped text holds no line break, and an equals sign or quote only where the text did |
| Escaping.EscapeInjective | crates/hjkl-anvil/src/store.rs:380-396 | no two strings escape to the same text |
| SidecarSyntax.ControlEscape | crates/hjkl-anvil/src/store.rs:380-396 | other control characters are written as `\u00` and their number in two upper-case hexadecimal digits |
| SidecarSyntax.UnknownEscapeStays | crates/hjkl-anvil/src/store.rs:400-432 | a backslash before any other character, or at the end, stays as written |
| SidecarSyntax.HexEscape | crates/hjkl-anvil/src/store.rs:400-432 | four hexadecimal digits of either case stand for the character of that number, and stay as written when there is none |
| SidecarSyntax.SignedHexEscape | crates/hjkl-anvil/src/store.rs:400-432 | a plus sign and three digits are read as the number too |
| Sidecar.ReadHeader | crates/hjkl-anvil/src/store.rs:291-298 | a printed header is read back as its version, for every version string |
| Sidecar.ReadKeyLine | crates/hjkl-anvil/src/store.rs:299-312 | a printed key line is read back as its entry unless triple or hash is empty |
| Sidecar.ReadCutLine | crates/hjkl-anvil/src/store.rs:299-312 | a key with an equals sign is read as some key it can never equal |
| SidecarFile.RoundTripsExactlyWhenWellFormed | crates/hjkl-anvil/src/store.rs:278-338 | reading a printed sidecar gives it back if and only if no version is empty of triples, no hash or triple is empty and no triple holds an equals sign |
| SidecarFile.LookupSurvives | crates/hjkl-anvil/src/store.rs:278-338 | whatever else is recorded, the hash of an ordinary triple is read back |
| SidecarFile.ParsedIsTidy | crates/hjkl-anvil/src/store.rs:278-315 | no text parses to an empty version, triple or hash |
| SidecarSyntax.FileOfOneHash | crates/hjkl-anvil/src/store.rs:323-338 | the very text written for one hash |
| SidecarSyntax.ReadBareLine | crates/hjkl-anvil/src/store.rs:299-312 | plain words need no quotes, and whitespace around key, equals sign and value makes no difference |
| SidecarSyntax.IgnoredLines | crates/hjkl-anvil/src/store.rs:285-312 | blank lines, comments, keys before any section and lines that are neither section nor key change nothing |
| SidecarStore.ChecksumSidecar.Get | crates/hjkl-anvil/src/store.rs:253-258 | the lookup |
| SidecarStore.ChecksumSidecar.Set | crates/hjkl-anvil/src/store.rs:261-271 | one entry changes, all others stay |
| SidecarStore.ChecksumSidecar.ToToml | crates/hjkl-anvil/src/store.rs:323-338 | the loops over sorted keys print the specified text |
| SidecarStore.ChecksumSidecar.Load | crates/hjkl-anvil/src/store.rs:278-315 | the loop over lines computes the specified parse |
| FindBin.WalkDir | crates/hjkl-anvil/src/installer.rs:340-357 | the worklist walk ends and reports each visible file as often as the tree holds it |
| FindBin.WalkListsEachFileOnce | crates/hjkl-anvil/src/installer.rs:340-357 | that is exactly once for visible files and never for anything else |
| FindBin.SortPaths | crates/hjkl-anvil/src/installer.rs:323-337 | a sorted permutation by depth, then path |
| FindBin.FindBinary | crates/hjkl-anvil/src/installer.rs:310-337 | `bin/<name>`, else `<name>`, else the least match by depth and path order |
| FindBin.ListingOrderDoesNotMatter | crates/hjkl-anvil/src/installer.rs:310-357 | permuting the listing of every directory does not change the answer |
| FindBin.BinPathIsAFile | crates/hjkl-anvil/src/installer.rs:310-337 | the answer is a file of that name: the conventional one, else the one at the root, else one that comes before every other visible one; without an answer none is visible |
| FindBin.FallbackIsShallowestFirst | crates/hjkl-anvil/src/installer.rs:323-337 | the fallback answer has no visible namesake with fewer components, nor one of equal depth with the smaller name, character by character, where the two paths first differ |
| Extract.ComponentsAreNormal | crates/hjkl-anvil/src/installer.rs:248-261 | normal components hold no separator and are not a dot name |
| Extract.SafeJoin | crates/hjkl-anvil/src/installer.rs:248-261 | refuses exactly the paths with a parent or root component, else appends the normal ones in order |
| Extract.Extraction.CopyInto | crates/hjkl-anvil/src/installer.rs:785-800 | copies at most the budget plus one byte and decrements the shared budget |
| Extract.Extraction.ExtractArchive | crates/hjkl-anvil/src/installer.rs:811-887 | for every archive format, does what the specification of unpacking says to disk and budget |
| Extract.Extraction.ExtractEntries | crates/hjkl-anvil/src/installer.rs:822-879 | the same for the loop over entries |
| Extract.ExtractionIsConfined | crates/hjkl-anvil/src/installer.rs:248-261 | every directory made and file written lies below the root through normal names; everything else is untouched |
| Extract.LeavingEntryIsRefused | crates/hjkl-anvil/src/installer.rs:248-261 | an entry whose path starts with a slash or has `..` among its segments ends the extraction with an error, wherever it comes; the disk is what the entries before it made of it |
| Extract.EntryGoesWhereItSays | crates/hjkl-anvil/src/installer.rs:811-887 | any other entry goes below the root by the segments of its path other than empty ones and dots, in order: a file's data exactly there, a directory there, other kinds only get the directories on the way |
| Extract.PlainEntryIsUnpacked | crates/hjkl-anvil/src/installer.rs:811-887 | with a working disk, nothing in the way and room in the budget such an entry is not refused |
| Extract.BudgetIsConserved | crates/hjkl-anvil/src/installer.rs:785-887 | on success bytes written plus remaining budget are the initial budget; on failure at most one byte beyond it was written |
| Extract.ExtractedContents | crates/hjkl-anvil/src/installer.rs:811-887 | after success each path holds the last entry for it, all others what they had |
| Extract.FitsExactly | crates/hjkl-anvil/src/installer.rs:785-800 | whatever decoder, disk and paths do, an extraction succeeds if and only if the files fit in the budget together and it succeeds with a budget that just fits them |
| Extract.SingleFileContents | crates/hjkl-anvil/src/installer.rs:847-884 | after success the one file of a gzip or raw download holds exactly the data, nothing else changed, and only gzip used the budget |
| Extract.SingleFileFits | crates/hjkl-anvil/src/installer.rs:847-884 | the budget bounds the gzip file; a raw download is copied whatever its size |
| Extract.UnpackingIsConfined | crates/hjkl-anvil/src/installer.rs:566-568 | under a binary name the installer accepts, unpacking an archive of any format creates and changes nothing outside the directory |
| Extract.SafeComponentIsBelow | crates/hjkl-fs/src/path.rs:206-209 | an accepted name puts the single file straight into the root |
| Extract.SafeNameExactly | crates/hjkl-fs/src/path.rs:206-209 | accepted are exactly the names whose first segment is neither empty nor a dot name, with only empty segments and dots after it; the file is called by that first segment |
| Extract.SingleFileIsConfinedExactly | crates/hjkl-anvil/src/installer.rs:847-884 | a new single file stays inside if and only if its name leads below the root; of the names with at most one component, all that can be created at all are accepted ones |
| Utf8.DecodeInvertsEncode | apps/hjkl/src/nvim_api.rs:361-372 | bytes decode to a text if and only if they are its encoding; overlong forms and surrogates do not decode |
| Utf8.KnownEncodings | apps/hjkl/src/nvim_api.rs:361-372 | the encoding of one character of each length, after section 7 of RFC 3629 |
| Utf8.BoundaryIsOffset | apps/hjkl/src/nvim_api.rs:366-372 | the character boundaries of a text are exactly the offsets of its characters |
| Utf8.ValidCut | apps/hjkl/src/nvim_api.rs:1752-1770 | cutting a valid text at a boundary gives two valid texts |
| Utf8.ValidPrefixExactlyAtBoundary | apps/hjkl/src/embed.rs:508-508 | the front of a valid text is valid if and only if the cut falls between two characters |
| Rows.JoinOfSplit | crates/hjkl-buffer/src/buffer.rs:887-892 | joining the rows of a text gives it back |
| Rows.SplitOfJoin | apps/hjkl/src/nvim_api.rs:384-406 | splitting joined newline-free rows gives them back |
| Rows.RowSits | crates/hjkl-buffer/src/buffer.rs:877-892 | where each row starts and ends in the bytes, and which byte comes after it |
| Rows.PositionIsOffset | apps/hjkl/src/nvim_api.rs:1746-1751 | rows with columns and byte offsets correspond one to one |
| Indices.LineRangeMeaning | apps/hjkl/src/nvim_api.rs:303-334 | which calls are out of bounds or out of order, which range the others name, and that non-strict ends are pulled to the nearer end |
| Indices.FromEndNames | apps/hjkl/src/nvim_api.rs:311-318 | saturating arithmetic never distorts an index |
| Indices.TextRowMeaning | apps/hjkl/src/nvim_api.rs:336-343 | the rows a number names, from either end |
| Indices.TextColMeaning | apps/hjkl/src/nvim_api.rs:345-359 | setters accept exactly the columns that name a place, getters move the others to the nearer end |
| Splice.SplicedRows | apps/hjkl/src/nvim_api.rs:384-406 | the rows after any splice, in all cases |
| Splice.SpliceRefinesRowEdit | apps/hjkl/src/nvim_api.rs:384-406 | for newline-free lines the byte splice is the list edit if and only if the joined text is not empty, or nothing is inserted and rows remain after the range or it is the end, or one empty line replaces the last rows |
| Splice.SpliceOfNothing | apps/hjkl/src/nvim_api.rs:384-406 | the remaining cases: one empty row is left behind, one empty line acts like none |
| Splice.EmbeddedNewlines | apps/hjkl/src/nvim_api.rs:384-406 | lines that hold newlines become all their rows |
| Splice.OutsideRowsAreKept | apps/hjkl/src/nvim_api.rs:374-383 | rows outside the range survive byte for byte, in every case |
| Splice.WriteBackRows | apps/hjkl/src/nvim_api.rs:384-406 | writing back the rows read is the identity if and only if they are not one empty row before the last |
| Splice.SetRowMeaning | apps/hjkl/src/nvim_api.rs:1566-1580 | setting the current line replaces exactly that row; a row past the end changes nothing |
| Splice.SetRowIsSplice | apps/hjkl/src/nvim_api.rs:1566-1580 | it equals the one-row splice if and only if the line is not empty or the row is the last |
| Splice.SpliceKeepsUtf8 | apps/hjkl/src/nvim_api.rs:389-405 | the slices are taken at character boundaries and the result is UTF-8 |
| TextRange.SpanIsNeverInverted | apps/hjkl/src/nvim_api.rs:1749-1767 | the snapped span is in order for every accepted range, so the inversion check never fires |
| TextRange.GetTextIsTheSpan | apps/hjkl/src/nvim_api.rs:1647-1671 | the strings read, joined, are exactly the bytes of the snapped span |
| TextRange.GetTextSplitsTheSpan | apps/hjkl/src/nvim_api.rs:1647-1671 | one newline-free string per spanned row: the span, split |
| TextRange.WriteBackText | apps/hjkl/src/nvim_api.rs:1625-1771 | writing back what was read is the identity, for all accepted positions including mid-character ones |
| TextRange.SetTextIsLocal | apps/hjkl/src/nvim_api.rs:1749-1770 | bytes outside the span are untouched, the slices are at boundaries, the result is UTF-8 |
| TextRange.SetTextRows | apps/hjkl/src/nvim_api.rs:1749-1770 | as a list edit: what is left of the first and last row closes around the new text |
| TextRange.ReadAfterWrite | apps/hjkl/src/nvim_api.rs:1625-1771 | reading the place just written gives back the lines written |
| TextRange.WrittenPlace | apps/hjkl/src/nvim_api.rs:1749-1770 | where that place is, as rows and columns |
| NvimBuffer.WriteRangeMeaning | apps/hjkl/src/nvim_api.rs:1722-1738 | a write is accepted exactly for the ranges its four numbers name |
| NvimBuffer.ReadRangeMeaning | apps/hjkl/src/nvim_api.rs:1622-1645 | a read is accepted exactly for the ranges whose rows its numbers name and whose columns its numbers are pulled to |
| NvimBuffer.RefusalsNameTheirCause | apps/hjkl/src/nvim_api.rs:1622-1738 | which mistake a refused read or write is blamed on, in which order |
| NvimBuffer.ResolvedRangeIsInText | apps/hjkl/src/nvim_api.rs:1625-1645 | whatever the numbers, an accepted range lies in the text with its ends in order |
| NvimBuffer.Buffer.GetLines | apps/hjkl/src/nvim_api.rs:995-1006 | the loop returns exactly the rows of the resolved range |
| NvimBuffer.Buffer.SetLines | apps/hjkl/src/nvim_api.rs:900-953 | refused calls leave the text alone, accepted ones splice it; it stays UTF-8 |
| NvimBuffer.Buffer.SetCurrentLine | apps/hjkl/src/nvim_api.rs:1566-1580 | the rebuilding loop replaces one row |
| NvimBuffer.Buffer.GetText | apps/hjkl/src/nvim_api.rs:1625-1671 | the loop over rows with its boundary searches returns the specified strings or the specified error |
| NvimBuffer.Buffer.SetText | apps/hjkl/src/nvim_api.rs:1722-1781 | refused calls leave the text alone, accepted ones replace the snapped span; it stays UTF-8 |
| NvimBuffer.FindBoundaryDown | apps/hjkl/src/nvim_api.rs:1662-1665 | the downward search ends at the greatest boundary |
| NvimBuffer.FindBoundaryUp | apps/hjkl/src/nvim_api.rs:1666-1668 | the upward search ends at the least boundary |
| TextRange.SnapDownIsGreatest | apps/hjkl/src/nvim_api.rs:1754-1757 | the snapped start is the greatest boundary at or below the position |
| TextRange.SnapUpIsLeast | apps/hjkl/src/nvim_api.rs:1758-1760 | the snapped end is the least boundary at or above it |
| Columns.ByteColToCharCol | apps/hjkl/src/nvim_api.rs:366-372 | the stepping loop ends and counts exactly the characters that end at or before the clamped column |
| Columns.CharColToByteCol | apps/hjkl/src/nvim_api.rs:1131-1139 | adding up character lengths gives the offset of the character, or the length past the last |
| Columns.Adjoint | apps/hjkl/src/nvim_api.rs:366-372 | a character starts at or before a byte column exactly when that many characters fit before it: the conversions form an adjoint pair |
| Columns.ByteCharByte | apps/hjkl/src/nvim_api.rs:366-372 | byte to character to byte is the greatest boundary at or below |
| Columns.CharByteChar | apps/hjkl/src/nvim_api.rs:1131-1139 | character to byte to character is the identity up to the character count |
| Columns.ConversionsAreMonotone | apps/hjkl/src/nvim_api.rs:366-372 | both conversions are monotone |
| Columns.CursorRoundTrip | apps/hjkl/src/nvim_api.rs:366-372 | converting a byte column there and back gives the last boundary at or below it, however wild the column |
| WindowCursor.Window.SetCursor | apps/hjkl/src/nvim_api.rs:1044-1084 | the cursor goes where the specification says: row from one, column converted, truncated to 32 bits, pulled into the text |
| WindowCursor.Window.GetCursor | apps/hjkl/src/nvim_api.rs:1093-1146 | the row counted from one and the byte its character starts at |
| WindowCursor.SetOnRow | apps/hjkl/src/nvim_api.rs:1044-1146 | on a row of the buffer the cursor comes back on that row at the last character boundary at or below the byte asked for, if and only if row and character column fit in 32 bits |
| WindowCursor.SetPastTheEnd | apps/hjkl/src/nvim_api.rs:1044-1084 | a row past the end puts the cursor at the start of the last row, if and only if the 32 bits kept of the row still lie past the end |
| WindowCursor.SetRow | apps/hjkl/src/nvim_api.rs:1044-1044 | rows are counted from one: row `r` of the buffer is index `r - 1`, and zero and below act exactly like one |
| WindowCursor.SetThenGet | apps/hjkl/src/nvim_api.rs:1044-1146 | setting the cursor on a row of the buffer and asking for it gives back that row and the snapped byte column |
| Columns.ByteColumnReach | apps/hjkl/src/nvim_api.rs:366-367 | negative columns reach the end of the line |
| RpcLoop.Reader.ReadLine | apps/hjkl/src/embed.rs:506-512 | for any chunking, a capped read takes the bytes through the next newline or up to the cap |
| RpcLoop.Reader.DrainToNewline | apps/hjkl/src/embed.rs:87-100 | for any chunking, exactly the bytes through the next newline are dropped |
| RpcLoop.HandleLine | apps/hjkl/src/embed.rs:522-597 | parsing, checking and dispatching one line does what the specification of a line says to state, answers and quitting |
| RpcLoop.Run | apps/hjkl/src/embed.rs:506-600 | the loop computes the session over the newline-separated lines of the input, whatever the chunking |
| RpcLoop.ReadKind | apps/hjkl/src/embed.rs:508-525 | whether its newline came along makes no difference to what a line is |
| RpcProtocol.OneAnswerEach | apps/hjkl/src/embed.rs:506-597 | the ids of the answers are, in order, those the lines taken up call for; all lines are taken up unless one quits or cannot be decoded |
| RpcProtocol.AnsweredLines | apps/hjkl/src/embed.rs:522-592 | which lines are answered, and with which id: all but blank ones and 2.0 objects without an id |
| RpcProtocol.NoIdNoMethodNoAnswer | apps/hjkl/src/embed.rs:549-562 | a 2.0 object with neither id nor method is not answered |
| RpcProtocol.ServeConcat | apps/hjkl/src/embed.rs:506-600 | a session over two stretches of lines is the second after the first |
| RpcProtocol.FramesAtNewline | apps/hjkl/src/embed.rs:506-512 | lines before a newline and lines after it do not mix |
| RpcProtocol.OversizedLineIsSkipped | apps/hjkl/src/embed.rs:513-520 | an oversized line costs one error, and what follows its newline is served as if it had not been there; one at the end of input costs one error too |
| RpcProtocol.OversizedLineEndsSession | apps/hjkl/src/embed.rs:508-520 | an oversized line whose readable part does not decode ends the session without an answer |
| RpcProtocol.CapInsideCharacter | apps/hjkl/src/embed.rs:508-520 | an oversized line of proper text, ended by a newline or by the end of input, is answered and skipped if the cap falls between two characters and ends the session unanswered if it falls inside one |
| RpcMeaning.CallsAreDispatchedInOrder | apps/hjkl/src/embed.rs:549-600 | the editor at the end of a session has seen exactly the calls among the lines taken up, each with its own method and parameters (an empty array when absent), in order; the session quits exactly at the first call whose dispatch asks to, and else ends at the first unreadable line or the end of input |
| RpcMeaning.AnswersAreTheReplies | apps/hjkl/src/embed.rs:513-592 | in the place of each line taken up stands its answer: for a call with an id the reply of its own dispatch, in the state the calls before have left, under that id; for a refused line the error code and message of its kind; nothing for notifications and blank lines |
| LineDiff.AlignLines | crates/hjkl-app/src/diff.rs:71-145 | the loops over the script push the specified rows |
| LineDiff.EveryLineOnce | crates/hjkl-app/src/diff.rs:71-145 | for any script that tiles both texts, the rows show lines 0..n of one and 0..m of the other once each and in order, no row is filler twice, kinds fit the sides, and the row count is n plus inserts and m plus deletes |
| LineDiff.RowsAreTruthful | crates/hjkl-app/src/diff.rs:71-93 | rows marked equal join equal lines, and all indices are in range |
| LineDiff.EmptyDiffMeansEqual | crates/hjkl-app/src/diff.rs:56-63 | all rows are equal exactly when no step of the script removes or adds a line, and then the texts are the same |
| LineDiff.StepPairsUp | crates/hjkl-app/src/diff.rs:64-145 | a step has as many rows as its longer side has lines, and line `k` of one side stands beside line `k` of the other or beside filler |
| CharDiff.RangeList.PushCoalesced | crates/hjkl-app/src/diff.rs:179-188 | a range that touches the last one grows it, any other is appended |
| CharDiff.MarkMore | crates/hjkl-app/src/diff.rs:179-188 | marking more text keeps the ranges apart, adds it to the marked text and leaves the rest alone |
| CharDiff.CharRanges | crates/hjkl-app/src/diff.rs:153-177 | both range lists are ascending, non-empty, in bounds and separated by gaps; the lines without them are the same text, and they hold exactly the deleted and the inserted characters |
| SearchCount.PartitionPoint | apps/hjkl/src/render.rs:2552-2560 | on ascending starts the binary search is the linear count |
| SearchCount.ScanMatches | apps/hjkl/src/render.rs:2533-2543 | the scan keeps the first matches up to the cap |
| SearchCount.CountReads | apps/hjkl/src/render.rs:2477-2561 | no answer exactly without matches; the index counts the tracked matches at or before the cursor, and neither number passes the cap |
| SearchCount.CursorByteIsThePlace | apps/hjkl/src/render.rs:2504-2527 | the text before the cursor's byte is the rows above its row and the characters of its row before its column, the newline excluded; past the last row it is the whole text |
| SearchCount.App.SearchCount | apps/hjkl/src/render.rs:2494-2561 | after any run of edits, moves, pattern changes and switches the cached answer is that of a fresh scan, except exactly when the cached buffer was edited a nonzero multiple of 2^64 times since the cache was filled, where it is that of the text cached |
| SearchCount.App.Refresh | apps/hjkl/src/render.rs:2529-2550 | after the lookup the entry holds the matches of the current text, or of the cached one in that same case |
| SearchCount.CountAfterFullCircle | apps/hjkl/src/render.rs:2529-2560 | a run of 2^64 edits after which the counter reports a match in an empty text |
| EndOfLine.LoadSaveExact | apps/hjkl/src/save.rs:46-91 | load then save is the identity under `nofixendofline`; under `fixendofline` it appends a newline exactly to text that lacks one |
| EndOfLine.SaveOnceIsEnough | apps/hjkl/src/save.rs:54-91 | one save reaches a fixed point |
| EndOfLine.NewFile | apps/hjkl/src/save.rs:32-44 | a new file is empty or ends in a newline |
| EndOfLine.WriteThenLoad | apps/hjkl/src/save.rs:54-91 | what was written loads back as the same text exactly when a newline was added or the text did not end in one |
| EndOfLine.EditThenSave | apps/hjkl/src/save.rs:46-91 | a file opened, edited and saved gets its final newline exactly if the option asks for it, the file had one or the file was empty; emptied text is written as a lone newline exactly if the file had text and one of the first two holds |
| Words.SplitOfJoined | apps/hjkl/src/set_tokens.rs:53-76 | words joined with blanks split into the same words |
| SetTokens.NonTuiSetHost.SetEndOfLine | apps/hjkl/src/save.rs:128-149 | the loop keeps the other tokens in order, folds the assignments into the state and replies to the queries with the value at that point |
| SetTokens.NonTuiSetHost.InterceptSetTokens | apps/hjkl/src/set_tokens.rs:53-76 | two passes decide the line as one pass over all tokens would, and leave `endofline` the fold of its tokens |
| SetTokens.LastWordDecides | apps/hjkl/src/save.rs:112-149 | `endofline` is on after a last `eol` and off after a last `noeol`, in either spelling, turned over once for every `eol!` after it, whatever came before |
| SetTokens.OnlyTurnedOver | apps/hjkl/src/save.rs:112-149 | without such a word it is turned over as often as is said and otherwise kept |
| SetTokens.QueryTellsTheValue | apps/hjkl/src/save.rs:135-149 | each query is replied to in its turn with the value at that point |
| SetTokens.HostTokens | apps/hjkl/src/save.rs:112-120 | which tokens the host takes for itself |
| SetTokens.TwoPassesAreOne | apps/hjkl/src/set_tokens.rs:49-66 | the order in which the families are matched does not matter |
| SetTokens.PassThroughMeaning | apps/hjkl/src/set_tokens.rs:69-75 | a line passes through exactly when it holds engine tokens only, and is swallowed exactly when it holds none |
| SetTokens.RebuiltLineIsClean | apps/hjkl/src/set_tokens.rs:69-75 | a rebuilt line carries exactly the engine tokens in order; intercepting it again passes it through with the state unchanged |

## Left out

- The wording of error messages: a debug-quoted value appears unquoted, and I/O errors have one text.
- The cargo, npm, pip and go installers, the download itself, real archive decoding and real SHA-256: foreign calls; what they may answer is an input.
- Worker panics, mutex poisoning, dropping the pool, and cloned handles that read from one channel: one reader per handle is modelled.
- The step from extracted entries to the directory tree: `Extract` speaks of paths and bytes, `FindBin` and the attempt of a tree that unpacking is taken to have produced.
- The name checks before the lock: tool names are taken to be valid in histories, and the check of the binary's name is used where one file is unpacked (`Extract.IsSafeComponent`).
- The per-package lock around an attempt: attempts on one tool are taken to run one after the other.
- Symbolic links inside an unpacked archive: the walk is over a finite tree of files and directories.
- Crashes inside a single file-system call: a call happens, fails or is interrupted in the ways its documented contract allows; a directory move that copies also in the middle of its final swap.
- InstallHistory.HashNeverChanges: speaks of triples that cannot be taken for a cut key, which all platform triples are.
- Line breaks other than `\n`: `\r` and the Unicode separators that the rope library also splits on are ordinary bytes here.
- The undo history, modelines, syntax and cursor moves that follow a content change through the nvim API, and the scrolling and sticky column that follow a cursor move.
- The other calls of the nvim API dispatcher: they delegate to the application object or are plain lookups.
- I/O errors while reading requests or writing responses, JSON parsing and the editor commands behind the dispatcher: the parser and the dispatcher are arbitrary functions.
- The diff library, the regular-expression engine and the rope: a script tiles both texts, matches are ascending, rows are as in `Rows`.
- LineDiff.EmptyDiffMeansEqual: equal texts with a script that nevertheless replaces lines are not ruled out, since the script is the library's.
- SearchCount.App.SearchCount: that every content change bumps the buffer's generation is taken from the buffer's contract.
- Durable saving (temporary files, permissions, symbolic links) and the TUI's own `:set` replies and persistence.
- Drawing, themes, start-up, command-line handling and configuration files.
