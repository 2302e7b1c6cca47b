# DuplicatesCleaner: a verified model of the duplicate-detection pipeline

DuplicatesCleaner removes duplicate files from one or more directory trees.
Its core is `check_for_duplicates` in `deletecopies.py`, a three-stage
progressive filter:

1. Every file found by the walk is resolved to its realpath. Its size is
   taken and the path is appended under that size in `files_by_size`.
2. Every size group of two or more files is hashed on its first 1024 bytes,
   and each path is appended under that digest in `files_by_small_hash`.
3. Every prefix group of two or more files is hashed in full. The first file
   of each full digest is recorded in `files_by_full_hash` as the survivor.
   Every later file with the same digest is reported as a duplicate and
   removed. A removal that raises PermissionError is counted in `skipped`.
   Every removal that succeeds or raises PermissionError is counted in
   `removed`; any other removal error escapes and ends the scan.

The chunked reader `chunk_reader` and the hasher `get_hash` feed stages 2
and 3.

The project models this core as follows:

- `filesystem.dfy` (module `FileSystem`): the operating system as the
  program sees it.
  - A `Disk` class holds the mutable map from paths to bytes.
  - A fixed `Env` holds what stays constant during a scan:
    - symlink resolution: a path missing from `resolve` makes realpath raise
      OSError;
    - files that cannot be opened;
    - files whose removal raises PermissionError;
    - files whose removal raises some other error.
  - `BinaryFile` is an open file with a read position.
  - `Unescape` is the exact backslash replacement done before each removal.
- `hashing.dfy` (module `Hashing`): the reader and the hasher.
  - `ChunkReader` is the read loop. `Hasher` is the incremental SHA-1
    object. `GetHash` is the function of the same name.
  - `Digest` stands in for SHA-1: it keeps the hashed bytes, so equal
    digests mean equal inputs.
- `buckets.dfy` (module `Buckets`): `defaultdict(list)`, with its keys in
  insertion order, as Python dictionaries iterate them. `Eligible` is what a
  loop over `d.values()` visits when it skips every group of fewer than two.
- `pipeline.dfy` (module `Pipeline`): the three stages as functions of the
  walked paths and the filesystem.
  - `SizeGroups`, `PrefixGroups` and `Resolve` build the three tables.
  - `Scan` is the whole run.
  - A run ends either with the two numbers of the finishing message
    (`Finished`) or with the removal error that escapes (`Aborted`).
  - `Report` records each "Duplicate found" event: the duplicate, its
    survivor, and how the removal ended.
- `scanner.dfy` (module `Scanner`): `check_for_duplicates` as the program
  runs it, with the same nested loops, counter updates and removals. Each
  append re-binds the dictionary to the value `Buckets.Append` returns. Each
  loop method is proved equal to the matching function of `Pipeline`.
- `properties.dfy` (module `Properties`): what the filter guarantees, as
  lemmas about those functions:
  - stage gating and failure skipping;
  - first writer wins;
  - soundness of every removal;
  - counter accounting;
  - the trivial inputs;
  - survivor safety and its precondition;
  - completeness: of two equal files one is reported;
  - repeated realpaths: a readable file found twice is removed;
  - idempotence of a second run;
  - the two-copies scenario.
- `findings.dfy` (module `Findings`): a symlink listed before its target
  makes the program remove the file it keeps. This module exhibits that run
  and proves the survivor guarantee for a first loop that appends each
  realpath once. It also exhibits a run where the backslash replacement
  turns a duplicate's name into its survivor's name and removes the
  survivor, and proves that with removals aimed at the hashed name as well,
  no survivor is removed, with no premise on the walk or the names.

The walk itself is an input: `walked` is the sequence of joined paths that
`os.walk` over `paths` produces.

## Model

| member | source | states |
|---|---|---|
| FileSystem.Realpath | deletecopies.py:47-51 | realpath yields a path exactly when the walked path can be resolved; otherwise the OSError skips the file |
| FileSystem.SizeOf | deletecopies.py:48 | getsize succeeds exactly for a file present on disk and yields its byte count |
| FileSystem.ReadBytes | deletecopies.py:20 | opening succeeds exactly for a present, readable file and yields its whole content |
| FileSystem.RemovalOutcome | deletecopies.py:90-94 | a removal succeeds only on a present file; it raises PermissionError exactly for a present protected file; any other failure is the fatal kind |
| FileSystem.AfterRemoval | deletecopies.py:91 | a successful removal takes exactly that path off the disk; a failed one changes nothing; no surviving content changes |
| FileSystem.Unescape | deletecopies.py:89 | the replacement leaves a name without a double backslash unchanged, and strictly shortens any name with one |
| FileSystem.BinaryFile.Remaining | deletecopies.py:12 | the unread bytes are exactly what follows the read position |
| FileSystem.BinaryFile.Open | deletecopies.py:20 | a fresh file holds the content and is positioned at its start |
| FileSystem.BinaryFile.Read | deletecopies.py:12 | a read returns min(n, remaining) bytes, exactly the next unread ones, and advances past them |
| FileSystem.Disk.constructor | deletecopies.py:29 | the disk starts with the given files and environment |
| FileSystem.Disk.GetSize | deletecopies.py:48 | getsize on the current disk |
| FileSystem.Disk.Open | deletecopies.py:20 | open fails exactly when the file is missing or unreadable, and otherwise gives a fresh file at position 0 holding its content |
| FileSystem.Disk.Remove | deletecopies.py:91-94 | os.remove ends with the outcome the environment dictates and leaves exactly the files that outcome leaves |
| Hashing.Prefix | deletecopies.py:22 | the first read of 1024 bytes returns exactly min(1024, len) leading bytes of the content |
| Hashing.Chunks | deletecopies.py:9-15 | definition with no contract of its own: the chunks chunk_reader yields; Hashing.ChunksCover and Hashing.ChunkReader describe it |
| Hashing.ChunksCover | deletecopies.py:9-15 | every chunk the reader yields is non-empty and at most chunk_size bytes; for a positive chunk size the chunks in order concatenate to the data; chunk size 0 yields nothing |
| Hashing.ChunkReader | deletecopies.py:9-15 | the read loop returns exactly the chunks of the unread content and leaves the file at its end (untouched for chunk size 0) |
| Hashing.Hasher.constructor | deletecopies.py:19 | a new hash object has been fed nothing |
| Hashing.Hasher.Update | deletecopies.py:22-25 | update appends the chunk to the bytes fed so far |
| Hashing.Hasher.Digest | deletecopies.py:26 | the digest is over exactly the bytes fed |
| Hashing.FileDigest | deletecopies.py:18-26 | a digest exists exactly when the file can be opened; it covers the first min(1024, len) bytes with first_chunk_only and the whole content otherwise |
| Hashing.GetHash | deletecopies.py:18-26 | hashing chunk by chunk yields the digest of the whole content, and the prefix branch yields the digest of the first 1024 bytes; an unopenable file raises |
| Buckets.Empty | deletecopies.py:36-37 | a new defaultdict has no keys and no entries |
| Buckets.Append | deletecopies.py:52 | appending to a key's list creates it when absent, lists a new key last, and leaves every other list unchanged |
| Buckets.AppendHasEntry | deletecopies.py:67 | an append adds exactly that path to the entries |
| Buckets.AppendDistinct | deletecopies.py:52 | appending a path not yet present keeps every path in one list |
| Buckets.EligibleMembers | deletecopies.py:57-61 | the loop over the values visits exactly the members of groups of two or more |
| Buckets.EligibleUpToNext | deletecopies.py:57-59 | the loop over the values goes on to a group of two or more and skips a smaller one |
| Buckets.NoSharedGroupVisitsNothing | deletecopies.py:57-59 | when every group has fewer than two members, the loop over the values visits nothing |
| Buckets.OneGroupEligible | deletecopies.py:57-61 | a single group of two or more is visited member by member, in order |
| Buckets.AppendTwiceEligible | deletecopies.py:52 | two appends under one key to a new dictionary make one group of two, which the loop over the values visits |
| Buckets.AppendGroup | deletecopies.py:52 | an append under a key extends that key's list by the path and leaves the list of every other key as it was |
| Buckets.EligibleCount | deletecopies.py:57-61 | the loop over the values visits a path that sits under one key as often as it occurs in that key's list when the list has two or more members, and never otherwise |
| Buckets.EligibleDistinct | deletecopies.py:74-79 | with distinct entries, the loop visits each path at most once |
| Buckets.EligibleUpTo | deletecopies.py:57-59 | definition with no contract of its own: what the values() loops of stages 2 and 3 (also lines 74-77) visit in the first n groups, skipping groups of fewer than two; Buckets.EligibleUpToNext and Buckets.EligibleMembers describe it |
| Buckets.Eligible | deletecopies.py:74-77 | definition with no contract of its own: everything such a values() loop visits, in order; Buckets.EligibleMembers, Buckets.EligibleDistinct and Buckets.NoSharedGroupVisitsNothing describe it |
| Pipeline.SizeStep | deletecopies.py:43-52 | one walked path keeps files_by_size well formed |
| Pipeline.SizeGroups | deletecopies.py:40-54 | files_by_size after the walk is a well-formed ordered dictionary |
| Pipeline.Discovered | deletecopies.py:44-52 | definition with no contract of its own: the realpaths appended to files_by_size, in walk order; Properties.SizeGroupsMembers, Properties.DiscoveredShrinks and Findings.SymlinkDiscovered describe it |
| Pipeline.PrefixStep | deletecopies.py:62-67 | one prefix hash keeps files_by_small_hash well formed |
| Pipeline.PrefixGroups | deletecopies.py:57-69 | files_by_small_hash is a well-formed ordered dictionary |
| Pipeline.ResolveStep | deletecopies.py:80-97 | a file that cannot be hashed changes nothing; table entries are never changed; files only leave the disk; each visit adds at most one to removed, and skipped grows no more than removed; reports are only appended |
| Pipeline.Start | deletecopies.py:33-38 | definition with no contract of its own: files_by_full_hash empty, both counters 0, the disk as given, no reports and no error; Properties.ResolveCounts, Properties.CounterAccounting and Properties.NothingSharedRemovesNothing describe the state stage 3 reaches from it |
| Pipeline.Resolve | deletecopies.py:74-99 | definition with no contract of its own: stage 3 over the candidates, stopping at a fatal removal error; Properties.ResolveSound, Properties.ResolveCounts, Properties.ResolveKeepsSurvivors and Properties.ResolveVisitsAll describe it, and Scanner.ResolveByFullHash is proved equal to it |
| Pipeline.Scan | deletecopies.py:29-101 | definition with no contract of its own: the three stages composed; Properties.CounterAccounting, Properties.SurvivorsNeverRemoved, Properties.EqualContentPairReported and Properties.SecondRunRemovesNothing describe it, and Scanner.CheckForDuplicates is proved equal to it |
| Pipeline.StatusOf | deletecopies.py:101 | definition with no contract of its own: the two numbers the finishing message shows, or the escaping error; Properties.CounterAccounting relates them to the files removed and the PermissionErrors |
| Pipeline.ResolveAfterCrash | deletecopies.py:90-94 | once a removal error other than PermissionError escapes, no later file is visited |
| Scanner.GroupBySize | deletecopies.py:40-54 | the walk loop builds exactly files_by_size of the model |
| Scanner.HashPrefixes | deletecopies.py:61-69 | the inner loop of stage 2 appends the prefix digests of one group |
| Scanner.HashSizeGroup | deletecopies.py:57-69 | one pass of the outer loop of stage 2: a size group of fewer than two is skipped, otherwise the prefix digests of its members are appended |
| Scanner.GroupByPrefixHash | deletecopies.py:57-69 | stage 2 builds exactly files_by_small_hash over the members of size groups of two or more |
| Scanner.VisitCandidate | deletecopies.py:80-99 | one stage-3 visit updates table, counters, disk and reports as the model step does, and returns the fatal removal error if one occurs |
| Scanner.VisitGroupMember | deletecopies.py:79-99 | one pass of the inner loop of stage 3 advances the state by exactly the model step for that member |
| Scanner.ResolveGroup | deletecopies.py:79-99 | the inner loop of stage 3 over one prefix group, stopping at a fatal error |
| Scanner.ResolveByFullHash | deletecopies.py:74-99 | stage 3 yields exactly the table, counters, reports and disk of the model, over the members of prefix groups of two or more |
| Scanner.CheckForDuplicates | deletecopies.py:29-101 | the whole scan reports the model's status (removed - skipped and skipped, or the escaping error), its duplicate reports and its final disk |
| Properties.SizeGroupsMembers | deletecopies.py:44-52 | files_by_size holds exactly the realpaths whose realpath and size could be taken; a failing one is left out |
| Properties.SizeGroupsKeys | deletecopies.py:48-52 | each path sits under its own size |
| Properties.SizeGroupsDistinct | deletecopies.py:47-52 | distinct realpaths give distinct entries |
| Properties.PrefixGroupsMembers | deletecopies.py:61-67 | files_by_small_hash holds exactly the visited files that could be opened; a failing one is left out |
| Properties.PrefixGroupsKeys | deletecopies.py:63-67 | each path sits under the digest of its own first 1024 bytes |
| Properties.PrefixGroupsDistinct | deletecopies.py:61-67 | distinct paths give distinct entries |
| Properties.SizeGroupsCount | deletecopies.py:47-52 | a realpath occurs in its size group as often as the walk appended it |
| Properties.PrefixGroupsCount | deletecopies.py:61-67 | a readable file occurs in its prefix group as often as it was among the files hashed |
| Properties.SizeStageRepeats | deletecopies.py:47-61 | a file reaches stage 2 twice or more exactly when the walk appended its realpath twice or more |
| Properties.PrefixStageRepeats | deletecopies.py:61-79 | a readable file reaches stage 3 twice or more exactly when it was hashed in stage 2 twice or more |
| Properties.RepeatedThroughStages | deletecopies.py:47-79 | a readable file reaches stage 3 twice or more exactly when the walk appended its realpath twice or more, as for a symlink beside its target |
| Properties.StageGating | deletecopies.py:56-79 | a file reaches the full hash only if it was found and readable, its size group has at least two members and its prefix group has at least two members |
| Properties.ResolveSound | deletecopies.py:86-97 | stage 3 only removes files; every survivor has the digest of its original content; every report pairs a duplicate with an earlier survivor of equal content |
| Properties.SoundStep | deletecopies.py:82-97 | visiting one more candidate keeps the soundness invariant: files only leave, survivors carry their content's digest, reports pair equal contents with an earlier survivor |
| Properties.RemovedOnlyAfterEarlierTwin | deletecopies.py:86-97 | a file is reported for removal only when an earlier-visited file with equal full content is its recorded survivor |
| Properties.TableNeverOverwritten | deletecopies.py:86-97 | an entry of files_by_full_hash is never overwritten: first writer wins |
| Properties.ResolveCounts | deletecopies.py:90-95 | removed counts reports whose removal succeeded or raised PermissionError; skipped counts the latter; at most a last report failed fatally; each success took one file off the disk |
| Properties.CounterAccounting | deletecopies.py:90-101 | skipped <= removed; removed - skipped equals the files that left the disk; the finishing message reports those two numbers |
| Properties.NothingSharedRemovesNothing | deletecopies.py:40-59 | with an empty walk, or no two files of one size, nothing is hashed in full or removed and both counters are 0 |
| Properties.ResolveKeepsSurvivors | deletecopies.py:86-97 | with distinct candidates and no double backslash, every survivor is still on disk and no removal targets a survivor |
| Properties.SafeStep | deletecopies.py:82-97 | visiting a candidate not seen before, with no double backslash, never removes a survivor and keeps every survivor on disk |
| Properties.SurvivorsNeverRemoved | deletecopies.py:47-97 | for the whole scan: if the realpaths appended to files_by_size are distinct, no survivor is ever removed |
| Properties.ResolveRemovesOnlyReported | deletecopies.py:88-91 | a file leaves the disk only as the target of a reported, successful removal |
| Properties.ResolveReportedRemovalsLeft | deletecopies.py:89-91 | the target of a reported successful removal was on disk and is gone at the end |
| Properties.ReportedRemovalsLeftStep | deletecopies.py:89-91 | one visit keeps the target of every reported successful removal off the disk |
| Properties.HandledStep | deletecopies.py:86-97 | a visited file stays recorded as survivor or reported after later visits |
| Properties.ResolveVisitsAll | deletecopies.py:79-97 | with no double backslash, a scan without a fatal error records or reports every candidate readable at the start; a repeated candidate counts from its first visit |
| Properties.NotYetVisitedOnDisk | deletecopies.py:86-97 | with no double backslash, a file not yet visited is still on disk |
| Properties.VisitHandles | deletecopies.py:82-97 | visiting a readable file either records it as survivor or reports it as a duplicate |
| Properties.RepeatedCandidateReported | deletecopies.py:79-97 | with no double backslash and no fatal error, a readable candidate visited twice or more is reported as a duplicate |
| Properties.LaterVisitReported | deletecopies.py:80-97 | visiting again a readable candidate visited before reports it as a duplicate by then, whether it was recorded, reported or already removed |
| Properties.EqualContentPairReported | deletecopies.py:40-97 | of two different readable files with equal content, at least one is reported as a duplicate |
| Properties.EqualContentPairReportedCore | deletecopies.py:40-97 | the same, given equal content |
| Properties.RemovedFilesPassedBothStages | deletecopies.py:56-91 | a file that left the disk belonged to a size group and a prefix group of two or more, so a file of unique size or unique prefix is never removed |
| Properties.ResolvePairsAreTwins | deletecopies.py:86-88 | with distinct candidates, each report pairs two different candidates with equal content |
| Properties.ReportedPairsAreTwins | deletecopies.py:40-97 | each report pairs two different, found, readable files with equal content, so files of different size or content are never reported |
| Properties.UniqueContentKept | deletecopies.py:40-97 | a file whose content no other found file shares is never reported and stays on disk |
| Properties.DuplicatesGone | deletecopies.py:88-95 | after a normal run with no PermissionError, no reported duplicate is left on disk |
| Properties.RepeatedRealpathRemoved | deletecopies.py:47-97 | after a normal run with no PermissionError, no readable file whose realpath the walk appended twice or more is left on disk |
| Properties.ReportsPairTwinsOrRepeats | deletecopies.py:40-97 | every report pairs two found, readable files of equal content, and a file reported as its own duplicate was appended twice or more |
| Properties.DiscoveredShrinks | deletecopies.py:44-52 | walking the same paths over fewer files finds a subset of the realpaths, distinct when the first was, and each remaining file as often as before |
| Properties.NoTwinsLeft | deletecopies.py:86-97 | after a normal run with no PermissionError, no two found files share their content |
| Properties.NoTwinsNoReports | deletecopies.py:74-101 | with no two found files of equal content and no readable realpath found twice, the scan reports and removes nothing and reports 0 and 0 |
| Properties.SecondRunRemovesNothing | deletecopies.py:29-101 | idempotence: after a first run with no fatal error and no PermissionError, a second run over the files it left removes nothing and finishes with 0 and 0, also for walks that list a symlink beside its target |
| Properties.TwinPairOneRemoved | deletecopies.py:86-97 | of exactly two copies of one content, exactly one leaves the disk, and the report names the other as its survivor |
| Properties.OnlyTwinsLeave | deletecopies.py:86-97 | when only two files share a content, no other file leaves the disk |
| Properties.SingleTwinPairFinishesWithOne | deletecopies.py:29-101 | when two copies are the only shared content, exactly one file is removed and the finishing message reports 1 removed and 0 permission errors |
| Findings.SymlinkDiscovered | deletecopies.py:47-52 | for any symlink to a readable file, the walk [symlink, target] puts the same realpath into files_by_size twice |
| Findings.SymlinkSizes | deletecopies.py:52-61 | both appends land in one size group, which stage 2 visits twice |
| Findings.SymlinkPrefixes | deletecopies.py:61-79 | both visits land in one prefix group, which stage 3 visits twice |
| Findings.SymlinkResolves | deletecopies.py:80-97 | the first visit records the file as survivor; the second reports it as its own duplicate and removes it |
| Findings.SymlinkRemovesItsSurvivor | deletecopies.py:47-97 | as written, the walk [symlink, target] ends with the only copy removed while it is still the recorded survivor, and reports 1 removed |
| Findings.SymlinkExample | deletecopies.py:47-97 | the walk [/data/link, /data/a.bin] over one 1-byte file ends with the disk empty and reports 1 removed and 0 permission errors |
| Findings.EscapedTwinCandidates | deletecopies.py:40-79 | a walk of two distinct files of equal content reaches stage 3 with both as candidates |
| Findings.EscapedTwinResolves | deletecopies.py:86-97 | when the replacement turns the second name into the first, stage 3 records the first as survivor, reports the second, and removes the first |
| Findings.EscapedTwinRemovesSurvivor | deletecopies.py:40-101 | as written, the recorded survivor leaves the disk, the reported duplicate stays, and the run reports 1 removed |
| Findings.EscapeExample | deletecopies.py:40-101 | the walk `[a\b, a\\b]` over two equal 1-byte files removes `a\b` and keeps `a\\b`, reporting 1 removed and 0 permission errors |
| Findings.UniqueWalkDiscovers | deletecopies.py:40-52 | the corrected walk appends each realpath of the original walk exactly once |
| Findings.UniqueWalk | deletecopies.py:40-52 | definition with no contract of its own: the walk with each repeated realpath dropped; Findings.UniqueWalkDiscovers and Findings.SkipSeenRealpaths describe it |
| Findings.ScanOnce | deletecopies.py:29-101 | definition with no contract of its own: the scan over that walk; Findings.ScanOnceKeepsSurvivors and Findings.CheckForDuplicatesOnce describe it |
| Findings.ScanOnceKeepsSurvivors | deletecopies.py:40-97 | with each realpath appended once, no survivor is ever removed |
| Findings.SkipSeenRealpaths | deletecopies.py:40-52 | the corrected first loop skips a path whose realpath was already appended |
| Findings.DirectStep | deletecopies.py:86-97 | the corrected visit aims the removal at the hashed name; it never overwrites a recorded survivor, only removes files, and equals the visit as written on a name without a double backslash |
| Findings.DirectResolve | deletecopies.py:74-99 | definition with no contract of its own: stage 3 with the corrected visit; Findings.DirectResolveAgrees and Findings.DirectResolveKeeps describe it |
| Findings.DirectResolveAgrees | deletecopies.py:86-91 | on names without a double backslash, the corrected stage 3 equals stage 3 as written |
| Findings.DirectStepKeeps | deletecopies.py:86-97 | a corrected visit of a candidate not seen before keeps every survivor on disk and never reports a survivor |
| Findings.DirectResolveKeeps | deletecopies.py:79-97 | with distinct candidates, the corrected stage 3 keeps every survivor on disk and never reports one, whatever the names |
| Findings.FixedScan | deletecopies.py:29-101 | definition with no contract of its own: the scan with both corrections; Findings.FixedScanKeepsSurvivors and Findings.FixedScanAgrees describe it |
| Findings.FixedScanKeepsSurvivors | deletecopies.py:40-97 | with both corrections, every survivor is on disk at the end and no reported duplicate is a survivor, with no premise |
| Findings.FixedScanAgrees | deletecopies.py:40-97 | on walks without a double backslash, the scan with both corrections is the scan with the corrected walk |
| Findings.CheckForDuplicatesOnce | deletecopies.py:29-101 | the corrected scan reports the status, reports and disk of the corrected model |

## Left out

- Directory traversal (`os.walk`, `os.path.join`) is not modelled. The
  joined paths it produces are an input sequence.
- Realpath resolution, readability and the way removals fail are fixed per
  scan in `Env`. Changes made to the filesystem by anything other than the
  scan itself are not modelled.
- SHA-1 is replaced by a digest that keeps its input. The model therefore
  has no hash collisions, and "equal digest" means "equal content". The
  `hash_algo` parameter is fixed at its default.
- `open` either fails or gives the whole content. A read error in the
  middle of a file is not modelled. In the code it raises OSError, which
  the handlers of stages 2 and 3 catch, so the file is skipped exactly as
  an unopenable one is. The model also cannot make a file unreadable
  between stages, because `Env` is fixed for the whole scan.
- `chunk_reader` is a generator; the model computes all its chunks eagerly.
  Only the order and content of the chunks are modelled, not the
  interleaving.
- Timing (`time.time()`, `round`), the progress prints and the `z` counter
  are wall-clock and output only. The model keeps no trace of them.
- The "Duplicate found" print is kept as the `reports` trace.
- `statement.set` is a UI label. The model keeps only the two numbers it
  shows, or `Aborted` for the exception that escapes instead.
- Properties.ResolveKeepsSurvivors: requires no candidate contains a double
  backslash. For such a path the replacement removes a different name than
  the one hashed. That name can be a survivor or a file the scan never
  looked at, so no safety holds there (see Findings).
- Properties.SurvivorsNeverRemoved: requires no found path contains a double
  backslash, for the same reason.
- Findings.ScanOnceKeepsSurvivors: requires no found path contains a double
  backslash, for the same reason.
- Properties.ResolveVisitsAll: requires no candidate with a double
  backslash and a scan that ended without a fatal error. A rewritten name
  can remove a file before it is visited, and after a fatal error later
  files are never visited.
- Properties.NotYetVisitedOnDisk: requires no double backslash, for the
  same reason.
- Properties.RepeatedCandidateReported and Properties.LaterVisitReported:
  require no double backslash and no fatal error, for the same reasons.
- Properties.RemovedFilesPassedBothStages: requires no found path with a
  double backslash; a rewritten name can remove a file that never reached
  stage 3.
- Properties.ReportedPairsAreTwins: requires distinct realpaths. A path
  appended twice is reported as a duplicate of itself (see Findings).
  Properties.ReportsPairTwinsOrRepeats states what holds without that
  premise.
- Properties.NoTwinsNoReports: requires that no readable realpath is found
  twice, for the same reason.
- Properties.UniqueContentKept: requires distinct realpaths and no double
  backslash; either hazard removes a file with unique content (see
  Findings).
- Properties.DuplicatesGone: requires no double backslash, no fatal error
  and no PermissionError. A rewritten name leaves the duplicate on disk and
  removes another file instead.
- Properties.NoTwinsLeft and Properties.RepeatedRealpathRemoved: require
  the same as DuplicatesGone.
- Properties.OnlyTwinsLeave: requires distinct realpaths and no double
  backslash.
- Properties.EqualContentPairReported and
  Properties.EqualContentPairReportedCore: require no double backslash and
  a scan without a fatal error, as ResolveVisitsAll does.
- Properties.TwinPairOneRemoved: requires distinct realpaths, no double
  backslash, a scan without a fatal error, and no removal that raised
  PermissionError. A realpath appended twice is removed as its own
  duplicate, so a walk giving `[a, b, a]` removes both copies; a duplicate
  whose removal raised PermissionError stays on disk.
- Properties.SingleTwinPairFinishesWithOne: requires the same as
  TwinPairOneRemoved, for the same reasons.
- Properties.SecondRunRemovesNothing walks the same paths again. In a real
  second walk the removed files are no longer listed, but they are skipped
  at getsize anyway, which gives the same result. It also requires no found
  path with a double backslash, a first run without a fatal error, and that
  no removal of the first run raised PermissionError; such a file stays on
  disk and is found again.
- The concrete four-file scenario (A and B with content X, C with content
  Y, D of another size) is the generic Properties.SingleTwinPairFinishesWithOne
  with C and D covered by Properties.UniqueContentKept. It is not
  instantiated with literal contents.
- A symlink and its target are one file location, and the program is meant
  to treat them as one file. The code appends the realpath once per walked
  path, so the model follows the code; see Findings.

## Findings

| source | as written | input that shows it | evidently intended | confidence | as-written member | corrected member |
|---|---|---|---|---|---|---|
| deletecopies.py:47-91 | every walked path is appended under its realpath, so a symlink and its target enter files_by_size as the same path twice; on its second visit in stage 3 the path matches its own recorded digest and is removed | walk `[/data/link, /data/a.bin]`, where the link resolves to `/data/a.bin` and that file holds one byte (Findings.SymlinkExample): the only copy is reported as a duplicate of itself and removed, while files_by_full_hash still names it | each realpath enters files_by_size once, so a file recorded as survivor is never removed | not executed | Findings.SymlinkRemovesItsSurvivor | Findings.ScanOnceKeepsSurvivors |
| deletecopies.py:86-91 | the removal target is the duplicate's name with every double backslash replaced by one, which can be the name of another file, including the recorded survivor | files `a\b` and `a\\b` with equal content, walked in that order (Findings.EscapeExample): `a\b` is recorded as survivor, `a\\b` is reported as its duplicate, and the removal takes `a\b` off the disk while `a\\b` stays | the file reported as the duplicate is the one removed, so a recorded survivor is never removed | not executed | Findings.EscapedTwinRemovesSurvivor | Findings.FixedScanKeepsSurvivors |
