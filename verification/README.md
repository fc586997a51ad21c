# Walrus Console MCP server: credential files, and the algorithms around them

A Dafny model of the parts of the Console MCP server and its dashboard in which a mistake loses a
credential, leaks one, or lets one program undo another's work. It verifies with Dafny 4.11:
`dafny verify dfyconfig.toml`.

## What is modelled

**The configuration store.** Several processes merge into one logical record that is kept in two files,
`config.json` and `admin.json`, under a lock made with `link()`.

- `FileLock` is the lock protocol at the level of system calls: directory entries name inodes, every
  call is a step, any number of processes interleave, die anywhere and are reclaimed. Deciding that a
  lock is stale and removing it are *two* steps, as in the source. A removal that takes the lock from a
  live holder is counted as a theft. The results: holders never exceed thefts by more than one; no theft
  happens if each removal takes the file its decision read and no live hold reaches ten minutes; a theft
  always opens the door to a second process; and the two-step reclaim can really commit one.
  `LockCalls` runs `acquireLock` and `releaseLock` as loops against an arbitrary schedule of the others.
- `ConfigRecord` is the record as values, `ConfigSave` what each of the three writes of a save does to
  what readers resolve, and `ConfigFile` the code that assigns, deletes and writes in place. The digest
  in the `supersedes` marker is named by the text that was hashed. That text joins the two halves of the
  pair with a line break, and reads an absent half as an empty one. So of pairs whose halves are there and
  not empty it names exactly those without a line break in either half.
- `ConfigRuns` puts the two together: many processes in `mergeConfigFileIf`, one system call a step,
  dying or throwing anywhere.
- `ImportBundle` and `ImportWrite` are the install link: what it may do to a record that exists, decided
  inside the lock, and what crashes do to repeated imports.
- `AtomicWrite` and `AtomicCalls` are the replacement of one file: attempts, other programs and a machine
  that may stop at any step, losing data that was not synced and bringing back any earlier directory entry.

**The files of other applications.** `Clients` merges our entry into a file whose owner never takes our
lock. `CursorEntry` scans and hardens the arguments of an npx entry, `StripBundle` takes the secret out of it.

**Inverses.** `SpawnCommand` (argument quoting, two passes of cmd.exe, the C runtime's argument parser),
`Router` (percent-encoded routes) and `StateStream` (frames cut from chunks).

**Paths, decisions, scrubbing.** `PathSandbox` resolves paths over a file system with links,
`Credentials` is the silent validator as its sequential blocks and as a field-by-field table, `SafeFetch`
is the redirect loop against an arbitrary server, and `Redaction` is the scrubber.

Where the source changes state step by step, the model has a class or a loop proved against a
specification, and the lemmas are about that specification.

## Where the code and its documentation differ

- `reclaimIfStale` is documented as removing only a stale lock. Between its read and its removal another
  reclaimer may have finished and a new holder may be in place: `FileLock.TwoReclaimersRace`.
- An import interrupted after its first write is documented as finished by the next one. It is not for a
  management bundle that replaces a pin or host of a record without any key:
  `ImportBundle.ImportsConvergeExactlyWhen`.
- A scan that misreads a flag is documented as harmless. After hardening, a flag whose neighbour was
  removed can take the package name as its value, and the scan then goes on to an unsafe prefix:
  `StripBundle.HardenedEntryCanStayUnsafe`, and exactly when, `CursorEntry.HardenedIsSafeExactlyWhen`.
- The digest in the marker is documented as comparing pairs by value. Different pairs can share one:
  exactly which, says `ConfigSave.DigestNamesExactlyWhen`.
- An older binary's rotation survives any *completed* save, and an interrupted one unless it restores the
  very pair that save superseded: `ConfigSave.OldRotationAfterInterruption`.
- A reader takes no lock over its two reads. A save in between can bring a superseded pair back, because
  the marker that names it is dropped at the end: exactly when, says `ConfigSave.ReadAcrossASave`.
- The characters `cmd.exe` treats specially outside quotes are documented as escaped. `=` and a tab are not, and
  a command path that holds one is cut there: exactly then, says `SpawnCommand.RoundTrip`.
- With the word `redacted` itself registered as a secret the output cannot be free of it:
  `Redaction.ScrubIsCompleteExactlyWhen`.

## Model

| member | source | states |
|---|---|---|
| FileLock.StepInv | packages/walrus-console-mcp/src/fileLock.ts:73-160 | every system call of every process keeps: the lock is absent or a complete record with the last acquirer's nonce, and nobody alive is about to rewrite the inode it names |
| FileLock.OrphansStep | packages/walrus-console-mcp/src/fileLock.ts:85-90 | a live process that counts on the lock without being named in it can arise only from a theft, one for each |
| FileLock.HoldersBounded | packages/walrus-console-mcp/src/fileLock.ts:73-177 | after any run, at most one more process is inside than there were thefts |
| FileLock.MutualExclusion | packages/walrus-console-mcp/src/fileLock.ts:106-177 | after any run without a theft, two processes inside are the same process |
| FileLock.LockNamesLastAcquirer | packages/walrus-console-mcp/src/fileLock.ts:93-134 | in every run, thefts included, a lock file that is there carries the nonce of the most recent acquirer |
| FileLock.CarefulRunsStealNothing | packages/walrus-console-mcp/src/fileLock.ts:73-91 | if every removal takes the file its decision read and no live hold reaches ten minutes, there is no theft, deaths and reclaims included |
| FileLock.CarefulRunsExclude | packages/walrus-console-mcp/src/fileLock.ts:73-177 | such runs never have two processes inside |
| FileLock.ReleaseNeverCascades | packages/walrus-console-mcp/src/fileLock.ts:136-160 | in any run, a release that finds another's record leaves it, and one whose unlink takes the file it read steals nothing |
| FileLock.TheftOpensTheDoor | packages/walrus-console-mcp/src/fileLock.ts:60-91 | after any theft a run exists with two processes inside, so the no-theft hypothesis is needed |
| FileLock.TwoReclaimersRace | packages/walrus-console-mcp/src/fileLock.ts:73-91 | one dead holder and two reclaimers, no hold ever aging, and both end up inside: read-then-remove must be one step |
| LockCalls.LockSite.AcquireLock | packages/walrus-console-mcp/src/fileLock.ts:106-134 | it fails only after exactly 100 links of its own, each of which found the lock there; on success the caller is in the body, otherwise out, its temp gone either way; with nobody else running it succeeds if and only if the lock is not there, is not whole, names a process that is not running, or is ten minutes old, and then carries its nonce |
| LockCalls.LockSite.ReleaseLock | packages/walrus-console-mcp/src/fileLock.ts:150-160 | the caller ends outside, whatever the lock holds by then; with nobody else running the lock is gone exactly if it carried the nonce of this hold, and nothing else changes |
| LockCalls.LockSite.WithFileLock | packages/walrus-console-mcp/src/fileLock.ts:162-177 | the body runs exactly if one link found the lock absent; the caller ends outside without a temp, and with nobody else running the lock is free again |
| LockCalls.LockSite.Attempt | packages/walrus-console-mcp/src/fileLock.ts:112-125 | one write, one link and at most one reclaim, against any schedule of the others; with nobody else running it links exactly if the lock is absent, and otherwise frees it exactly if it is stale |
| LockCalls.AnotherStepLeavesUsAlone | packages/walrus-console-mcp/src/fileLock.ts:106-128 | no step of another process moves this one or takes its temp |
| ConfigRecord.ParsedFieldIsStorable | packages/walrus-console-mcp/src/configFile.ts:164-207 | a value the loader accepted is accepted again, unchanged, after it was written back |
| ConfigRecord.PrintThenParseAdmin | packages/walrus-console-mcp/src/configFile.ts:325-336 | what a reader gets from a written admin.json: the storable pair and the marker |
| ConfigRecord.ResolvedIsStorable | packages/walrus-console-mcp/src/configFile.ts:303-308 | everything a reader resolves survives being saved and read |
| ConfigRecord.UnreadableIsLoud | packages/walrus-console-mcp/src/configFile.ts:108-151 | reading fails exactly if one of the two files is there and damaged, and two missing files are the empty record |
| ConfigRecord.ConfigAloneLoads | packages/walrus-console-mcp/src/configFile.ts:164-205 | with config.json alone a field is read with a value exactly if the file has it as a string, an allowed URL, a valid address or a list with something in it, and that is the value |
| ConfigRecord.AdminFileGivesThePair | packages/walrus-console-mcp/src/configFile.ts:325-336 | admin.json gives exactly the halves of the pair that it names as strings, whatever else is in it |
| ConfigRecord.CleanDirsAppend | packages/walrus-console-mcp/src/configFile.ts:196-202 | a saved folder list is read entry by entry, in order |
| ConfigSave.AfterFirstWrite | packages/walrus-console-mcp/src/configFile.ts:463-501 | killed after admin.json: readers see the new pair, whole, beside everything else as it was |
| ConfigSave.AfterBothWrites | packages/walrus-console-mcp/src/configFile.ts:463-518 | after both writes, marker or not, readers see the merged record |
| ConfigSave.KilledMerge | packages/walrus-console-mcp/src/configFile.ts:463-518 | for every k, a merge killed after k writes resolves to the old or the new pair beside the old or the new rest, never a torn pair |
| ConfigSave.OutcomeIsFieldwise | packages/walrus-console-mcp/src/configFile.ts:596-640 | the merged value of a group of fields depends on the old values of that group alone |
| ConfigSave.MergeKeepsWhatItWasGiven | packages/walrus-console-mcp/src/configFile.ts:596-656 | a completed merge leaves exactly the updated record if and only if every surviving update is one the loader accepts |
| ConfigSave.CompletedMergeAt | packages/walrus-console-mcp/src/configFile.ts:596-656 | after a completed merge, field by field: a cleared one is gone, one not named is as it was, an updated one has its new value if and only if it is text of the right sort or a clean list of folders |
| ConfigSave.InlinePairWins | packages/walrus-console-mcp/src/configFile.ts:269-293 | a full pair written inline by an older binary is the resolved one if and only if it is not the pair the marker names, or admin.json holds the same |
| ConfigSave.OldRotationSurvives | packages/walrus-console-mcp/src/configFile.ts:269-293 | after any completed save an inline pair of an older binary is resolved, and the next merge that leaves the pair alone moves it to admin.json, without inline copy or marker |
| ConfigSave.OldRotationAfterInterruption | packages/walrus-console-mcp/src/configFile.ts:502-517 | after a save cut before the marker is dropped, the rotation is lost exactly if it restores the superseded pair |
| ConfigSave.TornReadIs | packages/walrus-console-mcp/src/configFile.ts:303-308 | what a reader gets that reads config.json before and admin.json after a whole save |
| ConfigSave.ReadAcrossASave | packages/walrus-console-mcp/src/configFile.ts:303-308 | for every disk: such a read resolves the new pair overlaid with the inline halves it met; it is the old or the new pair if and only if the inline halves are the new ones, or they are the old ones and the save left the other half as it was; the inline halves are the old ones unless the marker names them |
| ConfigSave.DigestIsInjective | packages/walrus-console-mcp/src/configFile.ts:216-224 | two pairs whose halves, where there, are not empty and whose keys have no line break are equal if their digests are |
| ConfigSave.DigestCollides | packages/walrus-console-mcp/src/configFile.ts:216-224 | every pair of strings with a line break in either half shares its digest with a different pair, no half of which is empty |
| ConfigSave.EmptyReadsAsAbsent | packages/walrus-console-mcp/src/configFile.ts:216-224 | every pair with an empty or an absent half beside one that is there shares its digest with a different pair |
| ConfigSave.DigestNamesFilledExactlyWhen | packages/walrus-console-mcp/src/configFile.ts:216-224 | among pairs without an empty half, no other has the digest of this one if and only if neither half has a line break |
| ConfigSave.DigestNamesExactlyWhen | packages/walrus-console-mcp/src/configFile.ts:216-224 | among all pairs, no other has the digest of this one if and only if both halves are absent, or both are there, not empty and without a line break |
| ConfigFile.ConfigObject.ApplyAdminFile | packages/walrus-console-mcp/src/configFile.ts:269-293 | the assignments and deletions in place leave the resolved record |
| ConfigFile.ConfigObject.DeleteAll | packages/walrus-console-mcp/src/configFile.ts:640-656 | the deletion loop removes the cleared fields and nothing else |
| ConfigFile.ConfigDir.LoadConfigFile | packages/walrus-console-mcp/src/configFile.ts:303-308 | loading gives the resolved record; it fails if and only if config.json or admin.json is there and damaged; two missing files load as the empty record |
| ConfigFile.ConfigDir.SaveConfigFile | packages/walrus-console-mcp/src/configFile.ts:463-518 | the three writes in order, cut after any of them; afterwards config.json has none of the pair, admin.json nothing but it and no marker, and no admin.json comes into being without a pair |
| ConfigFile.ConfigDir.MergeConfigFileIf | packages/walrus-console-mcp/src/configFile.ts:579-657 | reads, decides, merges and saves; if either file is damaged it throws and both are as they were; untouched disk if the decision is no; otherwise the disk after the surviving writes |
| ConfigFile.ConfigDir.MergeThenLoad | packages/walrus-console-mcp/src/configFile.ts:560-657 | loading after a completed merge gives its outcome |
| ConfigRuns.StepInv | packages/walrus-console-mcp/src/configFile.ts:579-657 | every step of every process keeps the disk accounted for by the writes that landed |
| ConfigRuns.EveryRunResolvesToWhatLanded | packages/walrus-console-mcp/src/configFile.ts:463-657 | after any run without a theft, crashes and retries anywhere, the pair is the fold of the merges whose pair-carrying write landed and the rest that of those whose config.json landed |
| ConfigRuns.WhatLandedIsInLockOrder | packages/walrus-console-mcp/src/configFile.ts:463-657 | in those runs the merges whose pair landed, and those whose config.json landed, are subsequences of the order in which the lock was taken |
| ConfigRuns.NoLostUpdate | packages/walrus-console-mcp/src/configFile.ts:560-657 | if no process dies or throws between taking the lock and finishing its merge, whoever dies waiting or before releasing and is reclaimed, then whenever nobody is inside readers resolve the fold of all merges in lock order |
| ConfigRuns.MergeRunsThrough | packages/walrus-console-mcp/src/configFile.ts:579-657 | from any state in which a process is in its body on readable files, two reads and, if it decides to write, three writes finish its merge, and readers then resolve what it asked for |
| ConfigRuns.UnreadableThrows | packages/walrus-console-mcp/src/configFile.ts:108-151 | in a body on a damaged file the merge throws by its second read and has written nothing |
| ConfigRuns.CarefulRunsHaveNoTheft | packages/walrus-console-mcp/src/fileLock.ts:73-177 | the composed system inherits the lock's condition for runs without a theft |
| ImportBundle.ClassifyAgainstSaved | packages/walrus-console-mcp/bin/importBundle.ts:146-161 | the loops decide write, already-imported or kept-existing as the definition over the whole write does |
| ImportBundle.VerdictIs | packages/walrus-console-mcp/bin/importBundle.ts:115-161 | without a saved key it writes; with one, it keeps what is there exactly if the own pair is not saved or the write would change or drop something saved, and it is already imported exactly if the own pair is saved and the write would change nothing |
| ImportBundle.AnotherBundleIsKept | packages/walrus-console-mcp/bin/importBundle.ts:121-161 | another bundle of the same kind over a saved pair is kept-existing, never already-imported |
| ImportBundle.NeverOverwrites | packages/walrus-console-mcp/bin/importBundle.ts:116-161 | with any key saved, a write leaves every present field as it was |
| ImportBundle.ReimportIsAlreadyImported | packages/walrus-console-mcp/bin/importBundle.ts:232-256 | importing again after a completed write answers already-imported |
| ImportBundle.CrashedImportsConverge | packages/walrus-console-mcp/bin/importBundle.ts:232-256 | any number of imports killed anywhere and then one complete import leave the record of a single one |
| ImportBundle.OneCrashDiverges | packages/walrus-console-mcp/bin/importBundle.ts:146-161 | outside that condition one crash after the first write already changes the result |
| ImportBundle.ImportsConvergeExactlyWhen | packages/walrus-console-mcp/bin/importBundle.ts:146-161 | convergence under every pattern of crashes if and only if a key was saved, or the link carries an everyday key, or nothing is to be replaced |
| ImportWrite.ImportedWriteIsWellFormed | packages/walrus-console-mcp/bin/importBundle.ts:215-233 | every write an accepted bundle leads to, host included, is one the import results apply to |
| ImportWrite.HostIsRecorded | packages/walrus-console-mcp/bin/install.ts:100-127 | after an import the saved host is the one resolved, or none if that is the default |
| ImportWrite.SurvivingWarningsAreTrue | packages/walrus-console-mcp/bin/importBundle.ts:243-253 | after the filter each missing-pin warning stands exactly when the written record lacks that pin |
| AtomicWrite.RunInv | packages/walrus-console-mcp/src/atomicWrite.ts:211-321 | every interleaving keeps: own temp, own inode, whole synced content behind every binding the destination ever had |
| AtomicWrite.CrashLeavesAWholeFile | packages/walrus-console-mcp/src/atomicWrite.ts:211-321 | wherever the machine stops, the destination holds its old text, the whole text of an attempt that published, or another program's whole text |
| AtomicWrite.ReportIsTrue | packages/walrus-console-mcp/src/atomicWrite.ts:243-321 | an attempt that reports success has landed, one that reports failure never touched the destination |
| AtomicWrite.OthersLeaveTempAlone | packages/walrus-console-mcp/src/atomicWrite.ts:158-187 | no step of another attempt renames, rewrites or deletes the temp of one under way, even if their names collide |
| AtomicWrite.ExclusiveNeverReplaces | packages/walrus-console-mcp/src/atomicWrite.ts:253-313 | with hard links an exclusive attempt publishes only where there is nothing, in any interleaving with plain attempts, other exclusive ones and other programs |
| AtomicWrite.ExclusiveHasOneWinner | packages/walrus-console-mcp/src/atomicWrite.ts:253-313 | of any number of racing exclusive attempts, plain ones and other programs around them, at most one lands while nobody removes the file; then nothing was there and it was the first to put something there |
| AtomicWrite.FallbackCanReplace | packages/walrus-console-mcp/src/atomicWrite.ts:259-291 | without hard links, for any two contents, a run in which both exclusive attempts publish |
| AtomicCalls.WriteSite.WriteFileAtomic | packages/walrus-console-mcp/src/atomicWrite.ts:211-321 | success if and only if the content landed, with at most eight renames, against any schedule and any failures; if the temp name is free and every call is answered with success, a plain write succeeds whatever the others do, an exclusive one with nobody else about succeeds exactly if nothing is there, hard links or not, and no temp is left; a taken temp name fails |
| AtomicCalls.WriteSite.RenameWithRetry | packages/walrus-console-mcp/src/atomicWrite.ts:365-382 | at most eight renames; it succeeds if and only if one of them does, each before it having met a lock and then passed the precondition |
| AtomicCalls.WriteSite.LinkOrFallBack | packages/walrus-console-mcp/src/atomicWrite.ts:253-291 | the exclusive branch ends published, refused, or at the first fallback rename after a new check; with nobody else about it is refused exactly if something is there |
| AtomicCalls.WriteSite.Fill | packages/walrus-console-mcp/src/atomicWrite.ts:225-239 | the temp is synced with the whole content exactly if every call on the way is answered with success, in pieces of any size, and otherwise given up |
| Clients.PublishedKeepsTheirs | packages/walrus-console-mcp/src/clients.ts:97-108 | what is published reads back with our entry as verify wants it, every other key and server the same, and merging again changes nothing |
| Clients.PublishedIs | packages/walrus-console-mcp/src/clients.ts:97-108 | what is published is exactly what was read, or an empty object for a missing file, with our entry of the command without arguments set in it |
| Clients.RefusesExactlyWhen | packages/walrus-console-mcp/src/clients.ts:289-322 | a registration refuses exactly if a file is there whose text is no JSON object or has an mcpServers that is none |
| Clients.VerifiedExactlyWhen | packages/walrus-console-mcp/src/clients.ts:359-382 | verifying an entry passes exactly if it has this command and no arguments, whatever else is in it |
| Clients.TheirsSurviveExactlyWhen | packages/walrus-console-mcp/src/clients.ts:326-358 | everything of theirs that stood in the file at the rename survives if and only if, our entry apart, it was what the last check read |
| Clients.Registration.Register | packages/walrus-console-mcp/src/clients.ts:326-358 | at most three merges; success means exactly one publication, giving up or refusing none, each the merge of exactly what the check right before it read; it gives up only after three; while there is something to merge into and renames are allowed it never refuses; if the application leaves its file alone it succeeds exactly if the file can be merged into and one of eight renames succeeds, and the file is then that merge |
| Clients.Registration.MergeOnce | packages/walrus-console-mcp/src/clients.ts:328-353 | a change between the read and the check makes another merge, whatever it is; if nothing moved and the rename is allowed it is published |
| Clients.Registration.Publish | packages/walrus-console-mcp/src/atomicWrite.ts:365-382 | at most eight renames, a new check before each retry, nothing published unless it says so; in a file left alone it succeeds if and only if a rename does, each before it having met a lock |
| Clients.Registration.StillTheSame | packages/walrus-console-mcp/src/clients.ts:342-347 | passes if and only if the path resolves to the target and the file can then be read and holds the text merged from; reports a change exactly if the path resolves elsewhere or the text is another; otherwise throws |
| CursorEntry.HardenNpxArgs | packages/walrus-console-mcp/src/cursorEntry.ts:161-200 | the index loop gives the token-level definition: unchanged exactly if a prefix is there and every one is safe, otherwise the prefix tokens dropped and the safe one first |
| CursorEntry.MarkPrefixes | packages/walrus-console-mcp/src/cursorEntry.ts:169-194 | the marked indices are exactly those of the prefix tokens of the scan, and the flag says whether all are safe |
| CursorEntry.TailSurvives | packages/walrus-console-mcp/src/cursorEntry.ts:146-200 | from the first positional or the bundle flag on every argument survives in place |
| CursorEntry.RescanFindsOnlyTheInsertedPrefix | packages/walrus-console-mcp/src/cursorEntry.ts:146-200 | rescanning the result finds the inserted prefix and then exactly the kept options, unless a removal lets a flag swallow the positional |
| CursorEntry.HardenedStaysHardened | packages/walrus-console-mcp/src/cursorEntry.ts:146-200 | hardening is idempotent if and only if the arguments were safely prefixed, or no flag swallows the positional, or what follows that sets no unsafe prefix |
| CursorEntry.HardenedIsSafeExactlyWhen | packages/walrus-console-mcp/src/cursorEntry.ts:146-200 | after hardening npx reads a prefix and only safe ones if and only if it did before, or no flag swallows the positional, or what follows that sets no unsafe prefix |
| CursorEntry.SafeArgIsSafe | packages/walrus-console-mcp/src/cursorEntry.ts:39 | the literal inserted argument reads as one safe prefix option |
| CursorEntry.OptionReadsAs | packages/walrus-console-mcp/src/cursorEntry.ts:115-194 | an option spelled with one or two dashes, a key, and a value behind `=` or in the next argument: whether it takes that argument, whether it has to do with the prefix, and that it is safe exactly if it sets it to the home literal or an absolute path |
| CursorEntry.OptionsEndAt | packages/walrus-console-mcp/src/cursorEntry.ts:171-173 | the options end exactly at `--`, at what is no string, and at what has no dash |
| StripBundle.StripBundleFromConfig | packages/walrus-console-mcp/src/cursorEntry.ts:216-245 | null exactly if no server carries the bundle; otherwise what the server-by-server definition gives |
| StripBundle.NamesAreReported | packages/walrus-console-mcp/src/cursorEntry.ts:222-245 | the names reported are those of the servers that carried the bundle, and of those that were hardened, in order |
| StripBundle.HardensExactlyWhen | packages/walrus-console-mcp/src/cursorEntry.ts:233-238 | a server is hardened exactly if it carries the bundle, is an npx entry, and is not safely prefixed once the bundle is out |
| StripBundle.StrippedArgs | packages/walrus-console-mcp/src/cursorEntry.ts:66-87 | in a carrier the secret alone becomes `-`, behind the flag the flag with `-`, and every other argument stays; hardened, the safe prefix is first and the rest are arguments of these |
| StripBundle.NoBundleIsLeft | packages/walrus-console-mcp/src/cursorEntry.ts:66-87 | no argument of a stripped entry holds the secret in either spelling |
| StripBundle.StripTouchesOnlyCarriers | packages/walrus-console-mcp/src/cursorEntry.ts:202-245 | every server keeps name and place, none carries the bundle, one that never did is unchanged |
| StripBundle.HardenAddsOnlyThePrefix | packages/walrus-console-mcp/src/cursorEntry.ts:195-199 | hardening brings in no argument but the safe prefix |
| StripBundle.HardenedEntryCanStayUnsafe | packages/walrus-console-mcp/src/cursorEntry.ts:233-239 | for every bundle of more than 15 characters, an npx entry that carries it, is stripped and hardened, and is still not safely prefixed when scanned again |
| SpawnCommand.RoundTrip | packages/walrus-console-mcp/src/spawnCommand.ts:138-189 | a list is refused exactly if a string holds CR, LF or NUL; any other runs that command with exactly those arguments, and cmd finds nothing else on the line to act on, if and only if the path of the command holds neither `=` nor a tab |
| SpawnCommand.PassStripsOneLayer | packages/walrus-console-mcp/src/spawnCommand.ts:144-181 | a cmd pass over escaped parts strips one layer of carets, with cmd never inside quotes |
| SpawnCommand.OnlyJoinsAreLive | packages/walrus-console-mcp/src/spawnCommand.ts:144-181 | of what cmd acts on, ampersands, pipes, redirections, parentheses, percent and exclamation marks, carets, quotes, brackets, wildcards, spaces, commas and semicolons, nothing is live in a pass but the spaces between arguments |
| SpawnCommand.FirstPass | packages/walrus-console-mcp/src/spawnCommand.ts:184-246 | the first pass gives the command and arguments one layer less; the command is read as it is exactly if it holds neither `=` nor a tab, and then `%*` begins right after it |
| SpawnCommand.OneCommandTwice | packages/walrus-console-mcp/src/spawnCommand.ts:144-189 | both times cmd reads the line there is no operator, group, redirection or quote live on it |
| SpawnCommand.SecondPass | packages/walrus-console-mcp/src/spawnCommand.ts:146-181 | the second pass gives the quoted arguments themselves |
| SpawnCommand.ArgvOfQuoted | packages/walrus-console-mcp/src/spawnCommand.ts:174-181 | the C runtime reads the quoted list back as the list |
| SpawnCommand.ScanBody | packages/walrus-console-mcp/src/spawnCommand.ts:176-180 | inside quotes, doubled backslashes and escaped quotes read back as the argument, stopping at the closing quote |
| PathSandbox.ToRealPath | packages/walrus-console-mcp/src/pathSandbox.ts:475-497 | the walk up terminates with the canonical path, or the refusal, of the longest part that resolves or is a link |
| PathSandbox.Canonical | packages/walrus-console-mcp/src/pathSandbox.ts:449-497 | the result holds no link and is its own canonical form |
| PathSandbox.RefusedExactlyForBrokenLinks | packages/walrus-console-mcp/src/pathSandbox.ts:412-420 | a path is refused if and only if some part of it is a link that does not resolve within the budget |
| PathSandbox.RefusedExactlyForDanglingOrCyclic | packages/walrus-console-mcp/src/pathSandbox.ts:425-497 | for every path there is a number of links from which on it is refused if and only if some part of it is a link whose target is not there, or that comes back to a link still being resolved |
| PathSandbox.LandsWhereChecked | packages/walrus-console-mcp/src/pathSandbox.ts:449-497 | whatever files and directories are created later, the checked path leads to the returned path and nowhere else |
| PathSandbox.WithinIsComponentPrefix | packages/walrus-console-mcp/src/pathSandbox.ts:178-185 | the string test holds exactly if the candidate is the root or the root and more names, except that the file system root contains only itself |
| PathSandbox.IsWithinRoots | packages/walrus-console-mcp/src/pathSandbox.ts:178-185 | the loop accepts exactly if the candidate is some root or some root and more names |
| PathSandbox.ResolveCandidateWithinRoots | packages/walrus-console-mcp/src/pathSandbox.ts:723-809 | no folder, or an uncanonical candidate, is refused; otherwise accepted exactly if it is, or is below, the canonical path of a folder that has one |
| PathSandbox.LexicalIsTheWalk | packages/walrus-console-mcp/src/pathSandbox.ts:770-771 | the candidate resolved from its text alone is where the file system resolves it as long as no link is followed, `..` included |
| PathSandbox.RealRootsDecide | packages/walrus-console-mcp/src/pathSandbox.ts:783-790 | dropping roots that cannot be made canonical decides as keeping them out of the disjunction |
| PathSandbox.AcceptedStaysInside | packages/walrus-console-mcp/src/pathSandbox.ts:770-809 | an accepted path keeps leading below the canonical path of a folder that admitted it |
| PathSandbox.WalkSplits | packages/walrus-console-mcp/src/pathSandbox.ts:478-481 | resolving a path in two parts is resolving it at once, link budget included |
| Credentials.ValidateSilent | packages/walrus-console-mcp/src/credentials.ts:1247-1532 | no error exactly if every check passes; any error empties the write; otherwise the write is the field-by-field table and each warning is true of the resulting record |
| Credentials.AcceptsFlags | packages/walrus-console-mcp/src/credentials.ts:1270-1507 | without a bundle: accepted exactly if something is given, every address, key, signer and folder given is good, the management pair is whole and agrees with a pin given, and the Console takes each key |
| Credentials.AcceptsBundle | packages/walrus-console-mcp/src/credentials.ts:1301-1497 | with one: exactly if it parses, no flag supplies its pair, addresses given agree with it or are left open by a management bundle, the Console takes its key, its signer derives any pin named, and the other flags are good |
| Credentials.FlagsAreWritten | packages/walrus-console-mcp/src/credentials.ts:1385-1497 | without a bundle each flag is written as given and nothing else is, a signer with the pin it derives; only a stranded signer is removed |
| Credentials.BundleIsWritten | packages/walrus-console-mcp/src/credentials.ts:801-857 | with a bundle its pair is written, the other kind's flags as given, and each pin as its kind decides |
| Credentials.FoldersAreWritten | packages/walrus-console-mcp/src/credentials.ts:1499-1507 | the folders written are the canonical forms of those given, none missing, none twice |
| Credentials.DedupKeepsEachOnce | packages/walrus-console-mcp/src/credentials.ts:1499-1507 | each folder once, in the order in which it was first named |
| Credentials.TableIsFieldwise | packages/walrus-console-mcp/src/credentials.ts:1301-1507 | the blocks, overlaid in the source's order, give each field the value the table gives it |
| Credentials.FinalClearIs | packages/walrus-console-mcp/src/credentials.ts:1391-1494 | what is queued, filtered and queued again is exactly what the table removes |
| Credentials.SilentWritesAreCoherent | packages/walrus-console-mcp/src/credentials.ts:1236-1532 | nothing both written and removed; an admin signer only with its key and the pin it derives, every other named pin agreeing; no key the Console did not accept |
| Credentials.BundleWarnsTruly | packages/walrus-console-mcp/src/credentials.ts:859-876 | with a bundle, each missing-pin warning appears exactly when the merged record lacks that pin |
| Credentials.FlagsWarnTruly | packages/walrus-console-mcp/src/credentials.ts:1515-1529 | without one, the owner warning appears exactly for a written working key with no owner in record or environment |
| Credentials.BundleBlock | packages/walrus-console-mcp/src/credentials.ts:1306-1402 | accepted exactly if the bundle meets every check, with its updates, removals and warnings |
| Credentials.ManagementBlock | packages/walrus-console-mcp/src/credentials.ts:1448-1497 | the management pair goes through whole or not at all, and settles a queued missing pin |
| Credentials.WorkingBundleDecidesPins | packages/walrus-console-mcp/src/credentials.ts:801-857 | after a working bundle lands both pins are the ones it carries, one it does not carry is gone whatever was saved |
| Credentials.ManagementBundleRemovesNothing | packages/walrus-console-mcp/src/credentials.ts:801-857 | after a management bundle every saved field is still there, its pair is saved, the owner is its own, else the flag's, else the saved one, and the working pair is as it was |
| Credentials.RotationReplacesThePin | packages/walrus-console-mcp/src/credentials.ts:771-799 | a write with an admin signer leaves the pin that signer derives and its key, whatever was saved; one without leaves the saved pair alone |
| SafeFetch.FetchWithRedirectGuard | packages/walrus-console-mcp/src/safeFetch.ts:169-210 | the loop sends and returns what the recursive definition of a run says |
| SafeFetch.AllowedIsMayBeContacted | packages/walrus-console-mcp/src/baseUrl.ts:85-156 | a URL is allowed exactly if it is https to walrus.xyz or below it, or http or https to localhost, ::1 or 127 followed by three bytes |
| SafeFetch.EveryRunIsGuarded | packages/walrus-console-mcp/src/safeFetch.ts:41-210 | against any server: at most three requests, each later one to the resolved Location of the redirect before it, only to hosts that may be contacted, never back to this machine, a body only first, each header, by its name in any case, on exactly the requests it may be on, the method kept exactly through 307 and 308 |
| SafeFetch.HeadersOf | packages/walrus-console-mcp/src/safeFetch.ts:71-146 | a request carries a header of a name, in any case, if and only if the first did, no origin change stripped it, and it is not a stale content type |
| SafeFetch.CapitalsAreStripped | packages/walrus-console-mcp/src/safeFetch.ts:90-100 | an `Authorization` header, spelled so, does not cross an origin |
| SafeFetch.OutcomeFollowsLastAnswer | packages/walrus-console-mcp/src/safeFetch.ts:177-206 | the last answer is returned exactly if it is no 301, 302, 303, 307 or 308 with a Location, is one too many exactly as the third, and is refused exactly if its target may not be followed, which is then not contacted |
| StateStream.StreamState | apps/devstack-dashboard/src/lib/api.ts:258-281 | the nested loops deliver what feeding the chunks one by one delivers: of the frames of the whole text every state in order, up to the first frame that is unreadable or an error, and stopped exactly if there is one |
| StateStream.DeliversWhatWasSent | apps/devstack-dashboard/src/lib/api.ts:264-279 | the same of the definition, for any chunks and the one leftmost cut of their text |
| StateStream.StatesArrive | apps/devstack-dashboard/src/lib/api.ts:258-279 | events whose data parse to states, sent in any chunks, hand on exactly those states in order and do not stop the stream |
| StateStream.FeedIsCuttingOnce | apps/devstack-dashboard/src/lib/api.ts:258-281 | cutting chunk by chunk delivers what cutting the whole text once delivers, the tail kept back |
| StateStream.ChunksDoNotMatter | apps/devstack-dashboard/src/lib/api.ts:258-281 | two chunkings of one text deliver the same states in the same order |
| StateStream.DeliveredGrows | apps/devstack-dashboard/src/lib/api.ts:258-281 | what some of the chunks deliver is a prefix of what all deliver |
| StateStream.SplitOn | apps/devstack-dashboard/src/lib/api.ts:264-269 | cutting what has come and then the rest is cutting the whole |
| StateStream.SplitIsLeftmost | apps/devstack-dashboard/src/lib/api.ts:265-269 | the frames end at the first blank lines and with the tail make up the text |
| StateStream.LeftmostIsUnique | apps/devstack-dashboard/src/lib/api.ts:265-269 | no other splitting does |
| StateStream.EventsReadBack | apps/devstack-dashboard/src/lib/api.ts:270-275 | events of data lines and other lines in any order, sent in any chunks, arrive whole, in order and alone, each with its data lines joined |
| StateStream.DataOfEvent | apps/devstack-dashboard/src/lib/api.ts:270-275 | the data of a frame are its data lines, trimmed and one under the other, whatever lines stand between them |
| Router.RouteRoundTrip | apps/devstack-dashboard/src/lib/router.ts:36-57 | a printed route reads back as itself if and only if its param is not empty and it is not empty itself |
| Router.ReadHref | apps/devstack-dashboard/src/lib/router.ts:41-57 | what reading a printed route gives in every case |
| Router.HrefFailsExactlyWhen | apps/devstack-dashboard/src/lib/router.ts:36-57 | printing throws exactly for an unpaired surrogate in the name or any surrogate in the param |
| Router.ViewRoundTrip | apps/devstack-dashboard/src/lib/router.ts:106-128 | kind and id of a detail view come back for any id without surrogates, and exactly those have a hash |
| Router.ViewIsReadExactlyWhen | apps/devstack-dashboard/src/lib/router.ts:99-117 | a param is read as a detail view exactly if it is its kind, a slash and an id; every other is the home view |
| Router.SpellingsOfAHash | apps/devstack-dashboard/src/lib/router.ts:41-52 | the hash mark and its slash may be missing, and a slash with nothing behind it names no param |
| Router.DecodeEncode | apps/devstack-dashboard/src/lib/router.ts:46-55 | decoding undoes encoding on every string that can be encoded |
| Router.DecodeEncodeParam | apps/devstack-dashboard/src/lib/router.ts:36-39 | the param encoder succeeds exactly without surrogates, and decoding undoes it |
| Router.ReadableStaysReadable | apps/devstack-dashboard/src/lib/router.ts:29-39 | a param of letters, digits and `: / . - _ ~` is printed as it is |
| Router.HrefIsHashSafe | apps/devstack-dashboard/src/lib/router.ts:41-57 | a printed route is `#/` and then visible ASCII without `#`, `?`, quotes and angle brackets; three spellings stand for the default route |
| Router.PointBack | apps/devstack-dashboard/src/lib/router.ts:36-55 | a percent-encoded code point is read back whatever follows (section 3 of RFC 3629) |
| Redaction.Redactor.RegisterSecret | packages/walrus-console-mcp/src/redaction.ts:74-79 | the trimmed value is added once, if it is a string of at least eight characters |
| Redaction.Redactor.RedactString | packages/walrus-console-mcp/src/redaction.ts:109-118 | the loop replaces secret after secret in the set's order |
| Redaction.RedactsExactly | packages/walrus-console-mcp/src/redaction.ts:109-118 | if the registered secrets occur in a text only where it is marked, each mark becomes the placeholder and every other part of the text comes out as it went in, in any order of the set |
| Redaction.ReplaceFirst | packages/walrus-console-mcp/src/redaction.ts:113-114 | the text before the first match stays, the match becomes the placeholder, and the text behind it is treated the same |
| Redaction.ScrubOneMore | packages/walrus-console-mcp/src/redaction.ts:109-118 | one more secret in the set's order: what the others left, with this one replaced where it stands |
| Redaction.OneSecretInPlace | packages/walrus-console-mcp/src/redaction.ts:109-118 | text around the one occurrence of the one secret is unchanged on both sides |
| Redaction.ScrubIsCompleteExactlyWhen | packages/walrus-console-mcp/src/redaction.ts:108-118 | of secrets without guillemets none is left in any order, if and only if the placeholder's word is not registered or there was nothing to scrub |
| Redaction.ReplaceKeepsClean | packages/walrus-console-mcp/src/redaction.ts:111-116 | a later replacement never recreates an earlier secret |
| Redaction.SplitRebuilds | packages/walrus-console-mcp/src/redaction.ts:113-114 | the pieces hold no secret and joined by it are the text |
| Redaction.CleanIsUnchanged | packages/walrus-console-mcp/src/redaction.ts:109-118 | a text without secrets is unchanged |
| Redaction.ScrubTwice | packages/walrus-console-mcp/src/redaction.ts:109-118 | scrubbing again, in any order, changes nothing |
| Text.TrimIdempotent | packages/walrus-console-mcp/src/redaction.ts:74-79 | a trimmed value is registered as it is |
| Text.TrimTakesOnlySpace | packages/walrus-console-mcp/src/redaction.ts:74-79 | trimming takes the white space at both ends and nothing else |

## Left out

- CarefulRunsExclude: assumes process ids are not reused while a record names them, as `isProcessAlive` cannot tell; the ten-minute and one-step conditions are stated, not assumed of the code.
- AcquireLock: a reclaim's removal always succeeds in the loop (the protocol also has the failing one), a link fails only because the name is taken, and waiting between attempts is other processes' steps, not time.
- DigestIsInjective: SHA-256 is taken as collision-free and named by the text it hashes.
- NoLostUpdate: direct callers of `saveConfigFile` outside the lock are not part of the runs.
- WriteFileAtomic: file modes, `mkdir`, the asynchronous sibling and its abort signal are not modelled; `precondition` is a yes or no from the world.
- CrashLeavesAWholeFile: another program always puts a new file in place of the destination; one that rewrites the existing file in place is not modelled.
- ImportedWriteIsWellFormed: the offline look before the probe and the retry decision of `importBundle` are not modelled; they write nothing.
- Register: JSON text is an abstract reader and writer, the reader undoing the writer; key order and formatting are not modelled.
- RoundTrip: percent expansion of cmd.exe, which comes before carets, and the lookup of the command on PATH are not modelled.
- FirstPass: space, tab, comma, semicolon and `=` are the delimiters that end a command; cmd.exe knows rarer ones, which are not modelled.
- RedactsExactly: secrets that overlap one another in a text are not covered by it; what the set's order makes of them is ScrubOneMore, step by step.
- LoadConfigFile: `loadConfigFileOrEmpty`, which warns about a damaged file and goes on with the other, is not modelled.
- ToRealPath: a link budget stands for ELOOP, the same for every call of one walk, while Node counts it per link; permissions and Windows spellings are not modelled. What is proved of the result holds for a different budget in the kernel.
- HardenNpxArgs: `path.isAbsolute` and the base name test for npx are parameters.
- NoBundleIsLeft: bundles that equal a text this program itself writes are excluded; a bundle is encoded JSON and never one of them.
- ValidateSilent: key formats, address normalisation and derivation, the bundle parser and the probe's answers are arbitrary functions; message texts are constructors.
- EveryRunIsGuarded: URL parsing is an abstract resolver over URL records with lower-case hosts; timeouts and response bodies are not modelled; nor are header names that are refused and the trimming of values.
- StreamState: the text decoder's work is the chunks, JSON parsing an arbitrary function of a frame's data; cancellation is not modelled.
- RedactString: environment and configuration registration only call the registration that is modelled; formatting of non-strings is not modelled.
- Prompts, the terminal interface, the dashboard's panels, chain and network clients, tool registration: layout or libraries whose semantics are not in this repository.
