# Verified model of ReCasaOS

Dafny 4.11 proofs about the parts of ReCasaOS whose correctness is hardest to see from the
code: publishing Samba configuration by compare-and-swap, moving an old installation to it,
changing shares all or nothing, copying and removing managed trees under crashes and
failures, resumable uploads, and the queue of batch file operations.

`dafny verify dfyconfig.toml` checks the whole project.

| file | models |
|---|---|
| `SambaConfigPublish.dfy` | the compare-and-swap publisher with an adversarial second actor |
| `LegacyFragment.dfy`, `LegacyMigration.dfy`, `SambaRender.dfy` | recognising, migrating and rendering Samba configuration |
| `ShareTransaction.dfy` | creating, deleting and reassigning shares, on top of the publisher |
| `Basics.dfy` | what the other files share: the optional value, the mutation mark, filtered lists and lines of a text |
| `CrashDisk.dfy`, `ManagedTransfer.dfy` | a disk with unsynced state, and the transfer protocol on it |
| `BatchRemoval.dfy`, `MutationErrors.dfy`, `Inventory.dfy` | removal, mutation metadata and mutation leases |
| `UploadSession.dfy`, `UploadRegistry.dfy`, `UploadSpace.dfy` | resumable uploads |
| `FileBatch.dfy`, `OperationQueue.dfy` | batches of file operations, their queue and its notifier |
| `DirectoryPage.dfy`, `CloudSettle.dfy` | directory paging and the removal of cloud mounts |

How the parts are modelled:

- Code that updates state step by step is a class or a method with loops; calls that may fail
  for reasons outside the model draw an arbitrary outcome, or the answer a given environment gives.
- Concurrency is a transition system whose steps are the critical sections, or an actor that
  may act between any two steps.
- SHA-256 is an injective function, so a digest stands for its content.
- Paths are sequences of components; `FileBatch.ContainsIffPrefix` ties them to the string test.
- Error metadata is what `MutationErrors` shows the aggregation to report.

## Where the code falls short of what it is meant to do

Each is stated with an input or run that shows it and the exact condition under which the property
holds; for the publisher that is what the other actor must have done during the call.

- Legacy migration is not resumable from every crash: see `LegacyMigration.EveryCrashResumesIff`
  and `LegacyMigration.ManagedFragmentGetsStuck`.
- A publish can claim success although the exchange displaced another content than expected, when
  the other actor edits that very file after the exchange: `SambaConfigPublish.SwapJudged`, which
  `SambaConfigPublish.ConfigDirectory.Publish` promises, and `SambaConfigPublish.LinkedEditGoesUnseen`.
- A share change is not undone when the read-back of a file just replaced fails, or when the
  failed step left an entry in the directory of a file to be put back: see
  `ShareTransaction.Unrestored` for the exact cases and `ShareTransaction.ReadBackLost` for a run.
- The key of an upload can be freed while its files remain on disk under another name: see
  `UploadRegistry.Registry.FreedFilesRemainIff` and `UploadRegistry.FreedWithFilesLeft`.
- The fragment matcher refuses some orders of valid stanzas when a path contains line breaks: see
  `LegacyFragment.EveryOrderAcceptedIff` and `LegacyFragment.LineBreakIsRefused`.
- The error walk reports a change for some errors within both of its limits: see
  `MutationErrors.ExactOnTrees` and `MutationErrors.FullBudgetWithTrailingNil`.
- A transfer can publish its copy and still return an error without the changed mark: exactly when
  the final close is the only call that failed, see `ManagedTransfer.Transfer.CopyTransfer` and
  `ManagedTransfer.UnmarkedChange`.
- The containment test on strings takes the root directory to contain only itself: see
  `FileBatch.ContainsIffPrefix`.
- With a reused task id a result can be acknowledged unseen: see
  `OperationQueue.AcknowledgedWasPublished` and `OperationQueue.ReusedIdIsForgotten`.

## Model

| member | source | states |
|---|---|---|
| `SambaConfigPublish.NothingForeignIsLost` | service/samba_config_publish_linux.go:232-425 | over every run in which another actor rebinds names or edits files between any two calls: an inode that held given content at some moment still holds it, under some name, at the end, unless the actor itself took it away, or it is this call's staged file or a snapshot the caller allowed to be replaced |
| `SambaConfigPublish.ForeignSurvives` | service/samba_config_publish_linux.go:321-445 | so a publish or removal leaves bound and unmodified every inode it neither created nor was told to replace |
| `SambaConfigPublish.OwnStepKeeps` | service/samba_config_publish_linux.go:232-425 | each own rename, exchange, unlink or rewrite keeps every other inode bound with its content |
| `SambaConfigPublish.ExchangeCurrent` | service/samba_config_publish_linux.go:379-410 | after a rename-exchange the target shows exactly the staged snapshot and the staging name exactly what the target showed |
| `SambaConfigPublish.StagedThenPublished` | service/samba_config_publish_linux.go:321-425 | staging followed by a publication that replaced its target or was undone leaves the directory with precisely the expected snapshot replaced, or exactly as it was |
| `SambaConfigPublish.ConfigDirectory.ReadSnapshot` | service/samba_config_publish_linux.go:66-129 | at one moment of the call the name was the only one of the regular file the snapshot tells about, with its mode, and with its bytes unless the other actor edited that file later in the call; undisturbed it is the current snapshot, and exactly the readable files are read |
| `SambaConfigPublish.ConfigDirectory.RandomQuarantineName` | service/samba_config_publish_linux.go:177-193 | a returned quarantine name was unbound, is marked and is known only to this process |
| `SambaConfigPublish.ConfigDirectory.RefuseQuarantine` | service/samba_config_publish_linux.go:197-218 | whoever interferes, the directory is refused exactly when, at the listing, it holds a name that contains .recasaos-quarantine- or starts with a dot and contains .cas-, or a call failed |
| `SambaConfigPublish.MarkedIff` | service/samba_config_publish_linux.go:213-213 | which names block the directory, letter by letter |
| `SambaConfigPublish.BackupIsNotRefused` | service/samba_legacy_config.go:24-24 | the backup the legacy migration leaves beside a file blocks the directory only if the name of the file itself does |
| `SambaConfigPublish.ConfigDirectory.QuarantineUnknown` | service/samba_config_publish_linux.go:232-249 | an unknown inode is only renamed to a marked name, never opened, truncated or unlinked; undisturbed, success means the name is free and nothing else changed, and nothing but a failing call prevents it |
| `SambaConfigPublish.ConfigDirectory.Discard` | service/samba_config_publish_linux.go:256-311 | only the proven inode is moved aside, emptied and unlinked; whatever else is met keeps its content and a name; undisturbed, success removes exactly the expected file and a file that differs is refused untouched |
| `SambaConfigPublish.ConfigDirectory.DiscardTemporary` | service/samba_config_publish_linux.go:313-319 | undisturbed, success removes exactly that entry; otherwise it keeps its name, is under a marked private one, or is gone, and no file but the expected one is written to; the target is never touched |
| `SambaConfigPublish.ConfigDirectory.CreateStaging` | service/samba_config_publish_linux.go:141-162 | the staging file is a fresh inode under a name only this process knows |
| `SambaConfigPublish.ConfigDirectory.CloseRetained` | service/samba_config_publish_linux.go:335-346 | a staging file given up is removed, unless a call fails; undisturbed nothing but its own inode is written to, and the target is never touched |
| `SambaConfigPublish.ConfigDirectory.Stage` | service/samba_config_publish_linux.go:331-366 | on success the staged inode holds exactly the requested bytes and mode, privately |
| `SambaConfigPublish.ConfigDirectory.PublishNew` | service/samba_config_publish_linux.go:368-377 | an absent target is bound only if still absent at the rename; otherwise the candidate is withdrawn |
| `SambaConfigPublish.ConfigDirectory.ExchangeIn` | service/samba_config_publish_linux.go:379-388 | the exchange records the very snapshot it displaced, and happens exactly when the target exists and no call fails |
| `SambaConfigPublish.ConfigDirectory.JudgeDisplaced` | service/samba_config_publish_linux.go:389-424 | success means the displaced file was the expected one, unless the actor edited it after the exchange; undisturbed from then on, a different file is given its name back and the candidate removed |
| `SambaConfigPublish.ConfigDirectory.PublishOver` | service/samba_config_publish_linux.go:379-424 | judged from the exchange on: what it reports about the displaced snapshot, and that it replaces exactly the expected one or gives the target back the very file found there |
| `SambaConfigPublish.ConfigDirectory.RollBack` | service/samba_config_publish_linux.go:389-418 | whatever happened before it, a rollback that nobody disturbs and no call fails gives the target back the very inode found at the exchange and removes the candidate |
| `SambaConfigPublish.ConfigDirectory.Publish` | service/samba_config_publish_linux.go:321-425 | for every interference and every pattern of failures the run is lawful, the touches of the target are exactly what the returned snapshot claims, and a claimed success displaced exactly the expected snapshot unless the actor edited that file after the exchange; if nobody disturbs it from the exchange on and nothing fails, it replaces exactly the expected snapshot or restores the very file found there and removes its own; a marked entry at the start makes it refuse without change; undisturbed, every other unmarked name and every other file stays as it was, and with at most one failing call the target holds the reported snapshot or the expected one; undisturbed and without failures it succeeds on every matching target of up to 4 MiB beside which no blocking name stands |
| `SambaConfigPublish.ConfigDirectory.Remove` | service/samba_config_publish_linux.go:427-445 | the target is left alone, moved away once, or moved away and back, whether or not the call succeeds; success means the expected inode was moved away, erased and the target then absent; a marked entry makes the call refuse without change; undisturbed every other unmarked name stays and the removal takes exactly the expected file or nothing |
| `SambaConfigPublish.LinkedEditGoesUnseen` | service/samba_config_publish_linux.go:389-410 | a lawful run in which the exchange displaces another content than expected and the read-back still finds the expected one: the exact exception of Publish |
| `SambaConfigPublish.SpanKeeps` | service/samba_config_publish_linux.go:321-445 | from any moment of a run on, names the run has not drawn keep their binding while the actor keeps still |
| `SambaConfigPublish.FilesStay` | service/samba_config_publish_linux.go:256-311 | in an undisturbed lawful run a file that is neither licensed nor its own is never written to |
| `CrashDisk.CompleteSurvives` | pkg/filesecurity/managed_copy_linux.go:374-517 | a durably complete tree reads back in full after any crash, whichever unsynced changes survive |
| `CrashDisk.CompleteFrame` | pkg/filesecurity/managed_copy_linux.go:303-372 | completeness of a staged tree depends only on its own inodes, so later steps elsewhere cannot break it |
| `ManagedTransfer.CrashFindsOldOrNew` | pkg/filesecurity/managed_copy_linux.go:303-372 | at every state of every run, a crash finds under each destination name what could have been found before or the complete copy, and every older object exactly as at the start |
| `ManagedTransfer.DurablyPublished` | pkg/filesecurity/managed_copy_linux.go:879-911 | a published copy with no pending directory change is what every crash finds |
| `ManagedTransfer.MovePublishes` | pkg/filesecurity/managed_copy_linux.go:879-881 | publishing without replacing binds the complete staged tree and touches no other name |
| `ManagedTransfer.ExchangePublishes` | pkg/filesecurity/managed_copy_linux.go:981-1003 | the exchange keeps the old object under the private name while the complete copy takes the target |
| `ManagedTransfer.UnlinkOldIsSafe` | pkg/filesecurity/managed_copy_linux.go:1032-1060 | the old object may lose its last name only when nothing but the copy can be found under the target |
| `ManagedTransfer.CandidateIff` | pkg/filesecurity/managed_copy_linux.go:1471-1482 | the k-th retry for a base is the part before its last dot, k in decimal in parentheses, and the rest; exactly the valid components among these are tried |
| `ManagedTransfer.ExtIsLastPart` | pkg/filesecurity/managed_copy_linux.go:1475-1476 | the extension is the part from the last dot on, empty exactly without a dot |
| `ManagedTransfer.NumeralIsDecimal` | pkg/filesecurity/managed_copy_linux.go:1477-1477 | the decimal of k is the only digit string without leading zero whose value is k |
| `ManagedTransfer.CandidatesDiffer` | pkg/filesecurity/managed_copy_linux.go:1471-1482 | the names tried on conflict are pairwise different |
| `ManagedTransfer.Transfer.CopyTree` | pkg/filesecurity/managed_copy_linux.go:374-434 | success leaves a durably complete copy in new inodes only and counts its entries and bytes exactly, one inode per entry and the bytes in its files; failure touches only the staging entry; unless a call fails it succeeds exactly when the tree is copyable (names, 128 levels, single links, no special files) and fits the budget of 100,000 entries and 64-bit bytes |
| `ManagedTransfer.Transfer.CopyFile` | pkg/filesecurity/managed_copy_linux.go:436-464 | a copied file is complete and synced, or nothing but the new inode was touched; unless a call fails, exactly the single-link files that fit are copied |
| `ManagedTransfer.Transfer.CopyDir` | pkg/filesecurity/managed_copy_linux.go:466-517 | a copied directory holds exactly the source entries, each complete, and is synced after them; unless a call fails, exactly the directories that fit are copied |
| `ManagedTransfer.Transfer.CopyEntries` | pkg/filesecurity/managed_copy_linux.go:467-505 | the loop over the entries copies every one of them completely below the new directory, or stops with only that directory touched, and counts them exactly |
| `ManagedTransfer.Transfer.RemoveEntry` | pkg/filesecurity/managed_roots_linux.go:1400-1483 | removal of a staged copy stays inside new inodes; the changed mark says exactly whether an entry was lost, unknown durability that an unlink is unsynced; unless a call fails it succeeds on everything the copy could have staged |
| `ManagedTransfer.Transfer.RemoveChildren` | pkg/filesecurity/managed_roots_linux.go:1457-1475 | the loop over a directory empties it, or stops with the mark that tells whether anything was lost |
| `ManagedTransfer.Transfer.Cleanup` | pkg/filesecurity/managed_copy_linux.go:1257-1302 | cleanup meets an entry only when that entry is the unpublished staging copy; it changes no destination name but the transaction's; it succeeds unless a call fails, and unknown durability means a pending change |
| `ManagedTransfer.Transfer.Settle` | pkg/filesecurity/managed_copy_linux.go:884-911 | after publication durability is reported unknown exactly when one of the two directories has a pending change, and an error is always marked as changed |
| `ManagedTransfer.Transfer.ReplaceAt` | pkg/filesecurity/managed_copy_linux.go:929-1060 | replacement publishes the copy or leaves everything; unless a call fails it replaces exactly an object of the same kind, a directory only when empty; errors after the exchange are marked as changed; unknown durability exactly when a change is pending; cleanup is never allowed while an exchanged old target is in the transaction |
| `ManagedTransfer.Transfer.Publish` | pkg/filesecurity/managed_copy_linux.go:828-1064 | reports a change exactly when the target was bound to the staged inode (allowlisted filesystem); the chosen name is the requested or first free one; of a published copy durability is unknown exactly when a change is pending; unless a call fails it succeeds exactly when the conflict style finds a name |
| `ManagedTransfer.Transfer.Finish` | pkg/filesecurity/managed_copy_linux.go:310-339 | a retained transaction is always reported as changed, an unmarked outcome means it is gone, what is not reported unknown is synced, and the retained transaction's durability is unknown in exactly the named cases |
| `ManagedTransfer.Transfer.OpenTransaction` | pkg/filesecurity/managed_copy_linux.go:1083-1117 | the private directory is created empty and durable before anything is staged, exactly when no call fails and its name is free |
| `ManagedTransfer.Transfer.CopyTransfer` | pkg/filesecurity/managed_copy_linux.go:303-372 | every state of the run is crash safe; Changed holds exactly when some name was bound to the copy; other names are untouched; a published copy comes with an unmarked error exactly when the final close failed and nothing else did, and an unmarked error without Changed leaves the directory as it was; success means no call failed and is durable with the transaction gone; unless a call fails it succeeds exactly on the requests that fit, and a refusal changes nothing |
| `ManagedTransfer.Transfer.FinishCopy` | pkg/filesecurity/managed_copy_linux.go:328-372 | the same from the end of staging on |
| `ManagedTransfer.UnmarkedChange` | pkg/filesecurity/managed_copy_linux.go:310-339 | a run of CopyTransfer that publishes the copy and returns an unmarked error |
| `LegacyFragment.Validate` | service/samba_legacy_config.go:46-93 | whatever order the count map is walked in, the result is acceptance as specified: limits, valid paths, equal length, and consumption without any choice |
| `LegacyFragment.Consume` | service/samba_legacy_config.go:69-92 | the loop accepts exactly the bytes that can be consumed stanza by stanza with a unique next stanza until none is left |
| `LegacyFragment.NextStanza` | service/samba_legacy_config.go:70-80 | one pass over the map finds the only remaining stanza that continues the data, or reports none or an ambiguity, independent of key order |
| `LegacyFragment.AcceptedIsSomeOrder` | service/samba_legacy_config.go:65-92 | accepted bytes are a concatenation of exactly the multiset of row stanzas in some order |
| `LegacyFragment.EveryOrderAcceptedIff` | service/samba_legacy_config.go:65-92 | every order of the rows' stanzas is accepted if and only if no stanza is a proper prefix of another |
| `LegacyFragment.OneLinePathsArePrefixFree` | service/samba_legacy_config.go:149-162 | paths without line breaks give prefix-free stanzas |
| `LegacyFragment.LineBreakIsRefused` | service/samba_legacy_config.go:65-92 | two valid rows, one path with line breaks, whose own stanzas in some order are refused |
| `SambaRender.RenderShares` | service/shares.go:975-1039 | the loop with its seen sets renders exactly the row lists without anonymous, non-canonical, duplicate or clashing shares and within the size limit |
| `SambaRender.RenderedIsFragment` | service/shares.go:975-1039 | a rendering is the marker line and then the text of every row, in row order, and nothing else |
| `SambaRender.ShareSays` | service/shares.go:1012-1034 | the text of a share names its directory under its name, closes it to guests and, with an account, opens it to that account alone and gives its files to it |
| `LegacyFragment.StanzaSays` | service/samba_legacy_config.go:149-162 | an old stanza names the directory under its last component, open to guests, as root |
| `LegacyFragment.BaseIsLast` | service/samba_legacy_config.go:59-59 | the name of a share is what follows the last slash of its path |
| `LegacyFragment.ValidUtf8Iff` | service/samba_legacy_config.go:56-56 | the byte-wise check accepts exactly the encodings of sequences of Unicode scalar values by section 3 of RFC 3629 |
| `LegacyMigration.PlanRows` | service/samba_legacy_config.go:100-138 | the two counting passes select exactly the rows whose path and folded name no other usable row shares, and tell exactly whether applying would change a row |
| `LegacyMigration.PlanIsIdempotent` | service/samba_legacy_config.go:100-147 | planning after applying gives the same safe shares and no database mutation, and the same legacy stanzas |
| `LegacyMigration.PlanRenders` | service/samba_legacy_config.go:100-138 | the planned rows render unless one of their accounts has a bad name |
| `LegacyMigration.LegacyMigrates` | service/samba_legacy_config.go:164-254 | an old installation whose fragment the rows account for, with good account names and an acceptable result, is migrated and its files backed up |
| `LegacyMigration.ReconciliationLeaves` | service/shares.go:418-518 | after every successful reconciliation, whatever branch it took, the main configuration is managed, the fragment is the marker and the texts of exactly the safe rows in row order, these rows are secured, and no row changed but in name and anonymity |
| `LegacyMigration.StepResumes` | service/samba_legacy_config.go:164-254 | each write of a successful run leaves a state from which the next run performs exactly the remaining writes, or is one of two stuck places where it refuses |
| `LegacyMigration.CrashResumes` | service/samba_legacy_config.go:164-345 | a run interrupted after any number of writes is completed by the next run with exactly the writes left, except in a stuck place |
| `LegacyMigration.CrashEndsTheSame` | service/shares.go:418-518 | and then ends with the same files, backups and rows as the uninterrupted run |
| `LegacyMigration.EveryCrashResumesIff` | service/shares.go:418-518 | every crash point is resumable if and only if the run does not start from a legacy main beside an already managed fragment, or beside a missing fragment with the backup of an empty one |
| `LegacyMigration.OneMoreRunWritesNothing` | service/shares.go:418-518 | after any successful run one more run writes nothing |
| `LegacyMigration.FragileGetsStuck` | service/samba_legacy_config.go:256-269 | every run from such a state has a crash point after which all further runs refuse |
| `LegacyMigration.ManagedFragmentGetsStuck` | service/samba_legacy_config.go:166-187 | the concrete state with a managed fragment without shares, and its crash point |
| `LegacyMigration.Installation.EnsureBackups` | service/samba_legacy_config.go:256-269 | backups are written exactly where missing and refused where they differ |
| `LegacyMigration.Installation.Check` | service/samba_legacy_config.go:164-206 | all checks before the first write, by the matcher, the planner and the renderer; a candidate is the fragment with exactly the safe rows, secured, in row order |
| `LegacyMigration.Installation.MigrateFiles` | service/samba_legacy_config.go:164-254 | a migration performs exactly the planned writes in order or leaves both files and the rows as they were; afterwards the fragment holds the text of exactly the safe rows in row order, these rows are secured and all others as before, the main configuration is the managed one and both backups hold what was there |
| `LegacyMigration.Installation.InspectFiles` | service/samba_legacy_config.go:303-345 | the inspection tells a resumable from a completed and from an absent migration as specified; a completed one has the fragment with exactly the safe rows, all secured |
| `LegacyMigration.Installation.ReconcileFiles` | service/shares.go:418-518 | a reconciliation does what its specification says and leaves what ReconciliationLeaves says, and one that refuses leaves both files and the rows as they were |
| `ShareTransaction.PublishIn` | service/samba_config_publish_linux.go:321-425 | the publisher as this code uses it, derived from its model: with at most one failing call the file is replaced or as it was and reported as such, the other file of the directory is kept, and a marked entry refuses without change |
| `ShareTransaction.RemoveIn` | service/samba_config_publish_linux.go:427-445 | the remover as this code uses it: without failing calls it removes the file exactly when the directory holds no marked entry, and keeps the other file |
| `ShareTransaction.Service.PublishFile` | service/shares.go:761-777 | which pairs of published and leftover a single failing call inside the publisher can produce |
| `ShareTransaction.Service.WriteTracked` | service/shares.go:761-777 | what the caller learns about a written file, by the step that failed |
| `ShareTransaction.Service.PublishCandidate` | service/shares.go:852-879 | which files were replaced and tracked when publication fails at any single step |
| `ShareTransaction.Service.RestoreFile` | service/shares.go:915-932 | publishing the old content over the written file, or removing it, restores the file exactly when the caller knows what it wrote and no marked entry blocks the directory; the other file is kept |
| `ShareTransaction.Service.Restore` | service/shares.go:888-913 | after both restorations, made one after the other through the publisher and remover, each tracked file is back as captured unless a leftover entry blocks its directory, even when both share one directory |
| `ShareTransaction.Service.HandOver` | service/samba_user.go:253-294 | account and mode both change or neither does, and the returned step undoes exactly this change |
| `ShareTransaction.OwnedHandsOver` | service/shares.go:275-299 | each directory of a share with an account ends with that account and mode 0770, or, released, with the system and mode 0755; every other directory keeps its owner and mode |
| `ShareTransaction.Service.ApplyOwners` | service/shares.go:275-299 | all directories are handed over in that sense, with an undo list that restores them exactly, or none |
| `ShareTransaction.Service.Conclude` | service/shares.go:184-211 | publication and commit, or the undo of both, with the exact exception |
| `ShareTransaction.Service.CreateShares` | service/shares.go:146-211 | succeeds exactly when no step fails and the request can be rendered, tested and managed; success: rows added, the directory of every added share with an account with that account and mode 0770, every other as before, and the fragment holding exactly the committed rows in order; error: rows, owners and both files as before, if and only if the failed step was neither the read-back of a replaced file nor left an entry in the directory of a file to be put back |
| `ShareTransaction.Service.SetShareUsername` | service/shares.go:216-264 | all or nothing and successful in the same exact sense; only that row and the owner of that directory change |
| `ShareTransaction.Service.DeleteShare` | service/shares.go:301-345 | all or nothing and successful in the same exact sense; exactly that row goes, and a directory that had an account goes back to the system with mode 0755 |
| `ShareTransaction.ReadBackLost` | service/shares.go:761-777 | a run of DeleteShare on an installation with a legacy main configuration in which the read-back of the replaced file fails: the rows stay, a file does not |
| `UploadSession.AdmittedIff` | pkg/filesecurity/filesecurity.go:48-83 | the 64-bit checks never overflow and admit exactly the chunks of a well-formed cut with their exact lengths |
| `UploadSession.AdmittedExactly` | pkg/filesecurity/filesecurity.go:48-83 | a chunk is admitted exactly with the length of its part of the file, so the chunks cover it without gap or overlap |
| `UploadSession.JoinedLength` | service/file_upload.go:797-813 | chunks of the admitted lengths join to exactly the declared total size |
| `UploadSession.JoinedIsInPlace` | service/file_upload.go:962-1067 | the assembled bytes hold chunk i from i times the chunk size on up to the next chunk or the end |
| `UploadSession.FirstWins` | service/file_upload.go:366-413 | over every history of requests, writes and lost files: what was written for a chunk stays recorded, and no later request writes that chunk again, until its file is lost |
| `UploadSession.RecordedWasAsked` | service/file_upload.go:298-413 | every recorded content was sent by some request for that chunk |
| `UploadSession.SameRequestsSameBytes` | service/file_upload.go:298-456 | two histories whose requests agree chunk by chunk, in any order, with duplicates, failures, refusals and lost files, record contents that join to the same bytes |
| `UploadSession.CompletedUploadsAgree` | service/file_upload.go:298-456 | two completed sessions for the same file whose requests agree publish identical bytes |
| `UploadSession.Session.Reconcile` | service/file_upload.go:881-928 | a recorded chunk is confirmed exactly by its recorded contents and forgotten, with the count lowered, only when its file is gone; anything else fails and changes nothing |
| `UploadSession.Session.WriteChunk` | service/file_upload.go:838-879 | a chunk is recorded exactly when published, with its exact length and digest; undisturbed, exactly the chunks of the declared length are |
| `UploadSession.Session.StoreChunk` | service/file_upload.go:351-405 | a chunk counts as stored only with its recorded contents in place; a chunk recorded before keeps them |
| `UploadSession.Session.Assemble` | service/file_upload.go:962-1067 | although files in staging may change at any time, the published bytes are the recorded contents in chunk order, and the final size check cannot fail |
| `UploadSession.Session.Complete` | service/file_upload.go:407-456 | completion publishes the whole target of the declared size or gives the session up; undisturbed it publishes |
| `UploadSession.Session.Upload` | service/file_upload.go:298-456 | after every request the count equals the flags, the target is absent or holds every recorded chunk at its place and nothing else, other chunks are untouched and the history holds every matching request; a closed session accepts nothing, also when creating the directory closed it, and a completed one never writes again; undisturbed, a matching chunk is recorded and the last missing one publishes the target |
| `UploadSpace.Admission.Reserve` | pkg/filesecurity/upload_space.go:36-57 | admission exactly when the write fits beside all admitted ones and the headroom; the reserved total is the sum of outstanding reservations; the overflow branch is dead |
| `UploadSpace.Admission.Release` | pkg/filesecurity/upload_space.go:59-71 | a release gives back its amount once and the clamp branch is dead |
| `UploadRegistry.Registry.GetOrCreate` | service/file_upload.go:624-662 | at most 16 sessions that are not completed and at most 144 in all, refused for exactly that reason; a new generation is registered before removal and finds no files of an earlier one; only evictable records give way, and none that age or number should have evicted is left |
| `UploadRegistry.Registry.Write` | service/file_upload.go:302-372 | chunks are written only by the generation that has the key |
| `UploadRegistry.Registry.Close` | service/file_upload.go:413-448 | a closed session accepts no more chunks |
| `UploadRegistry.Registry.RemoveHeldTree` | pkg/filesecurity/managed_roots_linux.go:655-716 | success means the staging name is free, and it is reported exactly when the name was already absent or every step went well; a tree is set aside exactly when the rename succeeded and a later step failed |
| `UploadRegistry.Registry.Delete` | service/file_upload.go:664-698 | a key is freed only once no files are left under its own staging name; a completed record keeps it; a call for an earlier generation changes nothing, a failed one frees nothing |
| `UploadRegistry.Registry.Expire` | service/file_upload.go:571-622 | expiry frees keys only when no files are left under their names, never touches a session in use, and frees every session that is over and whose removal succeeds |
| `UploadRegistry.Registry.ExpireOne` | service/file_upload.go:571-620 | a session goes exactly if closed or idle for six hours and its removal succeeded, a completed one exactly if clean and expired; an idle one is closed |
| `UploadRegistry.Registry.Prune` | service/file_upload.go:704-761 | each lock is tried once per pass: only completed and clean records are evicted, exactly the expired ones free at the first pass, and others only while 128 remain and only those free at both, oldest first |
| `UploadRegistry.Registry.FreeKeysAreEmpty` | service/file_upload.go:664-698 | in every state the files under a staging name belong to the generation that has the key |
| `UploadRegistry.Registry.FreedFilesRemainIff` | pkg/filesecurity/managed_roots_linux.go:681-716 | files of a freed generation remain on disk exactly when an earlier removal of them failed after its rename |
| `UploadRegistry.FreedWithFilesLeft` | service/file_upload.go:664-698 | a run in which a removal fails after its rename and the retry, finding the name absent, frees the key |
| `FileBatch.ContainsIffPrefix` | service/file.go:498-500 | the string test decides component containment for every parent but the root, which it takes to contain only itself |
| `FileBatch.Prepare` | service/file.go:341-464 | a batch is accepted exactly when it is acceptable: resolved, supported, sources apart, targets apart unless renaming, no target overlapping another source, and the exact sum of sizes within 64 bits |
| `FileBatch.CheckCrossing` | service/file.go:448-454 | the final loops find an overlap between a target and another source exactly when there is one |
| `FileBatch.ExecuteIsLocal` | service/file.go:616-625 | an item reads only its source, target and destination directory and changes only its source and target; directory moves that would replace or copy are refused |
| `FileBatch.ExecuteSays` | service/file.go:616-625 | an item publishes exactly when nothing stands in its way; the target then shows the tree of the source, which is gone exactly if it was moved within one filesystem; otherwise nothing changes |
| `FileBatch.OrderIsIrrelevant` | service/file.go:445-454 | independent items give the same final tree and the same per-item results in every permutation |
| `FileBatch.AcceptedBatchesCommute` | service/file.go:371-454 | every accepted skip or replace batch is independent |
| `FileBatch.Conclude` | service/file.go:510-579 | the final status is success exactly when all items succeeded, failure exactly when none changed anything, and the processed size is that of the published items |
| `FileBatch.ProcessedWithinTotal` | service/file.go:510-579 | the processed size never exceeds the accepted total and equals it on success |
| `FileBatch.TotalsAdd` | service/file.go:510-579 | both totals add up over the parts of a batch, an item counting its size or nothing |
| `OperationQueue.RunKeeps` | service/file.go:81-212 | over every interleaving: order duplicate-free and equal to the tasks, at most 32, at most one running and it is the recorded one, first in first out, and a pending task implies the one live worker |
| `OperationQueue.TakeFirst` | service/file.go:147-155 | the task taken is the oldest pending one |
| `OperationQueue.TerminalStaysInRun` | service/file.go:81-212 | a terminal task whose id no submission of the run is accepted under keeps its state until it is removed, whatever else runs |
| `OperationQueue.AcknowledgedWasPublished` | service/notify.go:112-172 | every task acknowledged after a run is exactly the one published before it if and only if no reported id was accepted again in the run and has finished by the acknowledgement |
| `OperationQueue.ReusedIdIsForgotten` | service/file.go:192-202 | with a reused id a result nobody saw can be acknowledged |
| `OperationQueue.ResultIsStored` | service/file.go:111-133 | a running task cannot be removed, so its result always finds it |
| `OperationQueue.EnqueueSays` | service/file.go:81-109 | a submission is accepted exactly with fewer than 32 tasks and a usable free id, is queued as submitted and changes nothing else |
| `OperationQueue.ExecutesTheSubmitted` | service/file.go:111-133 | whatever runs in between, what the worker executes under an id is what was submitted under it |
| `OperationQueue.DeleteSays` | service/file.go:169-190 | a deletion takes exactly the task asked for, or all of them, and none while it runs |
| `OperationQueue.AcknowledgeSays` | service/file.go:192-202 | an acknowledgement takes exactly the finished tasks among the ids |
| `OperationQueue.Queue.EnqueueTask` | service/file.go:81-109 | the critical section is the specified step |
| `OperationQueue.Queue.NextPendingLocked` | service/file.go:147-155 | the loop returns the first pending task of the order |
| `OperationQueue.Queue.BeginNext` | service/file.go:111-124 | the worker takes the next task or retires in the same critical section |
| `OperationQueue.Queue.EndCurrent` | service/file.go:126-132 | the result is stored and the running id cleared |
| `OperationQueue.Queue.DeleteTask` | service/file.go:169-190 | one task or all, never a running one |
| `OperationQueue.Queue.AcknowledgeTerminal` | service/file.go:192-202 | exactly the terminal tasks among the ids are removed |
| `OperationQueue.Queue.CompactOrder` | service/file.go:204-212 | the order keeps the remaining tasks in place |
| `OperationQueue.EveryRequestIsServed` | service/notify.go:83-108 | however requests and passes interleave, when no publisher is left every request was followed by a pass that began after it, and there are never more passes than requests |
| `BatchRemoval.Validate` | pkg/filesecurity/managed_copy_linux.go:1359-1425 | the preflight accepts exactly the trees with only removable entries, nowhere too deep and within the entry budget, and counts them completely, unless a check fails |
| `BatchRemoval.Trees.Remove` | pkg/filesecurity/managed_roots_linux.go:1400-1490 | a tree the preflight accepted never meets the removal's own depth or entry limit; only its entries are lost, all of them unless a call fails; an error is marked as changed exactly when something was unlinked and as of unknown durability exactly when an unlink is unsynced |
| `BatchRemoval.Trees.RemoveChildren` | pkg/filesecurity/managed_roots_linux.go:1444-1468 | the loop over a directory removes exactly its children, each intact when its turn comes |
| `BatchRemoval.Trees.Preflight` | pkg/filesecurity/managed_roots_linux.go:767-834 | every requested path is examined before anything is unlinked |
| `BatchRemoval.Trees.RemoveAllBatch` | pkg/filesecurity/managed_roots_linux.go:741-864 | a preflight failure changes nothing; Completed is a prefix of the request; both marks of an error are exact; nothing outside the requested trees is touched; unless a call fails it succeeds exactly when every path is fit for removal |
| `MutationErrors.Aggregate` | pkg/filesecurity/managed_copy.go:113-156 | the stack loop ends on every graph and reports the specified flags |
| `MutationErrors.FailsClosed` | pkg/filesecurity/managed_copy.go:113-156 | on every error graph, cyclic ones included: a flag reported false is carried by no reachable error; unless a budget ran out, a flag reported true is carried by one |
| `MutationErrors.WrappingKeepsFlags` | pkg/filesecurity/managed_copy.go:113-156 | wrapping or joining an error never loses a flag |
| `MutationErrors.ExactOnTrees` | pkg/filesecurity/managed_copy.go:113-156 | on every acyclic error the answer is the recursive OR if and only if it is within depth 64 and within 256 errors, where at exactly 256 the last entry may not be nil; otherwise both flags are set |
| `MutationErrors.FullBudgetWithTrailingNil` | pkg/filesecurity/managed_copy.go:113-156 | 256 plain errors at depth at most 2 that are reported as changed |
| `MutationErrors.MarkingFailsClosed` | pkg/filesecurity/managed_copy.go:158-171 | the marked error is nil exactly when the error was, is reported as changed and keeps every uncertainty |
| `Inventory.EqualSamplesMeanQuiet` | pkg/filesecurity/managed_mutation_linux.go:22-45 | two equal even samples mean that no lease was out and nothing was being closed at any moment in between |
| `Inventory.QuietMeansEqualSamples` | pkg/filesecurity/managed_mutation_linux.go:22-45 | a run in which no lease is ever out leaves the generation as it was |
| `Inventory.RunKeepsParity` | pkg/filesecurity/managed_roots_linux.go:181-204 | the generation is odd exactly while a lease or a close is active |
| `Inventory.ReleaseIsIdempotent` | pkg/filesecurity/managed_mutation_linux.go:39-44 | a release that has run once changes nothing at any later moment of any run, whoever holds the lock by then |
| `Inventory.ReleaseFreesItsOwn` | pkg/filesecurity/managed_mutation_linux.go:39-44 | a release that has not run finds its own lease holding the lock, and no other, and frees it |
| `Inventory.TransactionNameIff` | pkg/filesecurity/managed_recovery_linux.go:177-193 | the transaction names are the prefix and exactly 32 lower-case hex digits |
| `Inventory.Scan` | pkg/filesecurity/managed_recovery_linux.go:56-88 | at most 4096 entries are scanned, exactly the transaction names among them counted, the first 128 in directory order inspected, and everything left out is reported by exactly the finding that says why; a read failure is reported only if a read failed |
| `Inventory.Conclude` | pkg/filesecurity/managed_recovery_linux.go:89-101 | the concurrent-mutation finding is added exactly when a lease was held at some moment between the two samples |
| `DirectoryPage.PlanIff` | service/system.go:397-411 | a page plan exists exactly for the admissible requests and its offset never overflows |
| `DirectoryPage.ReadPage` | service/system.go:487-569 | however the directory splits its entries, the total counts exactly the visible ones and the page holds those from the offset on in directory order; more than 10,000 raw entries always fail, exactly 10,000 never for that reason; with progress, no cancellation and readable entries it answers |
| `DirectoryPage.PagesConcatenate` | service/system.go:397-411 | consecutive pages over an unchanged directory concatenate to the whole list |
| `CloudSettle.SameTopology` | service/storage.go:300-333 | comparing sorted topologies decides multiset equality |
| `CloudSettle.Contains` | service/storage.go:277-298 | an answer exists exactly when no record contradicts the mount, and says whether the exact record is listed |
| `CloudSettle.Cloud.Observe` | service/storage.go:340-380 | a frame counts exactly when both lists are clear and equal as multisets and both authorities report the expected state |
| `CloudSettle.Cloud.Settle` | service/storage.go:386-437 | the loop ends for every clock whose waits last as long as asked, with at most one sample per interval and one more; it converges exactly when two consecutive frames agree and stops at once on a contradictory list; nothing else ends it but a cancellation or a deadline that the answers really used up; two agreeing frames in time always converge |
| `CloudSettle.Cloud.UnmountStorage` | service/storage.go:567-633 | it goes exactly as far as the checks and the list permit; the unmount is issued exactly when the list shows this mount and permits it; success means exactly that and two agreeing frames of absence, and answers that are all in order give success |
| `CloudSettle.Cloud.DeleteConfig` | service/storage.go:904-932 | the request to delete is made, once, exactly when its checks are fine and two frames agree on absence; success means exactly that it was answered or the remote is gone from the list |
| `CloudSettle.Cloud.RemoveStorage` | service/storage.go:644-675 | the configuration is deleted, once, exactly when it read back unchanged before and after an unmount that settled and two further frames agree on absence; success means exactly that and an answered deletion or a remote gone from the list; answers that are all in order give success |

## Left out

- HTTP routing, tokens, middleware, WebSockets, generated clients and storage drivers: plumbing around libraries that are not part of this model.
- Path resolution in the kernel (openat2 flags, mount ids, owners and mode bits): checks that may fail.
- ManagedTransfer.Transfer.CopyTransfer: does not model the direct rename of a source within one filesystem, whose safety between the two directory syncs rests on the filesystem; nor concurrent changes of the destination directory by others, nor file modes.
- ManagedTransfer.Transfer.RemoveEntry: the check of the staged copy that precedes its removal is one check that may fail; BatchRemoval.Validate models it in full.
- BatchRemoval.Trees.RemoveAllBatch: nobody else changes the trees during the lease; the changed mark of RemoveHeldTree is not claimed, because that operation returns an error after its quarantine rename without the mark.
- ShareTransaction.Service.CreateShares: at most one call fails, none while the change is undone, and nobody interferes; the retained backup of the main configuration is not part of the claim.
- LegacyMigration.Installation.ReconcileFiles: restarts of Samba and single failing writes are not modelled; a crash is an interruption between two completed writes. The configuration with a main file owned by the host has no migration and is not modelled.
- FileBatch.OrderIsIrrelevant: batches that rename on conflict are excluded, since there several items may share a target and suffixes depend on the order. What one item does is an abstraction of the transfer protocol.
- UploadSession.Session.Assemble: the digest stands for the content, and a commit that reports a change has published.
- UploadRegistry.Registry.RemoveHeldTree: a session that never opened its staging directory removes it by path, which is not a case of its own; how much of a tree set aside is left does not matter.
- Inventory.EqualSamplesMeanQuiet: the generation does not wrap around.
- OperationQueue.RunKeeps: assumes that the executor ends with a terminal status, which FileBatch.Conclude shows of it.
- External commands, the database engine, wall-clock time and randomness: outcomes that may be any, and a clock that does not run backwards.
- Commit of a finished upload file and writable-file handles (commitNoReplaceFromPinnedStaging, ManagedWritableFile): the same publish-without-replacing step as ManagedTransfer.MovePublishes.
- Files for unsupported platforms, hardware status, browser tests and the ZeroTier proxy: stubs or simple members only.
