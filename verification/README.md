# Freighter, modelled in Dafny

Freighter is a registry for Rust crates. This project models the state it keeps and the protocols that keep that state
consistent, and proves what they guarantee.

**The file-system index as a concurrent protocol.** `RegistryProtocol` cuts each request at every `await` and at every
release of a shared resource: look up the crate's lock in the table of weak entries, wait for it, pull the index file,
run the end step of a publish, put the file back, drop the guard, drop the `Arc`, clean up the table, roll back. Any
number of requests interleave, any input or output may fail, any request may be cancelled where it awaits. The
specification of one request on one file is `IndexOps.Judge`. `LockInvariant` shows that all holders of a crate's lock
hold the same lock and that no entry leaks; `Linearizability` and `IndexHistory` show that every run is one of an atomic
map, in an order that respects real time, and that index files only grow. `Progress` shows that requests end: there is no
deadlock, and a run without new requests stops. `Outcomes` reads off a request's state what happened to it.

**Publishing across two stores.** `TarballConsistency` and `TarballRuns` add the tarball bucket. "Every listed release
has its tarball" fails of the code, because a rollback's delete runs outside the crate's lock: `RollbackRace` is a run
that breaks it, for every crate. `TarballLosses` gives the exact condition over whole runs: no delete hits the tarball of
a listed release, and no publish whose tarball was deleted while it was about to list its release does list it.
`TarballsStayConsistent` gives a hypothesis a caller can keep. `TarballLeftovers` says exactly which objects are in the
bucket and which of them no release lists. `PublishFrame`, `EndStep`, `Storage`, `StoragePaths` and `PublishApi` are the
code of one publish from its bytes to its rollback; `PgPublishApi` is its two stores when the index is Postgres. `YankApi`
is the handler of yanks.

**Ownership and tokens.** `Ownership` says what each request does to the memory and to the owners file,
`FsAuthProvider` is the class that does it, `OwnershipRuns` states what holds over runs with failing loads and saves
and restarts, and `OwnershipDisk` how far the file lags behind the memory.

**The Postgres index.** `PgTags`, `PgTables`, `PgReading`, `PgYank` and `PgIndexProvider` are the tables, the statements
and the transaction; the tables are shown to stand for exactly the committed releases. `BackendAgreement` connects the
two indexes: however requests interleave on the file-system index, its files hold what Postgres would hold.

**Data transformations.** `JsonLines` is the index file format, `CratePaths` the path layout, `SemVer` and `Bytes` the
texts of versions and checksums, `FeatureRepair` the repair of feature lists, `Normalize` (on `Sorting`) the normal form
of index entries.

Classes and methods with loops follow the code that works in place; each is tied to a specification function, and the
lemmas are about those functions. Network, disk and database outcomes are parameters, chosen freely. JSON, SHA-256 and
token hashing are parameters too; what is assumed of them is in the contracts that use them: `JsonLines.Faithful`,
`TarballConsistency.HandlerOp`, `OwnershipRuns.FreshToken`.

Where the code and its own words differ, the model follows the code. `normalize` is documented to make functionally
equivalent entries identical; it does not sort the lists of `features`, nor order dependencies with one sort key, and
`Normalize.EquivalentMeetExactly` says exactly when two equivalent entries meet. `yank_inner` on Postgres answers
a version that does not exist with a conflict about an identical status; setting the status it already has succeeds.

## Model

| member | source | states |
|---|---|---|
| LockInvariant.StepKeepsLocks | crates/freighter-fs-index/src/file_locks.rs:30-102 | Every step of every request keeps the table's entries distinct, all holders of a key on the table's lock, writers exclusive, and every dead entry watched by a request that will clean it up |
| LockInvariant.ReachableLocks | crates/freighter-fs-index/src/file_locks.rs:30-102 | The same holds in every state any run reaches |
| LockInvariant.OneLockPerCrate | crates/freighter-fs-index/src/file_locks.rs:30-56 | In every run, requests holding an `Arc` have the same key if and only if they hold the same lock, if and only if that lock guards the same file, even after entries died, were replaced or removed |
| LockInvariant.WriterIsAlone | crates/freighter-fs-index/src/file_locks.rs:82-94 | Two guards on one crate's file at the same time are both read guards |
| LockInvariant.NoEntryLeaks | crates/freighter-fs-index/src/file_locks.rs:49-55 | When no `CrateMetaPath` exists the lock table is empty, for every order of drops and clean-ups |
| LockInvariant.EntryIsUsed | crates/freighter-fs-index/src/file_locks.rs:97-102 | Every entry of the table has a request that still holds its `Arc` or has yet to call `on_unlocked` |
| LockInvariant.LookupResult | crates/freighter-fs-index/src/file_locks.rs:30-47 | A look-up returns the lock of exactly those holders that have its key |
| AccessLocks.AccessLocks.RwLockForKey | crates/freighter-fs-index/src/file_locks.rs:30-47 | Reuses a live entry, replaces a dead one, inserts a missing one; exactly one strong count grows, and the guarded object is that of the lock's creator |
| AccessLocks.AccessLocks.DropArc | crates/freighter-fs-index/src/file_locks.rs:97-99 | One strong count goes down and the table stays, so an entry may die without being removed |
| AccessLocks.AccessLocks.OnUnlocked | crates/freighter-fs-index/src/file_locks.rs:49-55 | The key's entry goes if and only if its lock is dead; no other entry changes |
| Linearizability.StepKeepsRun | crates/freighter-fs-index/src/lib.rs:76-87 | Every step keeps the files equal to the replay of the log, every draft equal to what its request makes of the file as it is now, and every result placed at its moment in the log |
| Linearizability.ReachableRuns | crates/freighter-fs-index/src/lib.rs:238-260 | The same holds in every state any run reaches |
| Linearizability.DraftIsAlone | crates/freighter-fs-index/src/lib.rs:238-260 | Two requests with a draft at the same time have drafts of different files, so no update is lost |
| Linearizability.PutKeepsDrafts | crates/freighter-fs-index/src/file_locks.rs:150-172 | A put leaves every other request's draft current |
| IndexHistory.IndexIsAtomic | crates/freighter-fs-index/src/lib.rs:159-189 | In every run files, log and results are those of an atomic map: every logged update was accepted in its turn and told so, every answer is a committed state, every refusal was right at its moment |
| IndexHistory.PrefixIsEarlier | crates/freighter-fs-index/src/lib.rs:238-260 | Along a run the log is only extended, results stand, and files only grow |
| IndexHistory.RealTimeOrder | crates/freighter-fs-index/src/lib.rs:159-189 | A request answered before another came in takes effect before it, strictly if it was an update |
| IndexHistory.FilesOnlyGrow | crates/freighter-fs-index/src/lib.rs:333-343 | Every reachable index file is non-empty, has no version twice, ends with the publication of its last release, and later holds the same releases with only `yanked` changed and others appended |
| IndexHistory.RefusalsExactly | crates/freighter-fs-index/src/lib.rs:241-254 | In every run a request answered with a conflict is a publish whose version was there at its moment; one answered with not found is no publish, and its file or its version was not there |
| Outcomes.AllExplained | crates/freighter-server/src/api.rs:97-149 | In every run a service error comes from a failed input or output and from nothing else, a cancellation from a cancellation, the flag from a reported upload, and a publish that stored its tarball and failed is done only after its rollback ran or was cancelled |
| Progress.SomebodyMoves | crates/freighter-fs-index/src/file_locks.rs:82-102 | No deadlock: a request that is not done can move with nothing failing, or waits for a guard whose holder can |
| Progress.RunsEnd | crates/freighter-fs-index/src/file_locks.rs:82-102 | A run has at most ten steps for each request that came in, so it stops without new ones |
| Progress.AllFinish | crates/freighter-fs-index/src/file_locks.rs:97-102 | From every reachable state all requests can come to their end with nothing failing or cancelled, and then the lock table is empty |
| IndexOps.CommitKeepsHistory | crates/freighter-fs-index/src/lib.rs:243-259 | Every update accepted on a sound file, or on none, gives a sound file that extends it |
| IndexOps.RFindIsUnique | crates/freighter-fs-index/src/lib.rs:81-84 | In a sound file `rfind` finds each release by its version |
| IndexOps.YankExactly | crates/freighter-fs-index/src/lib.rs:76-87 | A yank is refused as not found if and only if the file or the version is not there; otherwise it sets that version's flag as told and changes nothing else in the file |
| IndexOps.PublishExactly | crates/freighter-fs-index/src/lib.rs:241-259 | A publish is refused as a conflict if and only if its version is there; otherwise its release comes last and it is the trailing publication |
| IndexOps.ReadExactly | crates/freighter-fs-index/src/lib.rs:159-166 | A read gives the whole file, or not found if and only if there is none |
| IndexOps.ReleaseFields | crates/freighter-fs-index/src/lib.rs:205-236 | Each field of a new release is the published one, not yanked, of version 2 |
| IndexOps.DependencyFields | crates/freighter-fs-index/src/lib.rs:211-228 | The index names a dependency as the manifest does, keeps a renamed one's package, and copies every other field |
| IndexOps.DependencyRoundTrip | crates/freighter-fs-index/src/lib.rs:208-229 | Alias and package change places in the index, and the published dependency can be read back from it |
| IndexOps.UnyankRestores | crates/freighter-fs-index/src/lib.rs:191-197 | Un-yanking what was just yanked gives the file back |
| TarballConsistency.TarballsKeptExactly | crates/freighter-server/src/api.rs:96-149 | Any one step keeps the tarballs of listed releases and of publishes about to list one if and only if it is not a rollback delete of one of those |
| TarballLosses.ConsistentExactly | crates/freighter-server/src/api.rs:96-149 | Every listed release has its tarball throughout a run if and only if no rollback deletes the tarball of a listed release and no publish lists a release whose tarball was deleted since it was ready to |
| TarballLosses.ReadyExactly | crates/freighter-server/src/api.rs:100-122 | A publish about to list its release has its tarball if and only if no rollback of the same upload deleted it since |
| TarballRuns.KeptExactly | crates/freighter-server/src/api.rs:96-149 | Listed releases and publishes about to list one all have their tarballs throughout a run if and only if no rollback deletes a tarball that one of them needs at that moment |
| TarballLeftovers.BucketExactly | crates/freighter-server/src/api.rs:96-149 | An object is in the bucket if and only if a publish uploaded it and nothing deleted it since; it is the last such publish's tarball, and no release lists it if and only if that publish is under way, was cancelled, was told its upload failed, or failed with its rollback still to come, cancelled or ineffective |
| TarballRuns.TarballsStayConsistent | crates/freighter-server/src/api.rs:132-147 | Whatever uploads, puts, deletes and cancellations fail, every listed release has its tarball, and no rollback harms one, if no publish of the same name, version and checksum runs beside a pending rollback |
| TarballRuns.QuietDeleteIsHarmless | crates/freighter-server/src/api.rs:141-146 | Under that hypothesis a rollback never removes a tarball an entry needs |
| TarballRuns.DownloadServesListed | crates/freighter-storage/src/s3_client.rs:233-256 | Then for each listed release the version leads to that entry, and the object at its new-style path has the entry's checksum |
| TarballRuns.StoredAssertionHolds | crates/freighter-server/src/api.rs:126-129 | A publish that succeeded had stored its tarball, in every run |
| TarballRuns.RollbackRace | crates/freighter-server/src/api.rs:141-146 | Without the hypothesis, for every crate there is a run after which the index lists a release whose tarball a rollback deleted |
| EndStep.EndStep.Run | crates/freighter-server/src/api.rs:101-121 | The end step uploads the tarball to its new-style path and sets the flag exactly when the upload was reported |
| EndStep.RolledBackObjects | crates/freighter-server/src/api.rs:141-146 | What is left of each of the two objects of a failed publish, by what was written, reported and deleted |
| PublishApi.PublishApi.Store | crates/freighter-server/src/api.rs:96-149 | The end step runs exactly when the index accepts; both stores end up as specified: listed and stored, or unlisted and rolled back; the assertion on the flag holds |
| PublishApi.PublishApi.Admit | crates/freighter-server/src/api.rs:79-94 | A publisher is let through exactly if the token's login owns the crate afterwards, and is told why not |
| PublishApi.PublishApi.Serve | crates/freighter-server/src/api.rs:79-149 | Without the right to publish neither index nor bucket changes; otherwise both are as the publication leaves them |
| PublishApi.PublishApi.Publish | crates/freighter-server/src/api.rs:40-150 | No header and no framed `Publish` are refused, exactly, with no effect; any other body is handled as the publication it carries, on the digest of its tarball |
| PublishApi.Decode | crates/freighter-server/src/api.rs:50-77 | A body is refused exactly when it is not a frame around a `Publish` |
| PublishApi.SuccessExactly | crates/freighter-server/src/api.rs:79-130 | A publication succeeds if and only if the token's login owns the crate, the name is allowed, the version is new and nothing fails; then the release is at the end of its crate's file and the tarball at its path |
| PublishApi.FailureSaysWhy | crates/freighter-server/src/api.rs:79-148 | A failure is answered with what failed first: the token, the owners file, the right, the name, the index file, a conflict exactly for a version that is there, and else the upload or the put |
| PublishApi.MayPublishExactly | crates/freighter-auth/src/fs_backend.rs:264-272 | The right to publish is a known token whose login is among the owners of the crate |
| YankApi.Admit | crates/freighter-server/src/api.rs:157-162 | The right to yank: a header with a known token whose login owns the crate, and else the error of the first check that fails |
| YankApi.Yank | crates/freighter-server/src/api.rs:152-184 | Only an owner changes anything, and then exactly the flag of the release with that version; each failure has its answer and changes nothing |
| YankApi.YankPg | crates/freighter-server/src/api.rs:152-184 | The same on Postgres: only an owner changes anything, and then exactly the flag of a committed release |
| PublishApi.FailureUndone | crates/freighter-server/src/api.rs:131-148 | A failure leaves the index as it was and touches at most the release's own objects; those are as before too if neither was there and the upload did not arrive or its rollback did |
| PublishFrame.BuildFrame | crates/freighter-client/src/lib.rs:147-165 | The client's buffer is the frame of the two parts, each behind its length in four bytes, the lowest first |
| PublishFrame.ParseFrame | crates/freighter-server/src/api.rs:50-74 | The parser accepts exactly le32 length, JSON, le32 length, tarball, rest, with a byte after the second length, reads the two parts of each, and never cuts out of range |
| PublishFrame.FrameIsCut | crates/freighter-server/src/api.rs:54-74 | The parts of a framed body lie where the parser cuts, so a body is framed in one way |
| PublishFrame.FrameBytes | crates/freighter-client/src/lib.rs:150-165 | Each length is four bytes, the lowest first, right before its part |
| PublishFrame.Exchange | crates/freighter-client/src/lib.rs:147-165 | The server reads back what the client sent, exactly for non-empty tarballs |
| PublishFrame.EmptyTarballNotFramed | crates/freighter-server/src/api.rs:63-65 | The client's frame of an empty tarball is none the server accepts |
| Storage.S3StorageProvider.PutCrate | crates/freighter-storage/src/s3_client.rs:258-280 | The object goes to the new-style path and nowhere else |
| Storage.S3StorageProvider.PullCrate | crates/freighter-storage/src/s3_client.rs:233-256 | The new-style object if it can be had, else the old-style one, else not found if the service answered for the first and a service error if not |
| Storage.S3StorageProvider.DeleteCrate | crates/freighter-storage/src/s3_client.rs:282-292 | Removes at most the two objects of that release, and no other new-style object; one success is enough |
| StoragePaths.NewPathInjective | crates/freighter-storage/src/s3_client.rs:300-307 | Equal new-style paths mean equal name, version and checksum, hyphens and all |
| StoragePaths.OldPathInjective | crates/freighter-storage/src/s3_client.rs:300-307 | Equal old-style paths mean equal name and version |
| StoragePaths.OldPathIsNeverNew | crates/freighter-storage/src/s3_client.rs:300-307 | No old-style path is a new-style path |
| StoragePaths.StemInjective | crates/freighter-storage/src/s3_client.rs:302-305 | `{name}-{version}` determines both, although both may contain hyphens |
| StoragePaths.PathTexts | crates/freighter-storage/src/s3_client.rs:300-307 | The two paths, spelled out |
| SemVer.PrintRoundTrip | crates/freighter-pg-index/src/lib.rs:176-177 | Parsing a printed version gives the version back |
| SemVer.PrintInjective | crates/freighter-server/src/api.rs:96 | No two versions print alike |
| SemVer.PrintText | crates/freighter-pg-index/src/lib.rs:471 | The text of a version with and without its pre-release and build fields |
| SemVer.DecimalDigits | crates/freighter-pg-index/src/lib.rs:471 | Numbers are decimal, without leading zeros |
| Bytes.HexRoundTrip | crates/freighter-pg-index/src/lib.rs:171-174 | Decoding an encoded checksum gives it back |
| Bytes.HexEncodeDigits | crates/freighter-pg-index/src/lib.rs:464 | Each byte is two lower-case digits, the high one first |
| Bytes.Le32RoundTrip | crates/freighter-client/src/lib.rs:156 | Reading a written 32-bit length gives it back |
| Bytes.Le32LittleEndian | crates/freighter-client/src/lib.rs:156 | The lowest byte of a length comes first |
| CratePaths.CrateMetaFileRelPath | crates/freighter-fs-index/src/lib.rs:98-130 | The path is `index/`, the client's prefix, `/` and the name, for exactly the names allowed, and no longer than the name and twelve |
| CratePaths.MetaPathText | crates/freighter-fs-index/src/lib.rs:110-129 | The file of a name of one, two, three or more characters, spelled out |
| CratePaths.MetaPathNames | crates/freighter-fs-index/src/lib.rs:89-105 | The names with a file are those of 1 to 64 lower-case letters, digits, hyphens and underscores |
| CratePaths.ClientUrlText | crates/freighter-client/src/lib.rs:316-328 | The client's URL of such a name, spelled out |
| CratePaths.ToLowerLetters | crates/freighter-fs-index/src/lib.rs:64 | Each capital goes to the small letter at its place in the alphabet, anything else stays |
| CratePaths.CasesExactly | crates/freighter-fs-index/src/lib.rs:64 | The two cases of a letter stand at one place of the two alphabets |
| CratePaths.ToLowerExactly | crates/freighter-fs-index/src/lib.rs:64 | Two names have one key if and only if they differ in the case of letters at most |
| CratePaths.AcceptedNamesExactly | crates/freighter-fs-index/src/lib.rs:63-67 | The index accepts names of 1 to 64 letters, digits, hyphens and underscores, in either case |
| CratePaths.NameAfterLastSlash | crates/freighter-server/src/index.rs:54-57 | The part of the path or URL after the last `/` is the name |
| CratePaths.MetaPathInjective | crates/freighter-fs-index/src/lib.rs:63-74 | Lock keys and files correspond one to one |
| CratePaths.IndexNameIsLower | crates/freighter-fs-index/src/lib.rs:89-105 | The names the index accepts are their own lower case, so each is its own lock key |
| IndexApi.Admit | crates/freighter-server/src/index.rs:59-62 | A caller is let through exactly with a header holding a known token |
| IndexApi.GetSparseMeta | crates/freighter-server/src/index.rs:49-74 | A path without `/` is refused, then a caller without a token where one is asked for; for anybody else the URL the client builds for a crate leads to that crate's file, every entry repaired, to not found, or to a service error if the file cannot be read |
| JsonLines.SerializeData | crates/freighter-fs-index/src/file_locks.rs:205-220 | The bytes are the printed records, a newline after each, the publication last |
| JsonLines.DeserializeData | crates/freighter-fs-index/src/file_locks.rs:175-203 | The records of the non-empty lines, in order, or an error at the first that is neither |
| JsonLines.RoundTrip | crates/freighter-fs-index/src/file_locks.rs:175-220 | Reading a written index file gives its versions and its publication back, for every list and optional publication |
| JsonLines.SerializedText | crates/freighter-fs-index/src/file_locks.rs:205-220 | From the front: each record is followed by byte 10, the publication comes last |
| JsonLines.OneMoreLine | crates/freighter-fs-index/src/file_locks.rs:181-200 | One more line is a version if it parses as one, else the publication, replacing an earlier one, else an error; an empty line is nothing |
| JsonLines.RecordsReadable | crates/freighter-fs-index/src/file_locks.rs:191-199 | Reading succeeds if and only if every non-empty line is a version or a publication |
| FsIndexProvider.FsIndexProvider.AccessCrate | crates/freighter-fs-index/src/lib.rs:63-74 | Accepts exactly the names of 1 to 64 characters a crate name may have, and holds one lock guarding the crate's own file |
| FsIndexProvider.FsIndexProvider.YankInner | crates/freighter-fs-index/src/lib.rs:76-87 | Sets the flag of the one release with that version, or changes nothing; the answer is not found exactly if file or version is not there; the lock table is left empty |
| FsIndexProvider.FsIndexProvider.PublishRelease | crates/freighter-fs-index/src/lib.rs:199-261 | Appends the release and records its publication, or changes nothing; the answer is a conflict exactly if the version is there and the file could be read; the end step runs exactly when there is no conflict |
| FsIndexProvider.FsIndexProvider.ConfirmExistence | crates/freighter-fs-index/src/lib.rs:168-189 | The flag and checksum of the last entry with that version; not found only if there is none |
| FsIndexProvider.FsIndexProvider.GetSparseEntry | crates/freighter-fs-index/src/lib.rs:159-166 | All entries of the crate's file, or the atomic index's refusal |
| FsIndexProvider.RFindIsLast | crates/freighter-fs-index/src/lib.rs:183 | `rfind` finds the last entry with the version |
| FsIndexProvider.FindLast | crates/freighter-fs-index/src/lib.rs:81-84 | The search from the back finds what `rfind` finds |
| OwnershipRuns.RunSound | crates/freighter-auth/src/fs_backend.rs:246-262 | In every run with reloads and failing saves each login has at most one token, every crate an owner, and the reverse index is empty or the exact inverse |
| OwnershipRuns.RegistrationRefusedExactly | crates/freighter-auth/src/fs_backend.rs:247-258 | In any run from a sound provider a registration is refused if and only if the login has a token already, and then changes neither tokens nor owners nor disk; otherwise it adds the token and nothing else |
| OwnershipRuns.RemovalExactly | crates/freighter-auth/src/fs_backend.rs:182-197 | In any run from a sound provider getting through leaves exactly the owners not listed, a refusal half-way leaves one owner, nobody unlisted goes, the names before the last decide which, and a failing save changes the answer only |
| OwnershipDisk.ForgottenExactly | crates/freighter-auth/src/fs_backend.rs:199-211 | In every run, whatever loads and saves fail, a restart would forget the owners of a crate if and only if it was first published with no save and no restart since |
| OwnershipDisk.RunLags | crates/freighter-auth/src/fs_backend.rs:77-126 | If saves succeed, tokens and saved owners are the same in memory and on disk, and every other crate was first published since the last save or restart and is owned by its publisher alone |
| OwnershipDisk.UnsavedExactly | crates/freighter-auth/src/fs_backend.rs:151-211 | One request: a first publish adds its crate to the unsaved ones, a save or a restart empties them, anything else leaves them |
| OwnershipDisk.DiskChangesExactly | crates/freighter-auth/src/fs_backend.rs:115-126 | The file changes exactly with a save, which makes it a copy of the memory |
| OwnershipDisk.OkIsOnDisk | crates/freighter-auth/src/fs_backend.rs:115-126 | A registration or change of owners that says Ok has been saved, whatever failed before |
| OwnershipRuns.OwnershipHasChain | crates/freighter-auth/src/fs_backend.rs:172-211 | Between restarts a login owns a crate only through a chain of grants by then-owners from the first publisher or an owner in the file |
| OwnershipRuns.OwnersChangeExactly | crates/freighter-auth/src/fs_backend.rs:172-211 | One request changes who owns a crate exactly by a first publish, an owner's grant or an owner's removal; every other owner stays |
| Ownership.RemovedBounds | crates/freighter-auth/src/fs_backend.rs:187-194 | The removal loop never empties the set, removes only listed owners, and removes all of them if it gets through |
| Ownership.RemovedExactly | crates/freighter-auth/src/fs_backend.rs:187-194 | The loop gets through if and only if more than one owner is left before the last name |
| Ownership.RemovedStops | crates/freighter-auth/src/fs_backend.rs:187-194 | Names are taken in their order, each while more than one owner is left, and the loop stops at the first that would leave nobody |
| Ownership.InverseUnique | crates/freighter-auth/src/fs_backend.rs:248-250 | A token table has one inverse, so rebuilding the index in any order gives the same |
| FsAuthProvider.Owners.RebuildIndex | crates/freighter-auth/src/fs_backend.rs:248-250 | The rebuilt index is the inverse of the token table |
| FsAuthProvider.Owners.Register | crates/freighter-auth/src/fs_backend.rs:247-258 | Both tables get the new pair, or the login has a token and only the index is rebuilt |
| FsAuthProvider.Owners.RemoveEach | crates/freighter-auth/src/fs_backend.rs:187-194 | Only that crate's owners change, as the removal function says |
| FsAuthProvider.Owners.EnsureAuthorizedForCrate | crates/freighter-auth/src/fs_backend.rs:264-272 | Unknown crate, unknown token, not an owner, in that order |
| FsAuthProvider.FsAuthProvider.OwnersMut | crates/freighter-auth/src/fs_backend.rs:77-111 | The owners in memory, loaded from the file once, an absent file being empty |
| FsAuthProvider.FsAuthProvider.Register | crates/freighter-auth/src/fs_backend.rs:151-160 | Adds the new token, or refuses a login that has one; what is saved, and the answer to a failing load or save |
| FsAuthProvider.FsAuthProvider.AddOwners | crates/freighter-auth/src/fs_backend.rs:172-180 | Adds exactly the listed logins for an owner, and changes nothing for anybody else; what is saved, and the error of the first check that fails |
| FsAuthProvider.FsAuthProvider.RemoveOwners | crates/freighter-auth/src/fs_backend.rs:182-197 | Takes the listed logins in their order until one owner is left, for an owner, and changes nothing for anybody else; what is saved, even half-way, and the error of the first check that fails |
| FsAuthProvider.FsAuthProvider.Publish | crates/freighter-auth/src/fs_backend.rs:199-211 | Makes the first publisher the one owner of a new crate, lets an owner through and nobody else; the disk is left alone |
| FsAuthProvider.FsAuthProvider.EnsureValidToken | crates/freighter-auth/src/fs_backend.rs:128-132 | Ok exactly for a known token; the owners are loaded if need be and nothing else changes |
| FsAuthProvider.FsAuthProvider.AuthYank | crates/freighter-auth/src/fs_backend.rs:213-216 | Ok exactly for a known token whose login owns the crate; else the error of the first check that fails; nothing but the loading of the owners changes |
| FsAuthProvider.FsAuthProvider.ListOwners | crates/freighter-auth/src/fs_backend.rs:162-170 | The owners of a known crate, for anybody; else crate not found, or a service error if the file cannot be loaded |
| PgTags.Reconcile | crates/freighter-pg-index/src/lib.rs:373-455 | From any bag of link rows, the crate ends up linked to exactly the wanted names, names stay unique, other crates keep the very same rows |
| PgTags.AddMissing | crates/freighter-pg-index/src/lib.rs:399-427 | Adding links exactly the wanted names that were not linked, and none is unlinked |
| PgTags.PruneUnneeded | crates/freighter-pg-index/src/lib.rs:439-455 | Pruning unlinks exactly the existing names not wanted |
| PgTags.RemoveOne | crates/freighter-pg-index/sql/publish/remove-crate-keyword.sql:1-6 | Deleting by name removes every link row of the crate to that name, duplicates included, and no other |
| PgTags.SelectNames | crates/freighter-pg-index/sql/publish/get-crate-keywords.sql:1-5 | The names selected are exactly those the crate is linked to |
| PgTables.StoredReleaseExactly | crates/freighter-pg-index/src/lib.rs:488-509 | Postgres and the file-system index serve the same entry for a publication if and only if no dependency is renamed to another name and none has the empty registry |
| PgTables.StoredReleaseFields | crates/freighter-pg-index/src/lib.rs:466-527 | Each field of the entry Postgres serves is the published one, not yanked, of version 2 |
| PgTables.StoredDependencyFields | crates/freighter-pg-index/src/lib.rs:488-509 | Postgres serves the original name of a dependency and its alias as package, reads the empty registry as none, and copies every other field |
| PgTables.UntouchedRepresents | crates/freighter-pg-index/src/lib.rs:337-363 | Changes to crates, keywords and categories leave every stored release as it is |
| PgIndexProvider.GetOrInsertCrate | crates/freighter-pg-index/sql/publish/insert-dependency.sql:1-15 | The row with that name and registry, one at most, kept if it exists |
| PgIndexProvider.UpdateCrate | crates/freighter-pg-index/src/lib.rs:344-363 | The crate's row has the published description, documentation, homepage and repository, each in its own column, whether or not the update was sent; its name, registry and id stay |
| PgIndexProvider.PrepareCrate | crates/freighter-pg-index/src/lib.rs:337-455 | The crate has a row of the index itself, each text in its own column, and exactly the keywords and categories published; other crates keep theirs, and no release changes |
| PgIndexProvider.PublishedColumns | crates/freighter-pg-index/src/lib.rs:337-363 | After a publication each text of the crate stands in its own column, its keywords and categories are those published, and other crates' rows are the same |
| PgIndexProvider.InsertVersion | crates/freighter-pg-index/src/lib.rs:463-478 | Fails exactly on a version row that is there or a failing statement, and otherwise adds the row, column by column |
| PgIndexProvider.InsertDependency | crates/freighter-pg-index/sql/publish/insert-dependency.sql:1-15 | Adds one row, column by column, that reads back as the dependency published, and perhaps a crate |
| PgIndexProvider.InsertDependencies | crates/freighter-pg-index/src/lib.rs:488-509 | The new version has exactly one row a dependency, each reading back as published |
| PgIndexProvider.InsertFeatures | crates/freighter-pg-index/src/lib.rs:519-527 | The new version has exactly one row a feature, unique by name |
| PgIndexProvider.ConflictExactly | crates/freighter-pg-index/src/lib.rs:463-478 | The unique constraint is violated exactly by a release committed before |
| PgIndexProvider.CommitRepresents | crates/freighter-pg-index/src/lib.rs:463-552 | Adding one version row with its rows to tables that stand for the committed releases stands for those and the new one |
| PgIndexProvider.CrateKeepsItsId | crates/freighter-pg-index/src/lib.rs:337-342 | A crate first seen as a dependency keeps its id when it is published, and dependencies on it stay on it |
| PgIndexProvider.PgIndexProvider.PublishRelease | crates/freighter-pg-index/src/lib.rs:277-561 | All or nothing, whichever statement fails: the constraints and the representation hold after every transaction; success commits exactly this release, its crate's texts, keywords and categories; failure leaves the tables as they were; each failure gets the answer of its place, and the end step runs exactly after the last statement got through |
| PgPublishApi.PgPublishApi.Store | crates/freighter-server/src/api.rs:96-149 | With Postgres as the index: both stores end up as specified, and a commit that fails after the end step rolls the tarball back |
| PgPublishApi.PgSuccessExactly | crates/freighter-server/src/api.rs:125-130 | It succeeds if and only if the version is new and no statement, upload or commit fails; then the release is committed and its tarball stored |
| PgPublishApi.PgAnswerExactly | crates/freighter-pg-index/src/lib.rs:337-552 | The answer by the first statement that fails: a conflict exactly for a version that is there or an insert that fails, a service error otherwise |
| PgPublishApi.PgFailureUndone | crates/freighter-server/src/api.rs:131-148 | A failure, a failed commit included, commits nothing and touches at most the release's own objects, which are as before if neither was there and the upload did not arrive or its rollback did |
| PgIndexProvider.PgIndexProvider.SetYank | crates/freighter-pg-index/src/lib.rs:38-60 | Sets the flag of that release and nothing else, exactly if it is committed, and otherwise reports a conflict |
| PgIndexProvider.PgIndexProvider.GetSparseEntry | crates/freighter-pg-index/src/lib.rs:77-198 | One entry for each committed version, with its own checksum, links, features and, as a multiset, dependencies; not found exactly for a crate with no row |
| PgIndexProvider.PgIndexProvider.ConfirmExistence | crates/freighter-pg-index/src/lib.rs:200-226 | The committed flag and checksum, or not found |
| PgReading.SameRowsSameValues | crates/freighter-pg-index/src/lib.rs:154-169 | Reading the same rows in any order gives the same values equally often |
| PgReading.ReadingServes | crates/freighter-pg-index/src/lib.rs:144-186 | The entries read from all version rows of a crate are the committed releases of its name, each once |
| PgReading.ReadRelease | crates/freighter-pg-index/src/lib.rs:144-185 | A version row with its rows reads back as the release committed, and parsing it cannot fail |
| PgReading.ReadFeatures | crates/freighter-pg-index/src/lib.rs:150-152 | The feature rows read back as the published map |
| PgReading.ReadDependencies | crates/freighter-pg-index/sql/sparse-index/get-dependencies.sql:1-4 | The dependency rows read back as the published multiset |
| PgYank.RowsForExactly | crates/freighter-pg-index/sql/set-yank.sql:1-8 | A version has one row if it was committed and none if not, so at most one row is ever changed |
| PgYank.YankRepresents | crates/freighter-pg-index/sql/set-yank.sql:1-8 | Changing the flag of a version row stands for the same releases with that flag |
| BackendAgreement.IndexesAgree | crates/freighter-fs-index/src/lib.rs:199-261 | In every run with lower-case names and dependencies kept faithfully, the index files hold exactly the releases Postgres would hold after the same updates one by one, and Postgres would have accepted each |
| BackendAgreement.SameAfter | crates/freighter-pg-index/src/lib.rs:277-561 | Any log of accepted updates leaves both indexes with the same releases |
| BackendAgreement.SameVersions | crates/freighter-pg-index/src/lib.rs:463-478 | A version is in the crate's file if and only if Postgres has it |
| FeatureRepair.EnsureCorrectMetadata | crates/freighter-server/src/index.rs:76-101 | Every entry of the list is repaired where it stands |
| FeatureRepair.KeptInOrder | crates/freighter-server/src/index.rs:83-94 | The kept actions are exactly the survivors, in their order: those that are features, or whose base is a dependency |
| FeatureRepair.SurvivesExactly | crates/freighter-server/src/index.rs:83-94 | An action survives if and only if it is itself a feature, or is a dependency's name, after `dep:` or alone, up to the end, a `?` or a `/` |
| FeatureRepair.DependencyActionsStay | crates/freighter-server/src/index.rs:83-94 | An action that speaks of a dependency stays in its list, and nothing is added for it |
| FeatureRepair.WaysToSpeak | crates/freighter-server/src/index.rs:85 | `dep:n`, `n/f` and `n?/f` all speak of `n` |
| FeatureRepair.StrayActionsGo | crates/freighter-server/src/index.rs:86-98 | An action that is no feature and speaks of no dependency goes, and the name it speaks of is a feature afterwards |
| FeatureRepair.MissingExactly | crates/freighter-server/src/index.rs:87-89 | The names collected are exactly the bases, not features already, of dropped actions |
| FeatureRepair.KeysAfterRepair | crates/freighter-server/src/index.rs:96-99 | No feature is lost, each keeps its surviving actions, and the new ones are empty |
| FeatureRepair.RepairIdempotent | crates/freighter-server/src/index.rs:76-101 | A second repair changes nothing |
| FeatureRepair.CutAction | crates/freighter-server/src/index.rs:85 | The base of `n` and of `dep:n`, followed by nothing or by `?` or `/` and anything, is `n` |
| Normalize.EntryFields.Normalize | crates/freighter-api-types/src/index/response.rs:234-237 | The fields get the specified normal form in place |
| Normalize.NormalizeIdempotent | crates/freighter-api-types/src/index/response.rs:234-237 | Normalizing twice is normalizing once, and `features2` is empty |
| Normalize.DependenciesPermuted | crates/freighter-api-types/src/index/response.rs:239-254 | No dependency is lost or made up; each keeps its features as a multiset and the rest as it is |
| Normalize.PermutedDependenciesMeet | crates/freighter-api-types/src/index/response.rs:244-253 | Permutations of dependencies with pairwise distinct keys get one form |
| Normalize.EquivalentMeetExactly | crates/freighter-api-types/src/index/response.rs:233-237 | Equivalent entries become identical if and only if they agree on the lists that are not sorted and on the order of dependencies with one sort key |
| Normalize.PlainFeaturesStayUnsorted | crates/freighter-api-types/src/index/response.rs:256-266 | Equivalent entries that do not become identical: a list in `features` keeps its order |
| Normalize.KeysOrdered | crates/freighter-api-types/src/index/response.rs:244-253 | The tuple of sort keys is a total order that tells different keys apart |
| Normalize.DependenciesAscend | crates/freighter-api-types/src/index/response.rs:244-253 | The normal list ascends by registry, name, package, requirement, kind and target, texts by their first difference, no value before any |
| Normalize.FeaturesMerged | crates/freighter-api-types/src/index/response.rs:256-266 | A list of `features2` wins and is sorted; any other list of `features` stays as it is |
| Normalize.DependencyFeaturesAscend | crates/freighter-api-types/src/index/response.rs:240-242 | The features of each dependency are sorted, and nothing else of it changes |
| Sorting.SortsAlikeExactly | crates/freighter-api-types/src/index/response.rs:244-253 | Two lists sort alike if and only if they hold the same elements of each key in the same order |
| Sorting.SortIsStable | crates/freighter-api-types/src/index/response.rs:244-253 | Sorting keeps the order of elements with one key |

## Left out

- HTTP routing, headers, metrics, tracing, health checks, configuration and the command line: no state of interest.
- S3, Postgres, serde and tokio internals: an abstract bucket, abstract tables with atomic transactions, abstract record codecs, an abstract lock and strong count stand for them.
- HMAC, SHA-256, random tokens and base64: parameters, with freshness of tokens assumed where a run needs it; a token's text is not modelled.
- The other authentication backends (`cf_access.rs`, `cf_backend.rs`, `yes_backend.rs`, `no_backend.rs`).
- `list` and `search` of both indexes; what listing needs of the index files is in `IndexHistory.FilesOnlyGrow`.
- Index puts that took effect but reported an error: a failed put writes nothing, as the rename in `fs.rs` does; an upload may fail and yet have written.
- Postgres under concurrent transactions: each publish or yank is one atomic step on the tables, and one counter gives all tables their identities.
- Crate names that differ in case: index keys are lower-cased, tarball paths are not; the consistency theorems are about the name a release was published under.
- Ownership of a crate right after its first publish is lost by a restart, because `publish` does not save; `OwnershipDisk.ForgottenExactly` says exactly which crates.
- Timestamps (`created_at`, `updated_at`, `last_modified`), and the fields of a publication no index stores for the core (authors, readme, license, badges).
- Version requirements are their canonical text; version numbers are unbounded, where the library has 64 bits; well-formed versions are a superset of the grammar of Semantic Versioning 2.0.0.
- Keyword and category tables have one shape and one model.
- FsIndexProvider.PublishRelease: runs one request at a time; the interleaving of requests is in `RegistryProtocol`, on records instead of bytes.
- FsIndexProvider.YankInner: runs one request at a time, like the publish.
- PublishApi.Publish: runs one request at a time, on the file-system index and the file-backed owners.
- PgPublishApi.Store: runs one request at a time; the frame and the right to publish before it are those of `PublishApi`.
- Fairness: `Progress` says that requests can end and that runs stop, not that a scheduler serves every waiter.
- BackendAgreement.IndexesAgree: is about updates; the two indexes answer a yank of an unknown version with different errors, and only Postgres knows crates that were never published.
