# Headlamp core protocols in Dafny

This project models the protocols and data transformations at the heart of Headlamp's desktop app
and Go backend, and proves what they promise over every input, every interleaving or every run.
`dafny verify dfyconfig.toml` checks all of it.

| modules | what they model |
|---|---|
| `NamedLists`, `KubeconfigMerge`, `KubeconfigSearchPath`, `KubeconfigLaws`, `KubeconfigTransaction` | merging a generated kubeconfig into the first file of a search path, and what that does to the effective view |
| `KubeconfigQueue` | the promise chain that serialises registrations per destination |
| `TokenCache` | the service-account token cache, at the granularity of its locks and file reads |
| `ConnectionLifecycle` | status updates, once-only close and the client sweep of the WebSocket multiplexer |
| `BackendStartup`, `ReadinessDetector` | readiness generations, port retries and child exits; the streaming marker detector |
| `PluginUpdate`, `AnnotationTree` | receipts, digests and the update transaction with rollback; path-keyed annotations |
| `FlatRecords`, `SecureStorage` | the flat `namespace:key` record as a two-level map within limits |
| `ClusterRename`, `LogoutState` | custom cluster names and their lookup; the signed logout state |
| `Identities`, `ManifestPolicies`, `CommandCapabilities` | NUL-joined identities, admission of manifest policies, issuing of command capabilities |
| `WorkerPool`, `CsvLine` | the bounded-concurrency map; the CSV line parser |

## How it is modelled

- Concurrent code is a step system: a `Step` datatype, `Enabled` and `Apply`, and `Execute` (or a
  recorded run) over arbitrary sequences of steps. Theorems quantify over all of those sequences.
- Code that changes objects or arrays in loops is a method or a class with a specification
  function; the laws are proved about the specification function.
- File systems are maps from paths to contents, reads and renames are atomic, and each call that
  can throw is a fault that may or may not happen.
- YAML and JSON codecs, base64url, SHA-256, HMAC and Electron's `safeStorage` are parameters or
  values with only the laws they need: decoding undoes encoding, a digest is 64 lowercase
  hexadecimal characters (and, where contents are told apart by it, has no collisions), a stored
  ciphertext is not empty and decrypts to what was encrypted.
  Random values (temporary names, UUIDs, capability tokens) are parameters.
- Paths are canonical: symbolic links have been resolved before an operation starts.
- JavaScript and Go integers stay far from their bounds except where `LogoutState` writes out
  64-bit parsing. Go's map iteration order is an arbitrary order given as a parameter.

## Where the code falls short of the plain statement

Each of these has a lemma at an input or run that fails, and a lemma that says exactly when the code
does meet the statement.

- Merging the same config twice succeeds and changes nothing if and only if every generated cluster
  names a non-blank server (`MergeIdempotent`, `ServerlessClusterConflicts`); a validated config
  always does (`SoundIsMergeable`).
- The current context commutes with the search path if and only if the generated one is falsy or
  non-blank (`MergeCommutesWithSearchPath`, `BlankCurrentDoesNotCommute`): `mergeKubeconfig` tests
  truthiness, `effectiveKubeconfig` tests for a non-blank string.
- A kubeconfig write that throws may have changed something. After a throwing close the finally
  block closes the same descriptor again, which throws and skips the removal, so the temporary file
  stays; and a removal that throws after the replacement reports failure for a file that is new.
  `FailureChangesNothingExactlyWhen` lists the cases, `FailedWritesThatChangeFiles` has one of each,
  and `FailedCallsChangeNothingExactlyWhen` and `ThrowingCallThatCommitted` say what this means for
  concurrent registrations. The destination itself is never half-written (`WriteAtomically`).
- A plugin update whose receipt was renamed into place but whose temporary file could not be removed
  rolls the bundle back and keeps the new receipt. The old answer then survives if and only if the
  new identity and digests are the old ones (`CleanupFaultKeepsAnswerIffNothingChanged`,
  `CleanupFaultLosesVerification`).
- Starts of the backend can overlap, because `Promise.all([startServerIfNeeded(), createWindow()])`
  (app/electron/main.ts:2041) rejects as soon as the window fails and clears the guard while the
  start is still going on. They share `actualPort`, with two consequences. The port sent may be
  another start's (`OverlappingStartsSendTheWrongPort`), or the child gone
  (`OverlappingStartsAnnounceAnExitedChild`); the port is right if and only if no other start
  chose a port after the announced child's own start did, or the last one to do so chose the same
  (`SentPortIsRightExactlyWhen`). And a retry goes on from `actualPort + 1`, so a start may try a
  port again and spawn any number of children (`OverlappingRetriesAreUnbounded`); its ports rise if
  and only if at each retry `actualPort` is not below its child's port (`PortsRiseExactlyWhen`).
  That messages are sent only for a current generation resolved by a ready child holds in all runs.
- The token cache is not linearizable for every rotation: a reused mtime may leave a stale token in it
  (`ReusedMtimeServesStaleToken`). It is, in all interleavings, if and only if the file holds at the
  second of two moments with one mtime whatever token it held in between
  (`LinearizableExactlyOverConsistentHistories`); fresh mtimes are enough (`FreshRotationsAreLinearizable`).
- The worker pool fills every slot if and only if there are no items or the concurrency is at least
  one (`ResolvesWithEveryValue`, `ZeroConcurrencyDeliversNothing`); its caller always normalises it
  (`PrecompressPoolDelivers`).
- The annotation tree gives back its keys if and only if no key's path is a proper prefix of
  another's and no name inherited from `Object.prototype` stands where an object is needed
  (`FaithfulExactlyWhenSafe`, `PrefixKeysCollideInJavaScript`, `InheritedNamesCollide`).
- A cluster renamed to the DNS-friendly form of its own key gets no custom name; the form resolves
  back to it if and only if no key before it in string order has the same form
  (`NewNameResolvesToTarget`, `RenamedToSharedFormIsLost`).
- Two registrations can share an identity if and only if a name of theirs contains a NUL
  (`IdentityIsSharedExactlyWhen`, `IdentityConfusesNulFields`); a policy's identity is never confused
  with any registration's (`IdentityIsExact`).

## Model

| member | source | states |
|---|---|---|
| `KubeconfigMerge.GetNamedEntries` | app/electron/cluster-registration.ts:442-468 | an absent list reads as empty; any other value is returned exactly when it is an array of objects with non-blank names, none repeated |
| `NamedLists.FindIndexIsFirst` | app/electron/cluster-registration.ts:486-486 | findIndex gives the first entry of a name |
| `KubeconfigMerge.MergeClusters` | app/electron/cluster-registration.ts:484-507 | the in-place loop succeeds exactly when every generated cluster agrees with the original entry of its name (same non-blank server, equal body if a context that is kept uses it) and then replaces or appends by name |
| `KubeconfigMerge.MergeContexts` | app/electron/cluster-registration.ts:509-520 | the same for contexts, which must have equal bodies |
| `KubeconfigMerge.MergeUsers` | app/electron/cluster-registration.ts:522-541 | the same for users, which must have equal bodies only where a context that is kept uses them |
| `KubeconfigMerge.PreservedAfterMergeIsPreserved` | app/electron/cluster-registration.ts:526-533 | scanning the contexts already merged finds a kept user exactly when some old context that is not redefined uses it |
| `KubeconfigMerge.MergeKubeconfig` | app/electron/cluster-registration.ts:473-549 | the whole merge: which error is raised first, and otherwise the merged lists and the current context |
| `KubeconfigLaws.AcceptedExactlyWhen` | app/electron/cluster-registration.ts:446-467 | an entry list can be read exactly when it is absent or an array of objects with different non-blank names |
| `KubeconfigLaws.MergeSucceedsExactlyWhen` | app/electron/cluster-registration.ts:473-541 | both directions, name by name and field by field, without list order: which merges are accepted; in particular a cluster on the same server that only redefined contexts use may get a different body |
| `KubeconfigLaws.MergeKeepsOtherFields` | app/electron/cluster-registration.ts:473-549 | every other top-level field of the existing config is kept and none is taken from the generated one; the current context changes exactly when the generated one is not falsy |
| `NamedLists.PutAllView` | app/electron/cluster-registration.ts:484-541 | merging a list is the right-biased union of the name-to-entry maps, and names stay unique |
| `NamedLists.AdoptAllView` | app/electron/cluster-registration.ts:564-571 | the search-path union is left-biased, and names stay unique |
| `KubeconfigSearchPath.EffectiveKubeconfig` | app/electron/cluster-registration.ts:560-580 | the effective view, or the error of the first file that cannot be read |
| `KubeconfigSearchPath.EffectiveOutcomeSuccess` | app/electron/cluster-registration.ts:560-580 | there is an effective view if and only if every file is readable |
| `KubeconfigSearchPath.FirstFileWins` | app/electron/cluster-registration.ts:550-571 | for any number of files, the first file's entries win over all later ones and nothing else is lost |
| `KubeconfigSearchPath.FirstCurrentWins` | app/electron/cluster-registration.ts:572-577 | the effective current context is the first file's if that is non-blank, otherwise that of the rest |
| `KubeconfigTransaction.ValidateGeneratedKubeconfig` | app/electron/cluster-registration.ts:589-647 | accepts exactly the configs with one cluster, one context and one user that refer to each other, the context being current, the server usable and the user not empty |
| `KubeconfigLaws.ContextsKeepServer` | app/electron/cluster-registration.ts:484-520 | every context that resolved to an API server before a merge resolves to the same one after it |
| `KubeconfigLaws.PreservedContextsKeepBodies` | app/electron/cluster-registration.ts:484-541 | a context that is not redefined keeps its entry, its cluster's body and its user's body |
| `KubeconfigLaws.MergeableMonotone` | app/electron/cluster-registration.ts:484-541 | a merge accepted by a larger configuration is accepted by every configuration contained in it |
| `KubeconfigLaws.MergeOutcomeParts` | app/electron/cluster-registration.ts:473-549 | a successful merge writes a config whose three lists read back as the merged ones with unique names |
| `KubeconfigLaws.MergeIdempotent` | app/electron/cluster-registration.ts:473-549 | merging the same config again succeeds and changes nothing if and only if every generated cluster names a server; otherwise it is a cluster conflict |
| `KubeconfigLaws.ServerlessClusterConflicts` | app/electron/cluster-registration.ts:488-492 | a generated cluster without a server is merged once and refused the second time |
| `KubeconfigTransaction.SoundIsMergeable` | app/electron/cluster-registration.ts:589-647 | a validated config meets the conditions of idempotence and of commuting |
| `KubeconfigTransaction.KubeconfigStore.TryToReplace` | app/electron/cluster-registration.ts:822-831 | what each throwing call of the try block leaves behind: the files, and whether a descriptor is still held |
| `KubeconfigTransaction.KubeconfigStore.WriteAtomically` | app/electron/cluster-registration.ts:810-852 | with the finally block as written (the second close after a throwing one, the removal that may throw or be skipped): exactly when it throws, when the destination is new, and when a temporary file is left and with what in it; and after every single change on the way the destination is the old file or the whole new one |
| `KubeconfigTransaction.FailureChangesNothingExactlyWhen` | app/electron/cluster-registration.ts:821-851 | a write that throws has changed nothing if and only if the call that threw is one of those after which the finally block could clean up, call by call |
| `KubeconfigTransaction.FailedWritesThatChangeFiles` | app/electron/cluster-registration.ts:828-851 | a throwing close that leaves the temporary file, and a throwing removal after the destination was replaced |
| `KubeconfigTransaction.KubeconfigStore.MergeTransaction` | app/electron/cluster-registration.ts:861-886 | the error raised, when the call throws, and the files afterwards: those of the write, or unchanged when a merge fails |
| `KubeconfigTransaction.DestinationMergeNeverThrows` | app/electron/cluster-registration.ts:874-881 | once the merge with the effective view passes, the merge with the destination file cannot fail, and the transaction succeeds exactly then |
| `KubeconfigTransaction.MergeCommutesWithSearchPath` | app/electron/cluster-registration.ts:861-886 | after a transaction the effective view of all files is, name for name, the old effective view merged with the generated config; the current context too if and only if the generated one is usable |
| `KubeconfigTransaction.CurrentCommutes` | app/electron/cluster-registration.ts:543-577 | the current-context half of that equation, in both directions |
| `KubeconfigTransaction.BlankCurrentDoesNotCommute` | app/electron/cluster-registration.ts:543-546 | a blank current context is written but never effective |
| `KubeconfigTransaction.TransactionKeepsServers` | app/electron/cluster-registration.ts:861-886 | over the whole search path every context stays on its API server |
| `KubeconfigTransaction.TransactionKeepsOtherFields` | app/electron/cluster-registration.ts:861-886 | the other files, and the other top-level fields of the destination, are kept |
| `KubeconfigQueue.MutualExclusionInCallOrder` | app/electron/cluster-registration.ts:787-808 | in every interleaving two calls on one destination never overlap and run in call order |
| `KubeconfigQueue.ConcurrentEqualsSequential` | app/electron/cluster-registration.ts:787-808 | in every reachable state the destination is the fold of the committed operations in call order, and every call that got to read, successful or not, read there what the calls before it had left |
| `KubeconfigQueue.ReadsAreMoments` | app/electron/cluster-registration.ts:870-875 | what a call read, over its whole search path, were the shared files at one moment of the run |
| `KubeconfigQueue.RegistrationsEqualSequentialMerges` | app/electron/cluster-registration.ts:787-886 | for concurrent registrations, each with its own search path over the shared files: the destination is mergeKubeconfig of the committed configs one after another in call order, none failing; a call commits exactly when its transaction succeeds on the files it read and the write gets through |
| `KubeconfigQueue.FailedCallsChangeNothingExactlyWhen` | app/electron/cluster-registration.ts:821-886 | calls that threw have changed nothing, and the file is the fold of those that did not, if and only if no removal of a temporary file threw after its replacement |
| `KubeconfigQueue.ThrowingCallThatCommitted` | app/electron/cluster-registration.ts:849-850 | a run in which the call throws and the file is the merged one |
| `KubeconfigQueue.QueueEmptiesWhenIdle` | app/electron/cluster-registration.ts:802-807 | the queue map has no entry for a destination if and only if all its calls have finished |
| `KubeconfigQueue.AlwaysSomeStep` | app/electron/cluster-registration.ts:787-808 | no interleaving is stuck while a call has not settled |
| `KubeconfigQueue.StepsRunOut` | app/electron/cluster-registration.ts:787-808 | each step uses up one unit of the remaining work, so with AlwaysSomeStep every call finishes |
| `TokenCache.LinearizableExactlyOverConsistentHistories` | backend/cmd/multiplexer.go:229-258 | for every history of the files: all interleavings of readers over it are linearizable (each token returned is non-empty and is what the file held at a moment between the call's stat and its return; an empty-token error means it was blank at such a moment) if and only if, whenever the file shows one mtime twice, a token held in between is the one it holds the second time |
| `TokenCache.TokenCacheLinearizable` | backend/cmd/multiplexer.go:229-258 | the sufficient half, run by run |
| `TokenCache.StaleOver` | backend/cmd/multiplexer.go:229-258 | the necessary half: over any inconsistent history, a run that serves a token the file does not hold at any moment of the call |
| `TokenCache.FreshRotationsAreLinearizable` | backend/cmd/multiplexer.go:227-258 | rotations that each give a fresh mtime are such a history |
| `TokenCache.AnswersSayWhatHappened` | backend/cmd/multiplexer.go:229-258 | in every run a call reports a failed stat, a failed read or an empty token exactly when that happened to it, and returns the token it read itself |
| `Common.TrimSpaceTrims` | backend/cmd/multiplexer.go:248-248 | the token is the content without white space around it: what is removed is white space, and no more can be removed |
| `Common.TrimmedIsUnique` | backend/cmd/multiplexer.go:248-248 | only one text is that |
| `Common.SpacesExactly` | backend/cmd/multiplexer.go:248-248 | which code points are white space to Go and to JavaScript |
| `TokenCache.QuietFileIsServedExactly` | backend/cmd/multiplexer.go:229-258 | a file that does not change during a call is served as it is, without the white space around it, whatever was cached |
| `TokenCache.ReusedMtimeServesStaleToken` | backend/cmd/multiplexer.go:239-241 | a run with a reused mtime that returns a token the file no longer holds |
| `ConnectionLifecycle.ClosedIsFinal` | backend/cmd/multiplexer.go:269-376 | in every interleaving `closed` never reverts, nothing is written to the client after it, and Done is closed at most once and only after it |
| `ConnectionLifecycle.LastStatusSaysClosed` | backend/cmd/multiplexer.go:346-362 | if the client is attached when `closed` is set, the last STATUS it ever gets says "closed" |
| `ConnectionLifecycle.ReturnedMeansClosed` | backend/cmd/multiplexer.go:346-376 | safeClose returns, on any goroutine, only when the connection and Done are closed |
| `ConnectionLifecycle.SweepEmptiesTable` | backend/cmd/multiplexer.go:712-727 | when the sweep unlocks the table, no connection left in it belongs to the client |
| `ConnectionLifecycle.FoundKept` | backend/cmd/multiplexer.go:729-740 | nothing is dropped from the sweep's list, however other goroutines interleave |
| `ConnectionLifecycle.SweepClosesAll` | backend/cmd/multiplexer.go:712-741 | a sweep that has returned has closed and detached every connection it found |
| `ConnectionLifecycle.SweepFindsOnlyItsClient` | backend/cmd/multiplexer.go:715-726 | in every run the connections on a sweep's list were made for the client that is leaving |
| `ConnectionLifecycle.SweepKeepsOthersInTable` | backend/cmd/multiplexer.go:715-727 | while a sweep scans, table entries of connections that are not its client's stay |
| `ConnectionLifecycle.SweepFindsAll` | backend/cmd/multiplexer.go:715-727 | a connection of the client that is in the table during the scan ends up on the list, unless it stops being the client's |
| `ConnectionLifecycle.ClosedOnlyIfAsked` | backend/cmd/multiplexer.go:269-376 | in every run a connection is closed only if a call asked for it: safeClose on it, an update to "closed", or the departure of the client it was made for |
| `ConnectionLifecycle.DirectCallHasClosed` | backend/cmd/multiplexer.go:269-376 | once safeClose or an update to "closed" has returned, the connection is closed |
| `ConnectionLifecycle.WritesExactly` | backend/cmd/multiplexer.go:269-362 | what an attached client is told: an update on an open connection sends exactly its state, closing sends "closed" unless that is the status already, nothing else writes |
| `ConnectionLifecycle.LockIsReleased` | backend/cmd/multiplexer.go:715-727 | the table is locked only by a sweep that is scanning |
| `ConnectionLifecycle.AlwaysSomeStep` | backend/cmd/multiplexer.go:269-376 | in every reachable state with a call that has not returned, some call can take a step: nobody waits for ever on a mutex or a Once |
| `ConnectionLifecycle.StepsRunOut` | backend/cmd/multiplexer.go:269-376 | each such step lowers a measure, so with AlwaysSomeStep every call returns |
| `BackendStartup.SentOnlyForReadyCurrentGeneration` | app/electron/main.ts:1454-1492 | in every run a token or port is sent only to the main frame, with credentials out, for a request whose generation is still current and was resolved by a child that reported readiness |
| `BackendStartup.SentExactlyWhen` | app/electron/main.ts:1454-1492 | and it is sent to every request for which that holds; a request awaits the generation that was current when it was made |
| `BackendStartup.CredentialsExactly` | app/electron/main.ts:319-322 | in every run credentials are out exactly when a child has reported and neither a start-up was rejected since nor the child spawned last exited after reporting |
| `BackendStartup.StartsExactlyWhen` | app/electron/main.ts:1588-1602 | startServerIfNeeded begins a start exactly when credentials are not out or the last child is not alive, opens a new generation exactly when the current one is settled, and may use every port of the range |
| `BackendStartup.RetryGoesOn` | app/electron/main.ts:1568-1571 | a retry goes on to the ports after the shared one, and to all of them |
| `BackendStartup.AllocationErrorExactly` | app/electron/main.ts:846-849 | a start has failed with the allocation error exactly when it last found no port |
| `BackendStartup.RestartsExactlyWhen` | app/electron/main.ts:1604-1656 | "Terminate and Retry" is offered exactly to a start that last found no port and has not been restarted |
| `BackendStartup.RestartedAtMostOnce` | app/electron/main.ts:1637-1671 | "Terminate and Retry" restarts a start at most once |
| `BackendStartup.TimedOutChildIsKilled` | app/electron/main.ts:1555-1560 | a child that did not report in time is killed, and stays so |
| `BackendStartup.SentPortIsRightExactlyWhen` | app/electron/main.ts:1477-1580 | in every run, overlapping starts included: the announced child got its port from a choice of its own start, every later choice is another start's, and the port sent is the child's own if and only if there is no later choice or the last one picks the same port; the child has exited if and only if it did so after another was spawned; when starts do not overlap the port is right and the child alive and current |
| `BackendStartup.OverlappingStartsSendTheWrongPort` | app/electron/main.ts:1516-1571 | a run with overlapping starts that sends one child's readiness with another's port |
| `BackendStartup.OverlappingStartsAnnounceAnExitedChild` | app/electron/main.ts:2115-2120 | a run in which a child that was replaced exits unnoticed and is announced afterwards |
| `BackendStartup.PortsRiseExactlyWhen` | app/electron/main.ts:1516-1571 | in every run, a start only goes on to ports above all it has tried if and only if at each of its retries the shared port is not below its child's |
| `BackendStartup.RetriesAreBounded` | app/electron/main.ts:830-850 | under exactly that condition the ports tried strictly increase within the range, at most MAX_PORT_ATTEMPTS children are spawned, and a start that has used them all cannot choose another port |
| `BackendStartup.SerializedRetriesFromAbove` | app/electron/main.ts:1516-1571 | the condition holds in every run whose starts do not overlap |
| `BackendStartup.OverlappingRetriesAreUnbounded` | app/electron/main.ts:1571-1571 | for every n, a run in which one start spawns n children on the same port of a range of two |
| `BackendStartup.FindAvailablePort` | app/electron/main.ts:830-850 | the first free port of the range at or after the start port, or none when all are taken |
| `ReadinessDetector.Observer.HandleOutput` | app/electron/backendToken.ts:34-46 | after any chunk the callback has been called, once, exactly when the whole output so far has a marker line, and then the listener is detached |
| `ReadinessDetector.Observer.StopObserving` | app/electron/backendToken.ts:47-50 | detaches the listener; the callback is not called |
| `ReadinessDetector.Observe` | app/electron/backendToken.ts:29-50 | the callback fires exactly on the first chunk that completes a marker line, otherwise never |
| `ReadinessDetector.CutAnywhere` | app/electron/backendToken.ts:34-37 | keeping the unfinished line loses nothing, wherever the output is cut |
| `ReadinessDetector.FiresOnceAndOnlyIfMarked` | app/electron/backendToken.ts:38-44 | the chunk that fires is unique and exists only if the whole output has a marker line |
| `ReadinessDetector.ChunkingDoesNotMatter` | app/electron/backendToken.ts:34-46 | of two ways to cut one output, if one has fired the other has fired once it has delivered as much |
| `ReadinessDetector.MarkedMeansLine` | app/electron/backendToken.ts:36-39 | "marked" means that somewhere a whole newline-terminated line is the marker, or the marker and one carriage return |
| `PluginUpdate.SameDigests` | app/electron/plugin-management.ts:504-509 | comparing sizes and every recorded path decides equality of the digest maps |
| `PluginUpdate.RecordedLookup` | app/electron/plugin-management.ts:472-479 | recording replaces the receipt of its own location and leaves every other valid one |
| `PluginUpdate.LookupExactly` | app/electron/plugin-management.ts:363-443 | the receipt consulted is the first one in a readable store of version 1 without nulls that counts for the place, and its identity is the expected one as far as that is given |
| `Common.NameExactly` | app/electron/plugin-management.ts:458-458 | which strings are names, character by character |
| `PluginUpdate.IdentityAcceptedExactlyWhen` | app/electron/plugin-management.ts:457-466 | recorded identities are two names and two UUIDs |
| `PluginUpdate.DigestsTellContents` | app/electron/plugin-management.ts:248-290 | digest maps are equal exactly when package.json without its metadata and every other file are |
| `PluginUpdate.VerifiesExactlyWhenUnchanged` | app/electron/plugin-management.ts:452-512 | what is found at a recorded place verifies exactly when it has no links, the identity is the recorded one, and no file was changed, added or removed |
| `PluginUpdate.FileSystem.WriteReceipts` | app/electron/plugin-management.ts:393-408 | when the store changes, and that a failed cleanup comes after the change |
| `PluginUpdate.FileSystem.RecordInstallation` | app/electron/plugin-management.ts:452-479 | which identities and bundles are recorded and what the store then holds |
| `PluginUpdate.FileSystem.RemoveReceipt` | app/electron/plugin-management.ts:515-531 | the location's receipt is gone, all others stay, and nothing is written when there was none |
| `PluginUpdate.FileSystem.InstallDownload` | app/electron/plugin-management.ts:932-939 | what the try block leaves in the directories and in the store for a fault at any of its calls |
| `PluginUpdate.FileSystem.RollBack` | app/electron/plugin-management.ts:940-944 | what the catch block leaves, also when it fails half-way |
| `PluginUpdate.FileSystem.Update` | app/electron/plugin-management.ts:926-950 | all or nothing: on success the new bundle is in place and its identity verifies; on failure with a working rollback every directory is as before; with a failing one the old bundle is still in the backup; receipts of other bundles never change |
| `PluginUpdate.RolledBackAnswer` | app/electron/plugin-management.ts:393-508 | what verification answers after a rolled-back update whose receipt had been written |
| `PluginUpdate.CleanupFaultKeepsAnswerIffNothingChanged` | app/electron/plugin-management.ts:393-508 | a bundle that verified still does if and only if the update would have changed nothing that is checked |
| `PluginUpdate.CleanupFaultLosesVerification` | app/electron/plugin-management.ts:405-407 | a bundle that verified and no longer does after such a rollback |
| `AnnotationTree.ConvertAnnotations` | app/electron/plugin-management.ts:1530-1552 | the loops insert the keys one after another in the order visited |
| `AnnotationTree.InsertLeaf` | app/electron/plugin-management.ts:1538-1548 | what one key does to every leaf: it sets its own and clears those that are prefixes or extensions of it |
| `AnnotationTree.InsertedExactlyWhen` | app/electron/plugin-management.ts:1538-1548 | one key is inserted exactly when every object on its way is there, is an empty text, or can be made |
| `AnnotationTree.FaithfulExactlyWhenSafe` | app/electron/plugin-management.ts:1530-1552 | looking up each split key gives its value and the tree has no other leaf, if and only if the keys are prefix-free and no inherited name stands where an object is needed |
| `AnnotationTree.OrderDoesNotMatter` | app/electron/plugin-management.ts:1533-1549 | for such keys the tree is the same in every insertion order |
| `AnnotationTree.PathInjective` | app/electron/plugin-management.ts:1535-1535 | different keys have different paths |
| `AnnotationTree.PrefixKeysCollide` | app/electron/plugin-management.ts:1538-1548 | for any key and one below it: inserted in one order the walk throws, in the other the longer key is lost |
| `AnnotationTree.PrefixKeysCollideInJavaScript` | app/electron/plugin-management.ts:1538-1548 | the keys "a" and "a/b" with the names of Object.prototype |
| `AnnotationTree.InheritedKeysAreLost` | app/electron/plugin-management.ts:1540-1547 | for any inherited name: a key through it leaves the tree, and the key `__proto__` is dropped |
| `AnnotationTree.InheritedNamesCollide` | app/electron/plugin-management.ts:1540-1547 | "constructor/x" leaves the tree and "__proto__" is dropped |
| `SecureStorage.StoredKeySplits` | app/electron/secureStorage.ts:136-183 | a stored key splits back into its namespace and key although keys may hold colons, and is a valid stored key |
| `SecureStorage.KeyExactly` | app/electron/secureStorage.ts:94-157 | which keys are valid, character by character |
| `SecureStorage.NamespaceExactly` | app/electron/secureStorage.ts:94-142 | which namespaces are valid: a name, or a scope and a name |
| `SecureStorage.PrefixIsNamespace` | app/electron/secureStorage.ts:328-330 | the prefix test selects exactly the entries of the namespace |
| `SecureStorage.ReadSecureStorageFile` | app/electron/secureStorage.ts:192-219 | exactly the string members under valid stored keys are kept |
| `SecureStorage.PluginSecureStorage.Save` | app/electron/secureStorage.ts:314-349 | when it succeeds, that it then sets one pair of the two-level map, and that a failure changes nothing |
| `SecureStorage.PluginSecureStorage.Load` | app/electron/secureStorage.ts:358-386 | it answers with the two-level map's value, or nothing, or a failure, and when |
| `SecureStorage.PluginSecureStorage.Delete` | app/electron/secureStorage.ts:395-415 | when it succeeds, that it then removes one pair, and that a failure changes nothing |
| `SecureStorage.Run` | app/electron/secureStorage.ts:293-416 | from an absent file, any run of saves and deletes leaves a store that stands for the replayed two-level map |
| `SecureStorage.ModelWithinLimits` | app/electron/secureStorage.ts:331-341 | such a map never has more than 256 namespaces or 256 entries in one |
| `ClusterRename.FindMatchingContextName` | backend/cmd/headlamp.go:3221-3275 | whatever the iteration order: a context with that custom name, else the key itself, else the first key in string order with that DNS-friendly form, else the name |
| `ClusterRename.CheckUniqueName` | backend/cmd/headlamp.go:3277-3321 | unique exactly when no other context answers to the name by key or by custom name |
| `ClusterRename.KubeconfigFile.HandleClusterRename` | backend/cmd/headlamp.go:3172-3203 | when the checked name (or none, for the context's own name) is written, when the request succeeds (the context store was updated too), and that the file is unchanged otherwise, with the reason |
| `ClusterRename.LookupIsDetermined` | backend/cmd/headlamp.go:3221-3275 | with distinct custom names a lookup has one answer |
| `ClusterRename.RenameKeepsInv` | backend/cmd/headlamp.go:3172-3196 | a rename keeps custom names distinct and different from every key |
| `ClusterRename.NewNameResolvesToTarget` | backend/cmd/headlamp.go:3185-3196 | the name just given resolves to its context, with the exact condition for a DNS-friendly form |
| `ClusterRename.SharedFormGoesToTheFirst` | backend/cmd/headlamp.go:3245-3274 | of any two keys with one DNS-friendly form, the later one renamed to that form still resolves to the first |
| `ClusterRename.RenamedToSharedFormIsLost` | backend/cmd/headlamp.go:3185-3274 | the keys "a--b c" and "a/b c" |
| `ClusterRename.RenamingStaysUnambiguous` | backend/cmd/headlamp.go:3029-3321 | after any sequence of renames from a file without custom names: custom names are distinct and never a key, lookups do not depend on iteration order, every key resolves to itself and the name just given to its context |
| `LogoutState.FormatThenParse` | backend/cmd/headlamp.go:368-396 | a printed number parses back exactly when it fits 64 bits |
| `LogoutState.ParseIntExactly` | backend/cmd/headlamp.go:394-394 | parsing accepts exactly an optional sign and digits whose value fits 64 bits, and the value is the one that prints as those digits without leading zeros |
| `LogoutState.ValidatesExactlyWhen` | backend/cmd/headlamp.go:377-407 | what validation accepts, whoever made the string: two parts around a single dot, a payload of expiry time, nonce and cluster in the window, and its signature |
| `LogoutState.CreatedValidatesExactly` | backend/cmd/headlamp.go:367-407 | a state made at second t validates exactly for its cluster, from t through t + 60, under a token that signs its payload the same way |
| `LogoutState.RoundTrip` | backend/cmd/headlamp.go:367-407 | for the same cluster and token: exactly at seconds t through t + 60 |
| `LogoutState.ValidForOneClusterOnly` | backend/cmd/headlamp.go:378-407 | no string at all is valid for two clusters |
| `LogoutState.OneWindow` | backend/cmd/headlamp.go:394-397 | any string that is ever valid is valid in exactly one window of sixty-one seconds |
| `Identities.IdentityIsExact` | app/electron/runCmd.ts:836-845 | a NUL-free identity equals another only if all three fields are equal, whatever the other's fields hold |
| `Identities.IdentityIsSharedExactlyWhen` | app/electron/runCmd.ts:836-836 | other names have the same identity if and only if the bundle or the package name contains a NUL |
| `Identities.IdentityConfusesNulFields` | app/electron/runCmd.ts:836-836 | two different registrations with one identity |
| `ManifestPolicies.GranteeIdentityIsExact` | app/scripts/build-manifest.ts:748-748 | for admitted names the four-part identity tells grantees apart |
| `ManifestPolicies.ProductPluginCommandPolicies` | app/scripts/build-manifest.ts:692-775 | succeeds exactly when every entry was accepted before its plugins are looked at, every plugin is well formed and no grantee is named twice, and then gives the environment's policies in order |
| `ManifestPolicies.ManifestPoliciesAreValid` | app/scripts/build-manifest.ts:691-775 | the policies of an admitted manifest have NUL-free names and are for different plugins |
| `ManifestPolicies.PluginAcceptedExactlyWhen` | app/scripts/build-manifest.ts:693-747 | which plugins an entry may name |
| `ManifestPolicies.PoliciesArePlugins` | app/scripts/build-manifest.ts:755-772 | each policy has the bundle and package of a plugin and the location and providers of its entry, and every plugin of the environment has one |
| `CommandCapabilities.FileRegistrations` | app/electron/runCmd.ts:808-843 | an identity is filed exactly when one and only one well-formed registration has it |
| `CommandCapabilities.CarriesIsKey` | app/electron/runCmd.ts:836-849 | for a policy with NUL-free names, having its key means having its source, bundle and package |
| `CommandCapabilities.WellFormedExactly` | app/electron/runCmd.ts:811-835 | which registrations are well formed, with the inventory directory of each source |
| `CommandCapabilities.CreateProductCommandCapabilities` | app/electron/runCmd.ts:795-863 | capabilities and registry are those of the entitled policies, in order, one token each; none for more than 256 registrations |
| `CommandCapabilities.CapabilityExactlyWhenEntitled` | app/electron/runCmd.ts:795-863 | a policy of an admitted manifest gets a capability if and only if one and only one well-formed registration carries its source, bundle and package |
| `CommandCapabilities.EachPluginAtMostOnce` | app/electron/runCmd.ts:845-861 | no plugin gets two capabilities, each has its policy's plugin and providers, and the registry binds each token issued, and no other, to its own policy |
| `WorkerPool.NormalizedConcurrency` | frontend/scripts/precompress-build.ts:146-152 | at least one: the given integer if positive, otherwise four |
| `WorkerPool.PoolIsSafe` | frontend/scripts/precompress-build.ts:163-180 | in every interleaving no index is handed out twice, each call gets its own item, and no more calls are unsettled than there are items or than the concurrency allows |
| `WorkerPool.PoolReachesItsLimit` | frontend/scripts/precompress-build.ts:178-179 | and that many can be |
| `WorkerPool.PoolEnds` | frontend/scripts/precompress-build.ts:166-176 | no run is longer than three steps per item and one per worker |
| `WorkerPool.RejectsExactlyForRejectedCalls` | frontend/scripts/precompress-build.ts:174-179 | the pool rejects exactly when some call was rejected |
| `WorkerPool.ResolvesWithEveryValue` | frontend/scripts/precompress-build.ts:154-182 | a pool that resolves has the value of the one call for each item in its slot, if and only if there are no items or the concurrency is at least one |
| `WorkerPool.ZeroConcurrencyDeliversNothing` | frontend/scripts/precompress-build.ts:178-181 | one item at concurrency zero: the pool resolves at once with an empty slot |
| `WorkerPool.PrecompressPoolDelivers` | frontend/scripts/precompress-build.ts:146-182 | with the normalised concurrency a finished pool has rejected because of a call, or has delivered every value |
| `CsvLine.ParseCsvLine` | app/electron/ownedProcesses.ts:49-79 | the index loop with its lookahead computes the scan of the line |
| `CsvLine.RenderThenParse` | app/electron/ownedProcesses.ts:49-79 | every non-empty list of fields, each quoted with doubled quotes or bare without quote and comma, is read back exactly |
| `CsvLine.ParseThenRender` | app/electron/ownedProcesses.ts:49-79 | any line at all has a fully quoted form with the same fields |
| `CsvLine.QuoteFreeLine` | app/electron/ownedProcesses.ts:68-74 | a line without quotes is cut at its commas and nowhere else: its fields joined give it back |

## Left out

- Real file-system, process, network, WebSocket and Electron calls: only their success or failure is modelled.
- BackendStartup.RetriesAreBounded: counts children from the first attempt or from the user's "Terminate and Retry", which begins the range again; MAX_PORT_ATTEMPTS is a natural number. Without its condition on the run the bound is false (OverlappingRetriesAreUnbounded).
- ConnectionLifecycle: STATUS messages are recorded by their state, not their error text or whether the client received them; `cleanupConnection` and `reconnect` only appear as insertions into and removals from the table.
- KubeconfigQueue: the lock is keyed by canonical paths, and leftover temporary files, whose names no search path holds, are not part of the shared files.
- KubeconfigTransaction.KubeconfigStore.WriteAtomically: file permissions; calls before the write that throw (creating the directory, reading the files) change no file and are left out.
- KubeconfigTransaction.ValidateGeneratedKubeconfig: whether a server string is an acceptable URL is a parameter.
- PluginUpdate.VerifiesExactlyWhenUnchanged: assumes that no two texts have one SHA-256 digest.
- PluginUpdate: finding, downloading and unpacking the new version, semantic-version comparison and the progress callback; `installFromPluginPkg`, which copies in place without a backup.
- AnnotationTree.ConvertAnnotations: nested objects are values rebuilt along the path, not shared objects changed through an alias; a walk that follows an inherited property or assigns to a string ends the model.
- SecureStorage: the 4 MB file limit is part of whether reading works; values that are not strings and untrusted renderer frames are refused before the operations modelled here.
- ClusterRename.KubeconfigFile.HandleClusterRename: what the context store holds, the HTTP replies, and stateless clusters.
- ManifestPolicies.ProductPluginCommandPolicies: the checks made on an entry before the loop over its plugins are the number of plugins, providers of user plugins, and one yes or no for all the rest (unknown keys, command sets, grants, executables, provider shapes); the Artifact Hub formats are one of absent, bad, good.
- CommandCapabilities.CreateProductCommandCapabilities: grants and approved commands travel with the policy and are not modelled; tokens are the given random values, distinct where a theorem says so.
- LogoutState: dates outside the range of 64-bit Unix seconds.
- WorkerPool: a concurrency that is not an integer, which the caller normalises away.
- ReadinessDetector: multi-byte characters split across buffers; the marker is ASCII.
- `quitServerProcess`, headless mode and external-server mode of app/electron/main.ts, which bypass the generation protocol.
- Consent dialogs, menus, tray, build configuration, Storybook, load tests, signing scripts, and the `k8cache`, `auth`, `kubeconfig` and `helm` packages: user interface, plumbing or easy members.
