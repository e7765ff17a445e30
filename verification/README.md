# horchestra, verified

A Dafny model of the parts of horchestra where correctness is hardest to see from the code: the
node agent's secret cache and its refresher, the network helper's kernel tables and attachments,
the sandbox's system-call filter, the image store, and four smaller transformations that other
parts rely on. `dafny verify dfyconfig.toml` checks everything.

## How it is modelled

* **Code that changes things in place** (the cache, the kernel maps, the pin directory, the image
  store, the secret directory) is a class whose methods follow the original step by step, each
  proved against a function or relation of the old state.
* **Crashes and readers.** Where the process may die or a reader may look in between, every map,
  file or kernel operation is one step and the object carries a `lifetime`: the number of steps
  it survives. A postcondition proved for every lifetime holds in every intermediate state. An
  outcome `Died` implies the lifetime is used up, so no operation can give up early. Calls the kernel
  or the file system may refuse have their refusals among the parameters.
* **Concurrency.** The vault cache is shared by the converge goroutine and the refresher.
  `VaultCache` holds the sections that run under the lock, `VaultProtocol` interleaves them as
  labelled steps with the network calls between them as steps of their own, and `VaultHistory`
  compares the cache with a log of what happened.
* **What the environment decides** (answers of the secret store, of the kernel and of the file
  system, random names, clock readings) is a parameter.

| file | models |
|---|---|
| `Seccomp.dfy` | the filter compiler, against the cBPF machine and a written decision |
| `ServiceTable.dfy`, `SockLB.dfy` | service rules to bytes, and the two-map update under readers and crashes |
| `Forward.dfy` | the address table and the algebra of its two owners |
| `Attachments.dfy` | pinned program links across restarts and interface re-creation |
| `Handler.dfy` | teardown, garbage collection and rewiring over both |
| `VaultCache.dfy`, `VaultProtocol.dfy`, `VaultHistory.dfy`, `VaultKey.dfy` | the secret cache |
| `ImageStore.dfy` | per-tenant bindings over a shared, digest-named index |
| `Defaults.dfy` | defaults collected from a JSON schema and applied to a document |
| `SecretEnv.dfy`, `SecretDir.dfy` | secrets as an environment file and as a directory |
| `Netlink.dfy` | nested netlink attributes |
| `Text.dfy`, `Maths.dfy`, `Wrappers.dfy` | shared string functions, set sizes and result types |

## Main results

* `Seccomp.SeccompProgram`, `CompilerCorrectIff`, `PolicyReach`: what every compiled filter answers,
  exactly, and what a policy can change.
* `SockLB.Updater.Services`, `ReaderSeesOldOrNew`, `Live`: what readers see at every step, exact
  replacement from any contents, and any number of dying processes.
* `VaultProtocol.LeaseConservation`, `NoOversleep`: every lease in exactly one place and no deadline
  slept through, in every interleaving.
* `VaultHistory.ServedValueIsLastGood`, `ServedOwnReadIff`, `AttemptsAreSpaced`: what is served, read
  with what, and how refresh attempts are spaced, over every run.
* `Forward.TableIsLocalPlusLastPush`, `PushForgottenIff`: one map with two owners.
* `Attachments.AnyHistory`: one live attachment per interface over every history.
* `Handler.Helper.Teardown`, `GC`, `Rewire`, `RestartRebuildsIff`, `RestartOrderIrrelevantIff`: no
  dangling local entry, with the exact exceptions; when a restart rebuilds the table any run left, and
  when its two halves commute.
* `ImageStore.Store.AnyHistory`, `Purge`: no dangling binding over every run, and the exact purge.
* `Defaults.CollectThenApply`, `NothingIsConjured`, `IdempotentIff`: schema defaults.
* `SecretEnv.RoundTrip`, `SecretEnvShapeChanged`, `SecretDir.AlwaysExactIff`, `Netlink.DecodesBackIff`.

## Where the code does not do what one would expect

* The seccomp ceiling is compared against the highest number plus one in 32 bits. The compiled
  program equals the documented decision if and only if the highest number is not 0xFFFFFFFF
  (`CompilerCorrectIff`). An empty policy skips the size check, so a built-in list above 250
  entries would panic (`SeccompProgram`); neither built-in list is that long (`BuiltInProgram`).
* A service update checks that the new table fits the backend map, but it writes before it
  deletes. With nothing refused and the union of old and new services within the service map, a
  finished update has no hole if and only if the union of old and new entries fits the backend map
  (`Replace`); that the new table fits is not enough (`NewTableFittingIsNotEnough`). A service whose
  deletion the kernel refuses loses its backends all the same; where the unions fit and the maps were
  coherent, the end state is then coherent if and only if those could not be deleted either
  (`Replace`, `RefusedServiceLosesItsBackend`).
* A push that names a local address overwrites the local entry for good: the next push restores
  the table if and only if the push leaves every local entry as it finds it
  (`PushForgottenIff`), and the two halves of a restart commute if and only if push and wiring
  agree (`RestartOrderIrrelevantIff`). A route whose node is 0.0.0.0 becomes an entry no later push
  removes (`ZeroNodeSticks`).
* Taking an interface down discards the error of forgetting its addresses. The table then delivers
  if and only if no entry was held back or the interface could not be deleted (`Teardown`, `GC`).
* A crash between creating a binding's temporary file and writing it, or a write refused together
  with the removal that follows, leaves an unreadable file that nothing rewrites. From then on no index entry and no blob is ever reclaimed
  (`TornPullStopsReclaiming`). This is the safe side of the rule that an unreadable binding
  prevents any removal.
* A binding's file belongs to one pair if and only if neither the namespace nor the source holds
  a NUL (`KeyIsPerPairIff`); the vault cache key has the same limit (`KeyIsPerReadIff`).
* The vault cache key leaves out how a store is reached: its Vault namespace, authentication, CA
  bundle and engine version. A store edited in place keeps its keys, so hits and refreshes go on
  with the store as it was (`EditedStoreServesOldRead`); a hit is answered with the caller's own
  read if and only if the caller asks for what the inserting fetch asked for (`ServedOwnReadIff`).
* Defaulting twice equals defaulting once, for every document, if and only if every declared
  default is itself complete under its own schema (`IdempotentIff`). Scalars always are; an object
  default need not be (`ObjectDefaultNeedsTwoPasses`).
* Writing a secret directory discards the error of every removal. It reports success although a
  non-empty subdirectory, or a file whose removal is refused, stays without being a key, and although
  an absent key whose name the temporary file happened to get is deleted again. Success is exact for
  every choice of names if and only if no write can succeed, or nothing of the kind is there and no
  absent key has a removable name that a temporary file could get (`AlwaysExactIff`).
* A netlink tree decodes to itself if and only if every length fits 16 bits and no type carries
  the nesting flag (`DecodesBackIff`).

## Model

| member | source | states |
|---|---|---|
| Seccomp.NumberResolves | sandbox/seccomp.go:356-371 | a number written in decimal, with any white space around it, resolves to that number whatever the name table says |
| Seccomp.AddDenied | sandbox/seccomp.go:324-334 | fails exactly when an entry does not resolve, else the union of the built-in list and the numbers meant |
| Seccomp.DropAllowed | sandbox/seccomp.go:335-343 | fails exactly when an entry does not resolve, else the set without the numbers meant |
| Seccomp.ApplyPolicy | sandbox/seccomp.go:319-350 | a policy is accepted exactly when all entries resolve and (built-in plus Deny) minus Allow has at most 250 numbers; the result is that set |
| Seccomp.Emit | sandbox/seccomp.go:261-292 | every instruction of the program at its place with unpatched jumps, and labels pointing at the returns |
| Seccomp.Assemble | sandbox/seccomp.go:250-305 | every displacement fits 8 bits exactly when at most 250 numbers are denied, and then the patched program is the listing the proofs execute |
| Seccomp.ScanDenylist | sandbox/seccomp.go:275-284 | from any point of the comparison chain the machine answers EPERM exactly when a remaining entry matches |
| Seccomp.MaskMeetsEveryFlag | sandbox/seccomp.go:67-78 | the clone mask meets a flag word exactly when one of the seven new-namespace bits is set |
| Seccomp.RunCloneCheck | sandbox/seccomp.go:286-292 | the clone block answers EPERM exactly when the low argument word asks for a namespace |
| Seccomp.ListingComputes | sandbox/seccomp.go:250-305 | for every architecture, number and argument the program ends at a return with the action the code computes, the wrapped ceiling included |
| Seccomp.CompilerCorrectIff | sandbox/seccomp.go:233-305 | running the program equals the documented decision on every input if and only if the highest number is not 0xFFFFFFFF |
| Seccomp.SeccompProgram | sandbox/seccomp.go:250-305 | exactly when a request is refused, when it panics, and that a produced program computes the effective deny set in 13 to 263 instructions |
| Seccomp.PolicyReach | sandbox/seccomp.go:233-350 | two policies give different answers exactly for a number one denies and the other does not; never for clone, clone3, a foreign architecture or a number above the ceiling |
| Seccomp.BuiltInProgram | sandbox/seccomp.go:101-231 | with the built-in amd64 and arm64 lists no policy panics and every program is exactly the documented decision |
| ServiceTable.ServiceKeyInjective | netd/socklb_linux.go:296-303 | a service key determines address, port and protocol |
| ServiceTable.BackendValueInjective | netd/socklb_linux.go:315-321 | a backend value determines address and port |
| ServiceTable.BackendKeyDecodes | netd/socklb_linux.go:307-312 | a backend key has a zero pad and reads back as its service and its index modulo 65536 |
| ServiceTable.CanonicalKeyEncodes | netd/socklb_linux.go:223-250 | reading a stored key apart and encoding it again gives the key |
| ServiceTable.BuildTable | netd/socklb_linux.go:254-290 | the table pairs every rule's key with its backends exactly when all rules are valid and no key occurs twice |
| ServiceTable.NamedIffCovered | netd/socklb_linux.go:223-250 | a canonical key is one the table names exactly when its decoded parts fall inside the table |
| SockLB.CoherentIffNoBlackHole | netd/bpf/socklb.bpf.c:73-128 | every index below every count resolves exactly when no connection and no random pick meets a missing backend |
| SockLB.CapacityMakesEncodable | netd/socklb_linux.go:155-166 | the capacity check is what keeps the 16-bit index from wrapping |
| SockLB.CleanCoherentIff | netd/socklb_linux.go:183-250 | with every service counted or stale, deleting uncovered entries leaves a coherent table exactly when the services that stay were coherent and no entry a remaining stale service names was taken |
| SockLB.FinishedUpdate | netd/socklb_linux.go:150-250 | a finished update has all writes taken exactly when both unions fit, is exact when besides nothing is held back, and from a coherent table is coherent exactly when the backend union fits and every service whose deletion was refused keeps its entries |
| SockLB.Updater.WriteService | netd/socklb_linux.go:168-181 | the count is written after the entries it names, so a coherent table stays coherent at every step if the union fits |
| SockLB.Updater.WriteAll | netd/socklb_linux.go:168-181 | at every step each count and each entry is that key's old or new one, a changed count stands over its whole new row, and coherence is kept if the union fits; at the end every service is written unless something did not fit |
| SockLB.Updater.RemoveStaleServices | netd/socklb_linux.go:183-193 | at every step only stale services have gone; finished, exactly those whose deletion was granted |
| SockLB.Updater.ReclaimBackends | netd/socklb_linux.go:223-250 | at every step only entries that do not decode into the table have gone; finished, exactly those whose deletion was granted |
| SockLB.Updater.Clean | netd/socklb_linux.go:183-250 | services go before backends: at every step the backends are untouched or the services as clean as they get; a failed walk of either map stops there; success exactly when nothing that is to go is held back |
| SockLB.Updater.Replace | netd/socklb_linux.go:150-198 | at every step old-or-new, a changed count only over its whole new row, and coherent if the union fits and refused services are spared; finished without error exactly when both unions fit and nothing is held back, and then exactly the request, from any prior contents; coherence at the end has its exact condition |
| SockLB.Updater.Services | netd/socklb_linux.go:150-198 | refused, with nothing changed, exactly when a rule is invalid, a key repeats or the table exceeds a map; otherwise as Replace |
| SockLB.ReaderSeesOldOrNew | netd/bpf/socklb.bpf.c:73-128 | in any state of an update a connection is untouched or rewritten to that service's own old or new backend at that index, never another service's; where the count is no longer the old one it is the new backend |
| SockLB.LiveOnce | netd/socklb_linux.go:142-198 | one process, dying anywhere and with deletions refused, keeps a coherent table coherent if refused services keep their entries; finishing without error means exact, an error means something was held back |
| SockLB.Live | netd/socklb_linux.go:142-198 | any number of such processes: never a hole, and one that finishes without error leaves exactly its request whatever the others left |
| SockLB.NewTableFittingIsNotEnough | netd/socklb_linux.go:150-198 | a full coherent map and a one-backend request that fits alone but not together |
| SockLB.RefusedServiceLosesItsBackend | netd/socklb_linux.go:186-197 | from any coherent maps with room, updating while a stale service cannot be deleted and one of its entries can reports errors and, finished, leaves a service whose index resolves to nothing |
| Forward.Forwarder.DeleteAll | netd/fwd_linux.go:392-409 | at every step only listed addresses have gone; finished, exactly those whose deletion was granted |
| Forward.Forwarder.Local | netd/fwd_linux.go:378-386 | the address becomes local to the interface, or nothing changes because the map is full |
| Forward.Forwarder.Forget | netd/fwd_linux.go:388-409 | at every step only local entries of that interface have gone; finished, exactly those whose deletion was granted; a failed walk changes nothing |
| Forward.Forwarder.ReclaimLocal | netd/fwd_linux.go:297-326 | the same for local entries of interfaces not kept, with success exactly when none is held back |
| Forward.RemovalsAre | netd/fwd_linux.go:297-409 | when nothing is refused the two removals are the operations of the two-owner algebra |
| Forward.Forwarder.Wanted | netd/fwd_linux.go:423-443 | fails exactly when a route is not a single IPv4 address or names a node that is not IPv4; otherwise the last deciding route of each address wins and this node's own are skipped |
| Forward.Forwarder.WriteRemote | netd/fwd_linux.go:448-466 | at every step an address holds its old or its wanted entry; all writes are taken exactly when the union fits, and then the table is the old one overlaid |
| Forward.Forwarder.SweepRemote | netd/fwd_linux.go:467-482 | unnamed local entries and wanted ones survive every step; finished, of the other entries exactly the refused ones stay |
| Forward.Forwarder.Routes | netd/fwd_linux.go:411-483 | the exact conditions of refusal, of success and of dying; at every step unnamed local entries are untouched and named addresses hold their old or wanted entry; a partial push leaves the unnamed local entries, the wanted ones that fit and only refused others; success is the old local entries not named plus the wanted ones |
| Forward.HalvesSimulate | netd/fwd_linux.go:297-504 | one map written by two owners behaves as two maps, one operation at a time, while they name different addresses |
| Forward.RunsSimulate | netd/fwd_linux.go:297-504 | the same over every run |
| Forward.RemoteIsLastPush | netd/fwd_linux.go:418-483 | over every run the remote half is the last push |
| Forward.LocalIgnoresPushes | netd/fwd_linux.go:297-409 | over every run the local half is what the local operations alone produce |
| Forward.TableIsLocalPlusLastPush | netd/fwd_linux.go:297-504 | over every run the table is the local operations alone plus the last push |
| Forward.PushForgottenIff | netd/fwd_linux.go:418-483 | the next push makes the table forget this one, for every next push, if and only if this one leaves every local entry as it finds it: names no local address, and puts no 0.0.0.0 entry that is not there |
| Forward.ZeroNodeSticks | netd/fwd_linux.go:418-483 | a route to node 0.0.0.0 is accepted, and no run of later pushes that do not name its address removes it |
| Forward.ForgetUndoesLocal | netd/fwd_linux.go:378-409 | forgetting an interface undoes recording a new address on it |
| Attachments.Node.EveryLiveLinkIsPinned | netd/fwd_linux.go:196-295 | between calls every link that anything keeps alive is pinned: no descriptor is left over from a call |
| Attachments.Node.DeleteDevice | netd/fwd_linux.go:253-265 | deleting a device detaches every link on it, whoever holds it |
| Attachments.Node.KeepsCurrent | netd/fwd_linux.go:204-213 | a kept descriptor stays only when it answers and is on this very index, and then the interface is well attached |
| Attachments.Node.Adopt | netd/fwd_linux.go:225-233 | an adopted link runs this process's program and is the only live one; a refused update closes the descriptor |
| Attachments.Node.AdoptOrDrop | netd/fwd_linux.go:214-236 | a pin on this very interface is adopted and stays; another goes with its link as far as the kernel lets it |
| Attachments.Node.Fresh | netd/fwd_linux.go:237-251 | a new link is pinned and kept, or its descriptor is closed and the link is gone |
| Attachments.Node.Attach | netd/fwd_linux.go:187-251 | success means the pin of that name is the only live link, pinned or not, on the interface's current index and runs this process's program; a link already there that can be asked is the one that stays; no other pin or link changes; failure has a named reason |
| Attachments.Node.Unpin | netd/fwd_linux.go:271-295 | exactly this pin goes, held or not, unless its removal or loading is refused; no descriptor is left either way |
| Attachments.Node.ReclaimPins | netd/fwd_linux.go:328-353 | kept interfaces, the uplink and the tunnel keep their pins at every step; finished, exactly those stay, and those whose removal is refused or whose link can be neither found in memory nor loaded; an unreadable directory changes nothing |
| Attachments.AnyHistory | netd/fwd_linux.go:155-370 | after any sequence of attach, detach, reclaim, close, restart and interface re-creation, with refused calls and a death at any step, every live link is pinned and a successful attach is the one live attachment of its interface |
| Handler.DeletionKeepsDelivery | netd/handler_linux.go:226-277 | removing entries never makes a local entry dangle |
| Handler.DeviceMayGoIff | netd/handler_linux.go:226-249 | an interface can be deleted without a dangling entry exactly when no local entry is left behind it |
| Handler.RecordedAt | netd/handler_linux.go:211-223 | recording a list of wired interfaces touches only their addresses and leaves each on an interface that wires it |
| Handler.RestartOrderIrrelevantIff | netd/handler_linux.go:172-224 | rewire-then-routes equals routes-then-rewire from an empty table if and only if the push agrees with the wiring on every address it names |
| Handler.RealPushAgreesIff | netd/handler_linux.go:172-224 | a push of real nodes does so exactly when it names no wired address |
| Handler.RestartRebuildsIff | netd/handler_linux.go:184-224 | after any run of sets, drops, prunes and pushes, rewiring an empty table and pushing the last push again gives the table before the restart if and only if the wiring agrees with the local operations outside that push; if it agrees everywhere, so does the other order |
| Handler.Helper.Forget | netd/handler_linux.go:239-249 | entries go one by one before the attachment; finished, exactly those the kernel lets go |
| Handler.Helper.Teardown | netd/handler_linux.go:226-249 | from a table that delivers, every step leaves one that delivers except, exactly, when the interface was deleted while an entry of it was held back |
| Handler.Helper.ForgetAll | netd/handler_linux.go:254-275 | finished, exactly the entries of unwanted interfaces that the kernel lets go are gone, and at every step no others |
| Handler.Helper.DeleteAll | netd/link_linux.go:305-330 | finished, exactly the unwanted interfaces the kernel lets go are gone, and at every step no others |
| Handler.CollectedDeliversIff | netd/handler_linux.go:254-277 | after a collection no entry dangles exactly when none was held back behind an interface that went |
| Handler.Helper.GC | netd/handler_linux.go:251-277 | finished, exactly the unwanted interfaces that can go are gone with exactly the entries that can go, and the table delivers if and only if none was held back behind one of them; if none is, every step delivers |
| Handler.Helper.RestoreOne | netd/handler_linux.go:211-223 | a restored interface is well attached and its address recorded, or a refused call or a full table is the reason |
| Handler.Helper.RestoreAll | netd/handler_linux.go:211-223 | success means every wired interface attached and the table equal to recording them in order; a failure means that some interface was refused a call or the table is full |
| Handler.RecordedDeliversIff | netd/handler_linux.go:211-223 | recording over leftover entries delivers exactly when each is on a present interface or overwritten |
| Handler.Helper.Rewire | netd/handler_linux.go:172-224 | success means exactly the rebuilt table and every interface well attached; with removals refused it is the rebuilt table over what was held back, and delivers if and only if that is harmless; every failure has a named reason |
| VaultCache.ReadLastsAtLeastTheFloor | agent/secret/vault.go:233-255 | every successful read is good for at least 5 s, a value without a lease for at most the cache time, and a lease comes exactly with a dynamic role |
| VaultCache.BackoffShape | agent/secret/vault.go:542-557 | retry delays start at 30 s, never decrease and are capped at 5 min from the fifth failure on |
| VaultCache.Vault.Serve | agent/secret/vault.go:200-219 | a cached value is served as it is; only its last use and its token change, never what it was read with |
| VaultCache.Vault.NextDeadline | agent/secret/vault.go:424-434 | the earliest deadline of the cache, none exactly when it is empty |
| VaultCache.Vault.Scan | agent/secret/vault.go:453-471 | idle entries are evicted with their leases, due ones listed, the rest untouched |
| VaultCache.Vault.Settle | agent/secret/vault.go:512-531 | a new value replaces data and lease, a renewal keeps them; both clear the failure record |
| VaultCache.Vault.Fail | agent/secret/vault.go:542-557 | one more failure, a delayed deadline, and the first failure's time kept |
| VaultCache.Vault.StaleFor | agent/secret/vault.go:568-576 | the time since the first failure, exactly for a stale entry |
| VaultProtocol.SettleAndFailFindTheirEntry | agent/secret/vault.go:445-565 | in every reachable state where a refresh comes back its entry is still there, with the lease the refresh began with |
| VaultProtocol.LeaseMoves | agent/secret/vault.go:445-508 | a step moves each lease to one determined place |
| VaultProtocol.LeaseOrigin | agent/secret/vault.go:445-508 | and a lease found after a step came from one determined place or was just issued |
| VaultProtocol.OnePlaceKept | agent/secret/vault.go:445-565 | no step puts a lease in two places |
| VaultProtocol.AccountedKept | agent/secret/vault.go:445-565 | no step loses a lease |
| VaultProtocol.SpecsMatchKept | agent/secret/vault.go:127-152 | every step keeps: an entry is filed under its own read's key, and whoever reads for it reads what it was inserted with |
| VaultProtocol.WakesInTimeKept | agent/secret/vault.go:396-421 | every step keeps: an asleep refresher's timer is no later than the earliest deadline, or the wake slot is full, or a fetch is about to signal |
| VaultProtocol.NoOversleep | agent/secret/vault.go:380-434 | at any point of any run, a deadline that has passed while the refresher sleeps has a step that wakes it |
| VaultProtocol.EveryRun | agent/secret/vault.go:127-508 | and every run |
| VaultProtocol.ReleasedForGood | agent/secret/vault.go:445-508 | in no run is a lease handed to revocation held again or handed over twice |
| VaultProtocol.LeaseConservation | agent/secret/vault.go:127-565 | in every interleaving each issued lease is in exactly one place: one cache entry, one goroutine, or revocation |
| VaultHistory.CacheAgreesKept | agent/secret/vault.go:206-219 | every step keeps the cache equal to what the log of recorded reads, failures, uses, attempts and evictions says |
| VaultHistory.PassesExactKept | agent/secret/vault.go:445-471 | every pass evicts exactly the idle and refreshes exactly the due, as the log defines them |
| VaultHistory.AnsweredKept | agent/secret/vault.go:472-508 | every key a pass found due is answered by one outcome before the next pass |
| VaultHistory.WorkPromptedKept | agent/secret/vault.go:445-508 | every step keeps: what the refresher is about to attend to was found due and has had no outcome since |
| VaultHistory.AttemptsAnsweredKept | agent/secret/vault.go:472-508 | every step keeps: each attempt has had its outcome or is in flight |
| VaultHistory.DeadlineAfterOutcome | agent/secret/vault.go:512-557 | a key's deadline lies at least 5 s, after failures at least the backoff, behind its last outcome |
| VaultHistory.EveryHistory | agent/secret/vault.go:127-565 | and every run |
| VaultHistory.ServedValueIsLastGood | agent/secret/vault.go:206-219 | over every run an entry holds the data and the read of the latest recorded success, and is stale since the first failure after it, exactly while failures are counted |
| VaultHistory.FirstFailureIsFirst | agent/secret/vault.go:542-557 | the recorded time belongs to a failure with no failure between it and the last success |
| VaultHistory.AttemptsAreSpaced | agent/secret/vault.go:27-49 | over every run an attempt on a key starts at least 5 s after every earlier outcome and attempt of it, and after n failures in a row at least the n-th backoff, whenever the earlier call came back |
| VaultHistory.FailureDelaysNextAttempt | agent/secret/vault.go:533-557 | over every run the attempt after a failed one starts at least the backoff, 30 s or more, after the failure came back |
| VaultHistory.ServedOwnReadIff | agent/secret/vault.go:200-219 | over every run a hit is answered with a value of the read that inserted the entry: the caller's own if and only if the caller asks for what the inserting fetch asked for, else one with the same key that can differ only in the store's configuration |
| VaultHistory.EditedStoreServesOldRead | agent/secret/vault.go:154-219 | a run in which a store is edited in place and the next hit is answered with the value read through the store as it was |
| VaultKey.ResolveFetch | agent/secret/vault.go:160-198 | the exact conditions of each refusal, and on success the first matching store of the secret's own namespace with trimmed sources |
| VaultKey.ShareKeyIff | agent/secret/vault.go:154-198 | two reads without a NUL share a cache key exactly when they agree on everything but the store's configuration |
| VaultKey.KeyIsPerReadIff | agent/secret/vault.go:154-198 | only reads that differ at most in the store's configuration share a read's cache key, if and only if none of its eight parts holds a NUL |
| VaultKey.EditedStoreSharesKey | agent/secret/vault.go:154-198 | whatever is edited in a store's configuration, the key stays |
| ImageStore.KeyIsPerPairIff | agent/oci/refs.go:34-46 | no other (namespace, source) pair shares a pair's file if and only if neither part holds a NUL |
| ImageStore.Store.Fetch | agent/oci/layout/layout.go:50-137 | blobs first and the entry last, so at every step every index entry's blobs are all there |
| ImageStore.Store.WriteRef | agent/oci/refs.go:53-78 | at every step every binding is its old self or the new one whole; what a death, a refused write, close, removal or rename leaves is said exactly: nothing, a torn temporary file, or a whole one |
| ImageStore.Store.Pull | agent/oci/image.go:37-75 | success makes the pair resolve to the pulled digest; no other pair's binding or resolution changes at any step and nothing is removed; dying between creating and filling the temporary file, or being refused the write and the removal, leaves it torn |
| ImageStore.Store.ListRefs | agent/oci/refs.go:112-142 | every binding, or failure exactly when some file is unreadable |
| ImageStore.Store.Reclaim | agent/oci/layout/store.go:136-178 | no blob of an index entry is removed at any step, and none at all when an image of the index cannot be read; finished, exactly the reachable ones remain |
| ImageStore.Store.DropEntry | agent/oci/layout/store.go:118-134 | dropping an entry no binding refers to leaves no binding dangling |
| ImageStore.Store.Remove | agent/oci/image.go:146-178 | the entry goes only when every file is readable and no binding refers to it, at any step; no other pair's resolution changes; finished, the blobs are exactly the reachable ones |
| ImageStore.Store.DropBindings | agent/oci/image.go:214-223 | correctly filed bindings of kept sources stay at every step; finished, exactly those and the ones whose removal is refused |
| ImageStore.Store.SweepIndex | agent/oci/image.go:226-249 | entries in use and unnamed ones stay at every step; finished, exactly those and the ones that cannot be dropped; an image that cannot be read stops it before the first |
| ImageStore.Store.Purge | agent/oci/image.go:180-256 | one unreadable binding and nothing at all is removed; without failure exactly the correctly filed bindings of kept sources and exactly the entries they refer to (and unnamed ones) remain, and with failures also exactly what was refused; a surviving binding resolves as before, at every step |
| ImageStore.Store.AnyHistory | agent/oci/image.go:37-256 | over every run of pull, remove and purge with a death at any step no readable binding dangles, a binding no operation is about still resolves, and a half-written temporary file stops all reclaiming |
| ImageStore.Store.TornPullStopsReclaiming | agent/oci/image.go:37-256 | one pull that dies there, or is refused the write and the removal, from any sound store: whatever is called afterwards, no index entry and no blob is reclaimed any more |
| Defaults.CollectThenApply | api/scheme/validation.go:129-189 | collecting a schema's defaults and applying them equals filling the document directly from the schema |
| Defaults.AuthoredIsKept | api/scheme/validation.go:165-189 | at every path the author wrote, the filled document has the same scalar, an array of the same length, or an object |
| Defaults.NothingIsConjured | api/scheme/validation.go:165-189 | every path the author did not write lies inside a declared default of a field missing from an object the author did write |
| Defaults.DeclaredIsSupplied | api/scheme/validation.go:165-189 | every such field holds exactly its declared default |
| Defaults.Collect | api/scheme/validation.go:129-160 | the walk, in any order of properties, builds the collected tree, or none when nothing is declared |
| Defaults.Apply | api/scheme/validation.go:165-189 | the filled document, and `changed` exactly when it differs from the input |
| Defaults.UnchangedIffFull | api/scheme/validation.go:165-189 | filling leaves a document alone exactly when no object in it lacks a field with a declared default |
| Defaults.IdempotentIff | api/scheme/validation.go:165-189 | filling is idempotent on all documents if and only if every declared default lacks nothing under its own schema |
| Defaults.ScalarsAreFull | api/scheme/validation.go:165-189 | a scalar default always meets that condition |
| Defaults.ObjectDefaultNeedsTwoPasses | api/scheme/validation.go:129-189 | a schema with an object default whose own field has a default is not idempotent |
| SecretEnv.RenderSecretEnv | agent/runtime/runtime.go:384-404 | a text exactly when every assignment has a valid name and a one-line value, and then one line each |
| SecretEnv.ReadSecretEnv | sandbox/sandbox.go:296-319 | the non-empty lines, or failure exactly when one is not an assignment; trimming newlines first changes nothing |
| SecretEnv.RoundTrip | sandbox/sandbox.go:296-319 | the sandbox reads back exactly the list the agent rendered, in order |
| SecretEnv.SortSorts | agent/runtime/runtime.go:422-433 | sorting is an ascending permutation |
| SecretEnv.SortedEqualIff | agent/runtime/runtime.go:410-420 | two sorted lists are equal exactly when the multisets are |
| SecretEnv.SecretEnvShapeChanged | agent/runtime/runtime.go:406-420 | a change is reported exactly when the list cannot be rendered or the multiset of names differs; a missing file changed exactly when the list is not empty; an unreadable one always |
| SecretEnv.RotationKeepsShape | agent/runtime/runtime.go:406-433 | rotating values leaves the names of the written file equal to the new list's |
| SecretDir.Directory.ReplaceFile | agent/runtime/runtime.go:216-259 | at every step the path is its old self or the new bytes with mode and owner settled; finished, exactly that, unless the temporary name was the path's own and could be removed; a failure has a named reason and leaves nothing, or the temporary file when its removal is refused |
| SecretDir.Directory.Fill | agent/runtime/runtime.go:244-257 | bytes, mode and owner are settled under the temporary name only |
| SecretDir.Directory.WriteFiles | agent/runtime/runtime.go:360-371 | every key gets its bytes; the result is what the order of keys and the temporary names make of the directory |
| SecretDir.Directory.Sweep | agent/runtime/runtime.go:372-381 | exactly the entries that are not keys and whose removal is granted go |
| SecretDir.Directory.WriteSecretDir | agent/runtime/runtime.go:337-382 | at every step a key of old and new content is whole old or whole new, a new key absent or whole; success is one of the outcomes order, temporary names and refused removals allow, and is exactly the new content from any starting directory when nothing obstructs it and no new key looks like a temporary file; every failure has a named reason |
| SecretDir.AlwaysExactIff | agent/runtime/runtime.go:337-382 | success is exact for every choice of temporary names if and only if none can succeed, or nothing outside the content is there whose removal is refused (a non-empty subdirectory always is) and no absent key has a removable name a temporary file could get |
| SecretDir.AmbiguousKeyCanBeLost | agent/runtime/runtime.go:233-259 | an absent key whose name is the temporary prefix and a 32-bit number is lost when the temporary file gets its name |
| SecretDir.FinalIsExactIff | agent/runtime/runtime.go:344-382 | a write that completes leaves exactly the content if and only if it lost no key to a temporary name and nothing obstructs it |
| SecretDir.LandedIsWritten | agent/runtime/runtime.go:344-371 | whatever order and names complete, every key holds its bytes apart from those that were their own temporary name |
| Netlink.AlignIsLeast | netd/netlink_linux.go:148-148 | no smaller multiple of four covers the length |
| Netlink.Attr | netd/netlink_linux.go:120-128 | the filled buffer is length, type, value and zero padding |
| Netlink.AttrNested | netd/netlink_linux.go:139-146 | the nest holds its children's encodings in order under the flagged type |
| Netlink.DecodeEncode | netd/netlink_linux.go:120-148 | walking the bytes by aligned lengths recovers every tree that fits |
| Netlink.DecodedLength | netd/netlink_linux.go:120-148 | whatever bytes decode are as long as the encoding of what they decode to |
| Netlink.DecodesBackIff | netd/netlink_linux.go:120-148 | the trees are recovered if and only if every length fits 16 bits and no type carries the nesting flag |

## Left out

- HTTP, TLS, login and JSON decoding against the secret store: a read, renewal or revocation is a step with an arbitrary answer.
- Metadata of a secret store other than its namespace and name: no read depends on it.
- A refresh attempt is the renewal call together with the re-read that follows a failed renewal; the pause between the two is not bounded from below.
- Concurrent changes of interfaces inside one call of the network helper: they happen between calls.
- Kernel writes refused for another reason than a full map.
- A secret store that hands out a lease id twice: every successful dynamic read brings a lease not issued before, and a renewal keeps its lease.
- The log line `fail` writes and the staleness report over an application's secrets.
- Overflow of 64-bit durations: times are unbounded integers.
- One clock reading per locked section: where a section reads the clock twice the model reads it once.
- Parsing of addresses and prefixes from text: a rule or a route carries an address already parsed, or none.
- Big-endian hosts: indices and ports are laid out as on a little-endian host.
- Kernel behaviour beyond the stated calls: loading and pinning eBPF programs and maps, network namespaces, veth creation, mounts, capabilities, cgroups.
- `SetupWorkloadNetwork` and its failure paths.
- Digest-derived interface names and SHA-256 are taken as injective on the values in play.
- Syscall name tables: an arbitrary map from names to numbers.
- Download, verification and unpacking of layers, image limits and the store budget: a pull is answered with a digest or a refusal before anything is written, and its blobs then appear one by one.
- Two index entries that agree in name and digest are one entry of the model; the original would report the second removal as an error.
- The list of removed names that a purge returns.
- Defaults.Apply: does not model that the original fills its argument's own containers, so a default that is an object is shared between documents in the original and copied here.
- The decoding, custom defaulters and re-encoding around the schema defaults in `Default`, and the validator.
- A write that stops in the middle of a file: a file is empty, then whole.
- Directory modes and ownership of the secret directory itself.
- That os.CreateTemp gives up after ten thousand names: the list of names it tries is a parameter of any length.
- Strings are sequences of characters; the original's byte strings and their UTF-8 decoding are not distinguished.
- `attrString`, `attrU32`, netlink messages and their replies: leaves of the attribute tree, or transport.
- The Consul catalog, scheduler, storage, REST handlers, authorization, PKI, CLI, metrics and generated code.
