# Skia in Dafny

Skia routes the connections of an application through a SOCKS5 proxy. It answers name lookups with fake addresses from
240.0.0.0/8, remembers which name each address stands for, and replaces `connect`, so that a connection to a fake address
becomes a proxied or a direct connection to the name. Its tables are guarded by a reader/writer lock that it ships
itself. A daemon keeps the proxy configurations.

The project models this from the lock upwards and proves properties of the model.

* **The lock** (`GateLock`, `GateLockSafety`, `GateLockEffects`, `GateLockWriters`, `GateLockProgress`,
  `SharedMutex`, `Bits`). `GateLock`
  is a transition system over any number of threads: every stretch of code between taking the internal mutex and a wait or
  return is one step, notifications pick any sleeper, waits may end spuriously or at their deadline. A step that its
  thread cannot take leaves the state alone, so "every interleaving" is "every sequence of events". `SharedMutexBase`
  is the class with the packed 32-bit word, whose methods are shown to be runs of that system: their own steps with the
  steps of other threads wherever they sleep. A *nap* is what others do while a call sleeps; a call that runs out of naps is
  `Waiting`. A word is a natural number below 2^32 with `&` and `|` on its binary digits. The number of readers the count
  field can hold is a parameter of the transition system and 2^31 - 1 in the class.
* **The owning handle** (`SharedLock`). `shared_lock` as a class, and a ledger of all handles and mutexes of a program in
  which every shared hold is accounted for.
* **The fake addresses** (`ResolveTable`, `ResolveRace`, `AddressCodec`). The two maps and the wrapping cursor as a class
  with a history of allocations, shown to be a ring over every sequential run; then the same table shared by threads that
  look up and allocate in two separate critical sections. The ring size is a parameter. `AddressCodec` has the
  bit arithmetic between indices and addresses and the networks that are never proxied.
* **The proxy cache** (`ProxyCache`). Keys, every interleaving of lookups, script calls and stores, and when an answer is
  final. The configuration script is an arbitrary source of answers.
* **SOCKS5 and the connect hook** (`Socks5`, `SocksClient`, `ConnectHook`). The messages of RFC 1928 sections 3 to 6 with
  an independent reader for what the client writes and a grammar for what it accepts; the send and receive loops and
  the handshake over a connection whose system calls move as many bytes as they like; descriptors, descriptions and flags of
  the process; and the replaced `connect`.
* **End to end** (`Transparency`). Resolving a name and connecting to the address reaches the name.
* **The daemon** (`BatchUpdate`, `DaemonArguments`, `DaemonStore`). The argument list of a configuration and the reader that
  searches it, batch updates in any order of enumeration, and the status.

The two lower layers justify the upper ones: by `Exclusion` the critical sections of the table and of the cache are atomic
steps.

## Where the code does not do what one would expect

* A lock whose reader count is full wakes one sleeper when the first reader leaves and none when the next ones do. Reader
  threads can then sleep on a free lock. `StuckThreshold` gives the exact bound: it cannot happen exactly if there
  are at most one more threads than the count field can hold readers.
* `name_to_index` releases the lock between its miss and its allocation. Two threads can give one name two
  addresses (both stay good: `AnswersStayValid`), the name map is then smaller than the ring, and the eviction is skipped when
  the ring is reused. `RaceBreaksCoherence` builds such a run for every ring of three slots or more and
  `CoherenceIsKeptIff` says exactly when an allocation does harm.
* The guard against fake addresses without a name does not ask whether the target is IPv6, and when it fires the
  hook closes a descriptor variable that was never assigned. `ClosesUnsetIff` shows that this is confined to IPv6
  targets that start with 0xf0; for IPv4 targets it cannot happen.
* `timed_connect` takes a connection that is made at once for an error.
* A `shared_lock` that is move-assigned to itself gives its hold back and ends up empty.
* The status of a daemon is read by searching the argument list for flags, so a value that equals a later flag is
  misread, unless the word after it happens to be the right one: `StatusIff` has the exact condition. A rename
  that changes only the case of letters may delete the configuration: `RenameByCase`.
* An answer of the script that may be remembered is final only if no earlier lookup of the same pair is still under way:
  `FinalIff`.

## Model

| member | source | states |
|---|---|---|
| GateLockSafety.RunKeepsInv | libc++/shared_mutex.cpp:26-102 | in every run the count field is the number of shared holders, the flag belongs to exactly one thread draining or holding, a holding writer excludes readers, and nobody sleeps at gate2 without readers |
| GateLockSafety.Exclusion | libc++/shared_mutex.cpp:26-102 | for any number of threads and any run: one exclusive holder at most and then no shared holder; the flag is set exactly when one thread is at gate2 or holds exclusively; the count is the number of shared holders and within the cap |
| GateLockSafety.RefinesPlainLock | libc++/shared_mutex.cpp:26-102 | every atomic step is one legal move, by the same thread, of a plain lock made of an optional writer and a set of readers, or none |
| GateLockSafety.ReleaseRefines | libc++/shared_mutex.cpp:49-102 | an unlock by a holder always takes effect and removes exactly the caller's hold |
| GateLockEffects.UnlockReleases | libc++/shared_mutex.cpp:49-55 | unlock() by the holder always leaves the lock free, the caller idle, nobody asleep at gate1 and everyone else where they were |
| GateLockEffects.SomePick | libc++/shared_mutex.cpp:92-101 | there is always a thread that notify_one may pick |
| GateLockEffects.UnlockSharedReleases | libc++/shared_mutex.cpp:85-102 | unlock_shared() by a holder always takes effect, also while a writer drains: exactly this reader goes, the count falls by one, the flag stays, only the notified thread changes |
| GateLockEffects.CallIsExact | libc++/shared_mutex.cpp:26-68 | the first step of an acquisition acquires exactly when the plain lock is free for it and no writer drains; a writer with readers in its way goes to gate2; otherwise it parks |
| GateLockEffects.WakeAtGate1IsExact | libc++/shared_mutex:249-259 | so does every wake-up at gate1, and one that is still blocked at its deadline leaves |
| GateLockEffects.DrainedWriterHolds | libc++/shared_mutex:263-267 | a wake-up at gate2 with no reader left makes the writer the holder, deadline or not |
| GateLockEffects.DrainingWriterWaits | libc++/shared_mutex.cpp:33-34 | with readers left it parks again and nothing else changes |
| GateLockEffects.DrainingWriterGivesUp | libc++/shared_mutex:268-273 | at its deadline, with readers left, it clears the flag, wakes everyone at gate1 and changes nobody's ownership |
| GateLockSafety.AttemptIsExact | libc++/shared_mutex.cpp:37-47 | a try-lock succeeds exactly when the plain lock is free for it and no writer is draining, and otherwise changes no ownership |
| GateLockSafety.LastReaderWakesWriter | libc++/shared_mutex.cpp:92-96 | the last reader's notify_one wakes exactly the draining writer |
| GateLockWriters.DrainCounts | libc++/shared_mutex.cpp:32-34 | while a writer drains nobody joins: the count is what it was less the unlock_shared steps taken, and at zero the writer has been notified |
| GateLockWriters.LeavesGate2 | libc++/shared_mutex.cpp:33-34 | a writer without a deadline leaves gate2 only by its own wake-up with no readers left, and then holds |
| GateLockWriters.WriterDrains | libc++/shared_mutex.cpp:26-35 | in every run an untimed writer that has set the flag holds after exactly as many unlock_shared steps as there were readers plus its own wake-up, and drains until then |
| GateLockWriters.TimeoutRollsBack | libc++/shared_mutex:265-273 | giving up at a deadline changes nobody's ownership, clears the flag exactly if this call had set it, and then leaves nobody asleep at gate1 |
| GateLockWriters.TimedSuccessIsBlocking | libc++/shared_mutex:243-301 | a deadline call that does not give up goes through the same states as the blocking call, and a success is the state that would leave |
| GateLockProgress.NoStrandedWaiter | libc++/shared_mutex.cpp:26-35 | with few enough threads a sleeper at gate1 is blocked by the flag or a full count, and a sleeper at gate2 by an existing reader |
| GateLockProgress.NeverStuck | libc++/shared_mutex.cpp:85-102 | with at most cap + 1 threads no run ends with sleepers on a free lock |
| GateLockProgress.ForgetfulIsStuck | libc++/shared_mutex.cpp:97-101 | with more threads there is such a run |
| GateLockProgress.StuckThreshold | libc++/shared_mutex.cpp:85-102 | lost wake-ups are impossible exactly up to cap + 1 threads |
| SharedMutex.Masks | libc++/shared_mutex:149-152 | every mask and or of the source on the packed word as arithmetic on flag and count: no carry into the flag, no borrow from it |
| SharedMutex.PackUnpack | libc++/shared_mutex:149-152 | the word determines flag and count and is determined by them |
| SharedMutex.SharedMutexBase.ValidKeepsInv | libc++/shared_mutex.cpp:19-22 | an object reached by its methods is in a reachable state of the transition system and keeps its invariant |
| SharedMutex.SharedMutexBase.constructor | libc++/shared_mutex.cpp:19-22 | the initial word is the initial lock |
| SharedMutex.SharedMutexBase.RaiseFlag | libc++/shared_mutex.cpp:32 | setting the flag leaves the count |
| SharedMutex.SharedMutexBase.LowerFlag | libc++/shared_mutex:270 | clearing the flag leaves the count |
| SharedMutex.SharedMutexBase.StoreReaders | libc++/shared_mutex.cpp:66-67 | replacing the count leaves the flag |
| SharedMutex.SharedMutexBase.Lock | libc++/shared_mutex.cpp:26-35 | lock() is its own atomic steps interleaved with those of others during its waits, and returns only as the sole holder, the word being the flag alone |
| SharedMutex.SharedMutexBase.DrainReaders | libc++/shared_mutex.cpp:33-34 | the same for the wait at gate2 |
| SharedMutex.SharedMutexBase.TryLock | libc++/shared_mutex.cpp:37-47 | try_lock() succeeds exactly on the word 0, which becomes the flag alone, and otherwise changes nothing |
| SharedMutex.SharedMutexBase.Unlock | libc++/shared_mutex.cpp:49-55 | the word becomes 0, the lock is free, the caller idle and nobody asleep at gate1; everyone else is where they were, so no reader is discarded |
| SharedMutex.SharedMutexBase.LockShared | libc++/shared_mutex.cpp:59-68 | lock_shared() is its own steps interleaved with those of others, and returns only as shared holder |
| SharedMutex.SharedMutexBase.TryLockShared | libc++/shared_mutex.cpp:70-83 | try_lock_shared() succeeds exactly on a word without flag and below the full count, which grows by one, and otherwise changes nothing |
| SharedMutex.SharedMutexBase.UnlockShared | libc++/shared_mutex.cpp:85-102 | the word falls by one, exactly the caller's share goes, and of the others only the notified thread changes |
| SharedMutex.SharedMutexBase.TryLockUntil | libc++/shared_mutex:243-277 | try_lock_until() is its own steps, deadlines included, interleaved with those of others; true holds, false is idle |
| SharedMutex.SharedMutexBase.AwaitGate1Until | libc++/shared_mutex:249-259 | the wait at gate1 of the deadline operations |
| SharedMutex.SharedMutexBase.DrainReadersUntil | libc++/shared_mutex:261-275 | the wait at gate2 of a writer with a deadline |
| SharedMutex.SharedMutexBase.GiveUp | libc++/shared_mutex:268-273 | the rollback is the giving-up step |
| SharedMutex.SharedMutexBase.TryLockSharedUntil | libc++/shared_mutex:279-301 | try_lock_shared_until() is its own steps interleaved with those of others; true holds, false is idle |
| SharedLock.Handle.MovedFrom | libc++/shared_mutex:370-377 | the new handle takes over, the old one is empty |
| SharedLock.Handle.MoveAssign | libc++/shared_mutex:379-391 | gives back what the target owned, takes over, empties the source; self-move empties |
| SharedLock.HeldMove | libc++/shared_mutex:379-391 | a move changes the number of owners of a mutex only by what the target owned, self-moves included |
| SharedLock.HeldSwap | libc++/shared_mutex:402-407 | a swap changes no number of owners |
| SharedLock.Ledger.NewLocked | libc++/shared_mutex:320-324 | conservation: the new hold belongs to the new handle |
| SharedLock.Ledger.NewTryToLock | libc++/shared_mutex:332-336 | conservation: the handle owns exactly what was granted |
| SharedLock.Ledger.NewDeferred | libc++/shared_mutex:326-330 | conservation: nothing is taken |
| SharedLock.Ledger.NewAdopted | libc++/shared_mutex:338-342 | conservation: a direct hold becomes the handle's |
| SharedLock.Ledger.NewMoved | libc++/shared_mutex:370-377 | conservation under move construction |
| SharedLock.Ledger.MoveAssign | libc++/shared_mutex:379-391 | conservation under move assignment, self-move included: reader counts equal owning handles plus direct holds |
| SharedLock.Ledger.Swap | libc++/shared_mutex:402-407 | conservation under swap |
| SharedLock.Ledger.Release | libc++/shared_mutex:409-416 | release() turns the handle's hold into a direct one |
| SharedLock.Ledger.Lock | libc++/shared_mutex:429-439 | null and double locking are errors that change nothing; otherwise the handle owns one more hold |
| SharedLock.Ledger.TryLock | libc++/shared_mutex:441-477 | the same for the try and deadline forms |
| SharedLock.Ledger.Unlock | libc++/shared_mutex:479-487 | unlocking without a hold is an error that changes nothing; otherwise one hold goes back |
| SharedLock.Ledger.Destroy | libc++/shared_mutex:360-365 | an owning handle gives its hold back at its end |
| ResolveTable.SlotIsRemainder | skia.cpp:185 | the recursive slot of an allocation is its remainder by the ring size |
| ResolveTable.OnlyOwner | skia.cpp:174-181 | the eviction scan finds the one owner of the slot about to be reused, whatever the order of the map |
| ResolveTable.AllocateKeepsRing | skia.cpp:171-188 | allocating an absent name turns the ring of a history into the ring of the longer history |
| ResolveTable.RingContents | skia.cpp:171-202 | after any history the two maps are mutually inverse and hold exactly its last entries up to the ring size, entry i at slot i modulo the size |
| ResolveTable.SequentialRunsAreRings | skia.cpp:171-202 | every sequence of lookups, hits and misses, leads to the ring of its allocations |
| ResolveTable.StabilityWindow | skia.cpp:171-213 | a name keeps its slot, and the slot its name, through the next size - 1 allocations; exactly the size-th removes the name and hands the slot to the new one |
| ResolveTable.ResolveTable.constructor | skia.hpp:61-71 | an empty table is the ring of the empty history |
| ResolveTable.ResolveTable.EvictOwner | skia.cpp:175-180 | the scan erases the first owner it meets, or nothing if there is none |
| ResolveTable.ResolveTable.MakeIndex | skia.cpp:171-188 | make_index is one allocation, with or without eviction, and returns the slot it used |
| ResolveTable.ResolveTable.NameToIndex | skia.cpp:190-202 | a known name gives its slot and changes nothing; an unknown one is appended to the history; the answer resolves to the name |
| ResolveTable.ResolveTable.IndexToName | skia.cpp:204-213 | what the index map says, and in sequential use the name of the one history entry that occupies the slot, or the empty one |
| ResolveRace.NameToIndex | skia.cpp:190-202 | on a table used by other threads: one lookup, and after a miss one allocation that follows whatever the others did meanwhile; the answer is recorded as given |
| ResolveRace.AnswersStayValid | skia.cpp:171-213 | in every interleaving with at most size allocations in all, every answer ever given resolves to its name in all later states, raced names included |
| ResolveRace.AllocationsLast | skia.cpp:171-213 | in any run an allocation's slot resolves to its name until size more allocations |
| ResolveRace.RaceFreeRunsAreRings | skia.cpp:190-202 | interleaved runs without a double allocation keep the strong ring |
| ResolveRace.CoherenceIsKeptIff | skia.cpp:174-183 | one make_index keeps names and slots coherent exactly when the scan runs or nobody else owns the slot |
| ResolveRace.RaceBreaksCoherence | skia.cpp:174-199 | for every ring of three slots or more a run with one race that leaves two names on one slot |
| AddressCodec.ByteOrder | skia.cpp:215-221 | ntohl and htonl are inverse |
| AddressCodec.IndexRoundTrip | skia.cpp:215-233 | every index of the ring has the address 240.0.0.0 plus index plus one, which passes is_resolved_addr and decodes to it |
| AddressCodec.AddrRoundTripIff | skia.cpp:215-233 | an address comes back from its index exactly if it is 240.x.y.z but not 240.0.0.0, which decodes to the index that no table holds |
| AddressCodec.ShouldBypass | skia.cpp:82-93 | true exactly if an IPv4 target matches a network of the list and its port |
| AddressCodec.PortOfNetwork | skia.cpp:87 | a network with a port matches on that port only, and one with port 0 on every port |
| AddressCodec.BypassedIff | skia.hpp:40-45 | the configured networks are exactly loopback and the three private ranges; no fake address is in one |
| ProxyCache.KeyInjective | skia.cpp:136 | the key determines name and port for all names, colons included, and all ports |
| ProxyCache.RunsAreCoherent | skia.cpp:131-153 | in every interleaving cached answers are ones the script gave for that key and allowed to be remembered, and callers are told what it gave for their very pair |
| ProxyCache.CachedIsUncached | skia.cpp:131-153 | with a deterministic script every caller in every interleaving is told what an uncached lookup would say |
| ProxyCache.FinalIff | skia.cpp:137-151 | a cached answer survives every continuation exactly when no call under way can store another for the pair |
| ProxyCache.LaterLooks | skia.cpp:138-141 | once it is final, every later lookup is told the same and changes nothing |
| ProxyCache.FirstAnswerStays | skia.cpp:137-151 | with nobody else looking anything up, the first answer that may be remembered is final |
| ProxyCache.Skia.QueryProxy | skia.cpp:131-153 | the method is the steps of one lookup, with those of others while the lock is free, and returns the answer it records |
| Socks5.ClientRoundTrip | posix.cpp:171-210 | from the greeting and the request an independent reader recovers the offered method, the target and the port; names up to 255 bytes whole, longer ones their first 255 |
| Socks5.ReplySize | posix.cpp:228-243 | a complete successful reply is 10, 7 + L or 22 bytes long and its length can be told from its first bytes |
| Socks5.AcceptsIff | posix.cpp:177-243 | the client accepts exactly the streams that start with 05 00 and one complete successful reply, and reads exactly those bytes |
| SocksClient.Connection.SendBytes | posix.cpp:70-87 | for every split by send: all bytes in order, or a prefix and a failure |
| SocksClient.Connection.RecvBytes | posix.cpp:89-107 | for every split by recv: exactly the next len bytes of the stream at the start of the buffer, nothing beyond touched; fails exactly for a fault or a short stream |
| SocksClient.Connection.Greet | posix.cpp:171-183 | sends the greeting, succeeds exactly if the server takes "no authentication" |
| SocksClient.Connection.SendRequest | posix.cpp:184-210 | sends exactly the request of the target, or a prefix and a failure |
| SocksClient.Connection.SendHost | posix.cpp:189-210 | sends the address, or the length byte and as much of the name as it says |
| SocksClient.Connection.ReadReply | posix.cpp:211-243 | takes exactly a complete reply off the stream within the 1024-byte buffer, and succeeds exactly on a complete successful one |
| SocksClient.Connection.Handshake | posix.cpp:171-245 | without faults it succeeds exactly on accepted streams, takes exactly the accepted bytes and has sent exactly greeting and request; at no time anything else |
| ConnectHook.TimedConnect | posix.cpp:45-68 | succeeds only through EINPROGRESS and select, and leaves the socket blocking on every path |
| ConnectHook.ExtractedBytes | skia.cpp:111-129 | IPv4 and mapped addresses keep their four bytes in order, the others all sixteen |
| ConnectHook.MappedIff | skia.cpp:111-129 | exactly the IPv4-mapped IPv6 addresses are treated as the plain IPv4 target |
| ConnectHook.RequestNames | posix.cpp:189-210 | from a complete request the proxy reads the four or sixteen bytes of an ordinary address as they are, and for a fake IPv4 address the name cut at 255 bytes |
| ConnectHook.PassedOnIff | posix.cpp:253-269 | in terms of bytes: passed on are exactly calls on anything but an open stream socket, to other families, and to 127/8, 10/8, 172.16/12 and 192.168/16, plain or mapped; IPv6 is not |
| ConnectHook.AskedAbout | skia.cpp:155-164 | the script is asked about the port as a number and about the numeric form of an ordinary address or the name of a fake one; a direct connection looks up the same; the guard refuses exactly first byte 240 without a name |
| ConnectHook.MakeDirect | posix.cpp:109-150 | connects the first usable address of any candidate list, succeeds exactly if there is one, opens one descriptor then and none otherwise |
| ConnectHook.MakeProxied | posix.cpp:152-251 | succeeds exactly if the guard passes, the proxy can be reached and the handshake succeeds; the proxy has then read the target's own bytes or its name; one new descriptor then, and none otherwise |
| ConnectHook.Connect | posix.cpp:253-290 | which of the three ways a call takes; after a proxied success the proxy has read the destination of the socket address; success puts a new stream behind the caller's descriptor with its O_NONBLOCK flag as before and -1/EINPROGRESS exactly if it was set; failure is -1/ETIMEDOUT; the set of open descriptors is unchanged exactly if no unset one is closed |
| ConnectHook.HandOver | posix.cpp:274-285 | the new socket takes the caller's place, keeping the flag |
| ConnectHook.OthersKeep | posix.cpp:275-285 | after a success all other descriptors refer to what they referred to, with their flags |
| Transparency.AnsweredAddress | skia.cpp:190-202 | what a lookup answers is the slot of an allocation of that name, its own if the name was unknown |
| Transparency.AddressKeepsName | skia.cpp:223-229 | the address decodes to the name through the stability window |
| Transparency.FakeAddressReachesHost | posix.cpp:253-273 | a fake address of h on a port other than 0, plain or mapped, is never bypassed, has the script asked about h and the port number, and ends in a SOCKS request for h and that port or a direct lookup of h |
| Transparency.Transparent | posix.cpp:368-403 | from any reachable table: the address a name gets, used within the window, reaches the host |
| Transparency.TransparentUnderRaces | posix.cpp:368-403 | the same in every interleaving while at most as many allocations have been made as the ring has slots |
| Transparency.ReservedAddress | skia.cpp:219-229 | 240.0.0.0 has no name in any reachable table, so the guard refuses IPv6 targets that start with it |
| Transparency.ClosesUnsetIff | posix.cpp:153-156 | the hook closes a descriptor it never opened only for an IPv6 target with an unnamed fake first word |
| BatchUpdate.SameFile | skiad.mm:100-114 | if operations on the same file agree, each file ends up the same in any two orders |
| BatchUpdate.IndependentIff | skiad.mm:100-114 | a batch does the same in every order of enumeration exactly if operations on the same file agree |
| DaemonArguments.StatusIff | skiad.mm:61-88 | a stored configuration is read back as it was exactly under the stated condition on values that look like flags, and can always be read |
| DaemonStore.OpIsExact | skiad.mm:33-72 | exactly what one name does to the files: an invalid name or an incomplete configuration nothing, an empty one removes, one with all five fields stores each value behind its flag |
| DaemonStore.RequestChangesOnly | skiad.mm:98-115 | over whole requests in every order: a file changes only if a valid name lower-cases to it whose configuration is empty or has all five fields |
| DaemonStore.ListedIff | skiad.mm:77-78 | the listed files are exactly those with the prefix and the extension, and the name is what is between them less one character |
| DaemonStore.FileNameRoundTrip | skiad.mm:48-50 | the status recovers the lower-cased name from the file name |
| DaemonStore.DistinctNamesAgree | skiad.mm:98-115 | if valid names stay distinct when lower-cased a request does the same in every order |
| DaemonStore.RenameByCase | skiad.mm:98-115 | a rename that changes only the case of letters keeps or deletes the configuration depending on the order |
| DaemonStore.BatchKeepsTidy | skiad.mm:98-115 | the daemon's own files stay readable and named by it |
| DaemonStore.StatusAfterBatch | skiad.mm:74-119 | in every order the status then has each valid configuration under its lower-cased name, as stored exactly if it is legible |
| DaemonStore.RemovedIsGone | skiad.mm:109-112 | an empty configuration removes the entry |
| DaemonStore.SkiaService.DaemonsStatus | skiad.mm:74-92 | fails exactly if some listed file cannot be read, and otherwise has an entry for every listed file and no other |
| DaemonStore.SkiaService.UpdateDaemon | skiad.mm:100-114 | the effect of one name: ignored, removed or written; with a field missing or empty nothing changes |
| DaemonStore.SkiaService.ProcessDaemonsRequest | skiad.mm:98-119 | a request with names is the batch in the order of enumeration; one without is the status |

## Left out

- SharedMutex.SharedMutexBase.Lock: a wait is a list of naps chosen by the caller, so whether a call ever gets through is not a statement about the method; `GateLockWriters.WriterDrains` and `GateLockProgress.StuckThreshold` say what runs do.
- SharedLock.Ledger.Lock: the mutex behind a handle is its number of shared holds; that this number is the lock's count field is `GateLockSafety.Exclusion`.
- ResolveTable.ResolveTable.NameToIndex: stated for one thread at a time; `ResolveRace.NameToIndex` is the same method with others in between.
- SocksClient.Connection.ReadReply: the numeric form of the target that the source writes into the same buffer for its log, before it is overwritten by the reply, is not modelled.
- ConnectHook.TimedConnect: what select and SO_ERROR report is one bit; its ten seconds and the repetition after EINTR are not modelled.
- ConnectHook.MakeDirect: getaddrinfo is an arbitrary function from the name to a candidate list, and hints are not modelled (the source fills them in and then passes none).
- ConnectHook.Connect: the original connect, inet_ntop, the script and the kernel's choice of descriptors are arbitrary parameters.
- Transparency.Transparent: which names the lookup hooks leave to the original resolver (empty, numeric and local ones) is not modelled, the theorem being for every non-empty name that reaches the table; nor is the rest of those hooks (AI_NUMERICHOST, the per-thread switch, `gethostbyname`, canonical names, service names); the port is the one given to connect.
- Transparency.ClosesUnsetIff: the fake-address guard for IPv6 targets is modelled as the source has it, and so the transparency theorems are for IPv4 and IPv4-mapped targets only.
- DaemonStore.SkiaService.ProcessDaemonsRequest: launchctl, failing file operations and the other keys of a property list are not modelled; the validity of names and lower-casing are arbitrary functions.
- Memory exhaustion, logging, and the JavaScript runtime behind the script (its answer for a name and a port, with host and port already turned into an address, is an arbitrary value).
- The asynchronous resolver, `gethostbyname`, `gethostbyaddr` and `getnameinfo` hooks: platform plumbing around the same two table lookups.
- `netcore.cpp`, `config.cpp`, the preference bundle, the web views and the sample scripts: they would add only easy members.
