# Verified models of rust-vmm components

rust-vmm is a set of libraries for building virtual machine monitors.  This project models the parts of four of
them in which state, order or arithmetic is easy to get wrong, and proves what they are meant to guarantee.

**event-manager** dispatches epoll events to subscribers and lets other threads send closures to the thread that
owns the manager.

- `RemoteEndpoint.dfy`, `RemoteHistory.dfy`, `RemoteLiveness.dfy`: the cross-thread protocol (channel, eventfd
  counter, epoll, reply channels) as interleaved steps.  No wakeup is lost, closures are executed once and in order, and callers get their
  own results.  On fair executions every closure is executed and every blocking call returns, exactly if epoll keeps
  watching the eventfd.
- `EventDispatch.dfy`, `EventHistory.dfy`: registration and dispatch as functions on values, while callbacks change the
  registrations under the loop; what is delivered, to whom, why the `unreachable!` branches are dead, and how the
  tables follow from all that was done.
- `EndpointDispatch.dfy`, `EndpointSteps.dfy`: what becomes of the manager's own channel descriptor among all this, and
  which steps of the protocol a round amounts to.
- `EventManager.dfy`: the objects themselves, with their ready array, proved against these specifications.

**vm-memory** gives access to guest memory made of regions, possibly behind an IOMMU.

- `RangeMaps.dfy`, `Iotlb.dfy`: the translation table, coalescing entries by their wrapped difference, against a plain
  per-address map; lookups with exact failure reports; the iterator over a translated range.
- `GuestRegions.dfy`, `GuestSlices.dfy`, `IommuMemory.dfy`: collections of regions, slices of them, and the nested
  iterator over a translated range.
- `GuestBytes.dfy`: reading and writing bytes, physically and behind an IOMMU.
- `GuestMemoryAtomic.dfy`: publishing memory maps to readers that hold snapshots.
- `VolatileCopy.dfy`: copying with naturally aligned accesses.

**acpi_tables** emits ACPI tables and AML bytecode.

- `PkgLength.dfy`, `AmlData.dfy`, `AmlEncoder.dfy`, `AmlPath.dfy`: the encoder, a parser of sections 20.2.2 to 20.2.4
  of the ACPI specification, and the exact set of objects for which one undoes the other.
- `Checksum.dfy`, `TableHeader.dfy`, `CountedTable.dfy` and one file each for RHCT, RIMT, VIOT, PPTT, MADT, SLIT and
  `Sdt`: tables that maintain checksum, length and node offsets incrementally instead of computing them from the
  bytes.

**vm-allocator** hands out ids: `IdAllocator.dfy`.

`Basics.dfy`, `ByteStrings.dfy` and `PciDevice.dfy` hold what the others share.  `dafny verify dfyconfig.toml` checks
everything.

## Properties that turned out not to hold everywhere

Each has an exact condition and a lemma or method with a concrete case.

- RIMT and VIOT add 1 to the running checksum per node instead of exchanging the bytes of the count.  The emitted
  bytes sum to zero if and only if the upper bytes of the count do (`Rimts.Rimt.SumsToZeroIff`,
  `Viots.Viot.SumsToZeroIff`), so not with 256 nodes
  (`Rimts.TooManyDevices`, `Viots.TooManyNodes`).
- `SLIT::set_distance` adjusts the checksum for two entries, also when they are the same one.  The bytes sum to zero
  if and only if the diagonal exceeds 10 by a multiple of 256 in all (`Slits.Slit.SumsToZeroIff`,
  `Slits.DiagonalDistance`).
- The two-byte node lengths of RHCT and RIMT overflow for nodes of 65536 bytes or more, and the table cannot be walked
  (`Rhcts.Rhct.ReadsBack`, `Rhcts.LongIsaString`, `Rimts.Rimt.ReadsBack`, `Rimts.LongName`).
- The element count of an AML package is one byte, so a package of 256 elements cannot be parsed (`AmlData.RoundTrip`,
  `AmlData.TooManyElements`, `AmlData.LargePackage`).
- AML strings are emitted without looking at their characters; section 20.2.3 of the ACPI specification only knows
  ASCII ones (`AmlData.RoundTrip`, `AmlData.AccentedString`).
- A new PPTT has no checksum until something is added (`Pptts.Pptt.SumsToZeroIff`, `Pptts.BareTable`), and its
  one-byte node length overflows for a processor with 59 or more caches (`Pptts.NodeRoundTrip`,
  `Pptts.Pptt.ReadsBack`, `Pptts.FiftyNineCaches`).
- `Events::with_data_raw` loses the user data of a negative descriptor (`EventDispatch.PackingRoundTrip`,
  `EventDispatch.NegativeDescriptor`).
- Subscribers can operate on the manager's own channel descriptor.  Registering it for output lets a later round
  reach an `unreachable!`, and nothing else does (`EndpointDispatch.EndpointPanicsIff`,
  `EndpointDispatch.ModifiedChannelMask`).  Removing it disconnects the remote endpoint for good
  (`EndpointDispatch.LostForEver`, `EndpointDispatch.RemovedChannel`), so blocking calls wait for ever
  (`RemoteLiveness.ReturnsIffWatched`, `EndpointSteps.LostCallsWait`).
- A stale watch list lets `remove_subscriber` silence a descriptor of another subscriber
  (`EventDispatch.RemoveSubscriberScope`, `EventDispatch.StaleWatchList`).
- A writer of `GuestMemoryAtomic` that loads the map before it takes the lock can lose an update
  (`GuestMemoryAtomics.LostUpdatesExact`, `GuestMemoryAtomics.LoadBeforeLock`).
- Behind an IOMMU, what was written is not always what is read back (`GuestBytes.WriteThenRead`,
  `GuestBytes.AliasedReadBack`).
- `create_pkg_length` is not minimal for six lengths that do not include themselves
  (`PkgLengths.FieldLengthShortest`, `PkgLengths.ShorterField`).

## Model

| member | source | states |
|---|---|---|
| `RemoteEndpoint.InitInv` | event-manager/src/endpoint.rs:63-86 | a new channel with its eventfd at zero satisfies the protocol invariant |
| `RemoteEndpoint.StepInv` | event-manager/src/endpoint.rs:107-189 | the invariant (FIFO order, each message sent once, no lost wakeup, every reply the result of its own closure, call lifetimes) is kept by every single step of any thread: send, eventfd write, kick, poll, clear, receive, finish, reply, skipping the channel after a callback took it away, drop |
| `RemoteEndpoint.RunInv` | event-manager/src/endpoint.rs:107-189 | so it holds in every state of every interleaving of any number of callers with the manager |
| `RemoteEndpoint.NoLostWakeup` | event-manager/src/endpoint.rs:107-117 | whenever a closure is queued, the eventfd is readable, the manager is draining, or the sender is about to write; a manager asleep on a zero counter has run everything that was sent |
| `RemoteEndpoint.RunsOnceInChannelOrder` | event-manager/src/manager.rs:206-226 | closures run at most once each and in channel order, and the manager's state is the initial one with exactly these closures and the local changes replayed |
| `RemoteHistory.StartedWith` | event-manager/src/endpoint.rs:119-178 | in every run the calls are exactly those that were started, each with the closure it was given |
| `RemoteHistory.CountsWrites` | event-manager/src/endpoint.rs:107-117 | in every run the eventfd holds the number of writes since it was last read, up to its maximum |
| `RemoteHistory.WatchedAsSaid` | event-manager/src/events.rs:222-272 | it is watched as was last said, and the manager is alive exactly until it is dropped |
| `RemoteHistory.MadeOfWhatHappened` | event-manager/src/manager.rs:206-226 | the manager's state is the initial one after exactly the closures finished and the local changes made, in the order of the run |
| `RemoteHistory.WhyFinished` | event-manager/src/endpoint.rs:107-178 | each outcome of a call has its one cause in the run: failing to send, exactly if the manager was gone; a full eventfd, exactly if its own write met the maximum; success of `fire`, exactly if it did not; the reply, or the lack of one, exactly if that is what the caller found |
| `RemoteHistory.OwnResult` | event-manager/src/endpoint.rs:119-158 | a `call_blocking` that returns a value returns what the closure it was given computed on the state all earlier work had left; with the manager alive it fails only if its own write met a full eventfd, and then the closure is still queued or has run |
| `RemoteHistory.FullMeansManyWrites` | event-manager/src/endpoint.rs:107-117 | which takes 2^64 - 2 writes that the manager did not read |
| `RemoteHistory.NobodyStuck` | event-manager/src/endpoint.rs:107-189 | in every reachable state the manager has a next step unless it waits in epoll for something to come, and callers have one unless they wait for a reply that is not there |
| `RemoteHistory.OneCall` | event-manager/src/endpoint.rs:119-158 | a run of eight steps from a new channel to the result of any closure, with its effect on the manager |
| `RemoteLiveness.StepWork` | event-manager/src/manager.rs:195-226 | a ranking of the work before the n-th message: no step increases it while the eventfd is registered, every manager step decreases it |
| `RemoteLiveness.EventuallyRuns` | event-manager/src/manager.rs:195-226 | on every fair infinite execution on which the eventfd stays registered with epoll, every message ever sent is eventually run |
| `RemoteLiveness.CallBlockingReturns` | event-manager/src/endpoint.rs:119-158 | on these executions every `call_blocking` that waits returns with a value |
| `RemoteLiveness.SentCallReturns` | event-manager/src/endpoint.rs:107-178 | on these executions every call whose message got into the channel, and whose write does not meet a full eventfd, ends: `call_blocking` with the result of its own closure, `fire` with success |
| `RemoteLiveness.CallReturns` | event-manager/src/endpoint.rs:107-178 | and so does every call from the moment it is entered |
| `RemoteLiveness.GoesToSleep` | event-manager/src/manager.rs:206-226 | once nobody sends or kicks any more, the manager finishes what there is, goes back to epoll with the eventfd read, and stays there: it does not spin |
| `RemoteLiveness.EndsAfterDrop` | event-manager/src/endpoint.rs:107-158 | once the manager is dropped, every call ends, whatever state it is in |
| `RemoteLiveness.RunsIffWatched` | event-manager/src/events.rs:252-272 | with the manager waiting in epoll and the registration settled, a pending message is run if and only if the eventfd is registered |
| `RemoteLiveness.ReturnsIffWatched` | event-manager/src/endpoint.rs:119-158 | and a waiting `call_blocking` returns if and only if it is; otherwise it waits for ever |
| `EventDispatch.PackingRoundTrip` | event-manager/src/events.rs:173-188 | packing a descriptor and user data into one word always gives the descriptor back, and the data if and only if the descriptor is not negative |
| `EventDispatch.NegativeDescriptor` | event-manager/src/events.rs:173-188 | descriptor -1 turns user data 7 into 6 |
| `EventDispatch.AddEffect` | event-manager/src/events.rs:230-249 | adding hands the kernel the events as given, makes the caller the owner and puts the descriptor at the end of the caller's list, nothing else; it fails exactly for an owned descriptor or one the kernel refuses, each with its error, and then changes nothing |
| `EventDispatch.ModifyEffect` | event-manager/src/events.rs:252-254 | modifying replaces what the kernel was told of a registered descriptor, nothing else, and fails exactly if the kernel refuses |
| `EventDispatch.RemoveEffect` | event-manager/src/events.rs:257-272 | removing takes the descriptor from the kernel, its owner and its pending events, and one occurrence from the caller's list, nothing else; it fails exactly for an unregistered one |
| `EventDispatch.OpKeepsInv` | event-manager/src/events.rs:222-272 | add, modify and remove, succeeding or failing, keep epoll's interest list, the dispatch map and the subscribers consistent |
| `EventDispatch.AddKeepsInv` | event-manager/src/manager.rs:41-48 | registering a subscriber, whatever its `init` does, keeps them consistent and returns an unused id |
| `EventDispatch.RemoveKeepsInv` | event-manager/src/manager.rs:51-58 | so does unregistering one, known or not |
| `EventDispatch.RequestKeepsInv` | event-manager/src/manager.rs:37-77 | so does every operation on the manager made from outside a dispatch round |
| `EventDispatch.DispatchDelivers` | event-manager/src/manager.rs:138-184 | whatever the callbacks do, the subscribers receive exactly the reported events, in order, minus those whose descriptor a callback of this round removed earlier (even if added again), each going to the subscriber that owned it; the channel's event is deferred, unless a callback closed the channel's descriptor and registered its number, and then goes to that subscriber |
| `EventDispatch.DispatchSafe` | event-manager/src/manager.rs:138-184 | whatever the callbacks do, no entry of the round reaches the `unreachable!`, and each entry still to come keeps an owner or is discarded |
| `EventDispatch.ActionSafe` | event-manager/src/manager.rs:123-184 | one action, a whole round included, keeps the invariant and does not panic |
| `EventDispatch.RunSafe` | event-manager/src/manager.rs:83-184 | from a new manager on, through any sequence of rounds, registrations and operations, the three views agree and no round panics |
| `EventDispatch.RoundsBounded` | event-manager/src/epoll.rs:27-48 | in every run no round handles more events than the capacity the manager was made with, and each of them is looked at once |
| `EndpointDispatch.EndpointServed` | event-manager/src/manager.rs:195-204 | in every run in which nobody operates on the channel's descriptor, each round serves the endpoint if and only if epoll reported it, and never panics there |
| `EndpointDispatch.RoundServesEndpoint` | event-manager/src/manager.rs:138-204 | for all callbacks: a round serves the endpoint if and only if the channel was reported and, at that position, was the manager's and neither removed nor taken over earlier in the round; the event it is served with is the reported one |
| `EndpointDispatch.EndpointPanicsIff` | event-manager/src/manager.rs:195-204 | the next round can reach the `unreachable!` of the endpoint if and only if the mask registered for the channel includes output; what the callbacks of the round do makes no difference |
| `EndpointDispatch.RunPanicsOnlyExposed` | event-manager/src/manager.rs:195-204 | so in every run, however the subscribers behave, a round panics there only in such a state |
| `EndpointDispatch.ModifiedChannelMask` | event-manager/src/events.rs:252-254 | a subscriber can bring this about by widening the mask from a callback: a run whose next round panics |
| `EndpointDispatch.LostForEver` | event-manager/src/events.rs:230-272 | once a subscriber has removed or taken over the channel's descriptor, no operation brings the endpoint back: no later round of any run serves it |
| `EndpointDispatch.RemovedChannel` | event-manager/src/events.rs:257-272 | a subscriber can do so in its first callback |
| `EndpointSteps.PollIffWatching` | event-manager/src/manager.rs:94-117 | some round can report input on the channel if and only if there is room for an event and the channel is registered on the manager's behalf for input, which is what the protocol calls watched |
| `EndpointSteps.RoundIsSteps` | event-manager/src/manager.rs:131-226 | every round, for all callbacks, is a sequence of enabled steps of the protocol: a report of the channel is a poll, the callbacks change what is watched, and then the round clears the eventfd or, only if the channel was taken away, skips it; without a report the endpoint is not served |
| `EndpointSteps.UnservedMeansLost` | event-manager/src/manager.rs:138-184 | a reported channel that the round does not serve has been removed or taken over by a callback of that very round |
| `EndpointSteps.LostCallsWait` | event-manager/src/endpoint.rs:119-158 | once a subscriber has removed or taken over the channel, through all that can happen afterwards, a waiting `call_blocking` waits for ever |
| `EventDispatch.CallsTakeEffect` | event-manager/src/manager.rs:195-226 | closures of a round that serves the endpoint take effect after the callbacks, in order: one more request in the round is the round followed by that request |
| `EventDispatch.CallsWait` | event-manager/src/manager.rs:195-204 | a round that does not serve the endpoint does nothing for them |
| `EventDispatch.RemoveSubscriberEffect` | event-manager/src/manager.rs:51-58 | the subscriber leaves and is handed back with its list, all others and all other descriptors stay what they are; an unknown id changes nothing |
| `EventDispatch.AddSubscriberEffect` | event-manager/src/manager.rs:41-48 | a new subscriber gets an id never used before and does its registrations under it; all others stay |
| `EventDispatch.AccessEffect` | event-manager/src/manager.rs:61-76 | ids not in use are refused; others give access to exactly that subscriber or its events |
| `EventHistory.RunRecorded` | event-manager/src/manager.rs:37-226 | in every run, however subscribers, callbacks and closures behave: the kernel's entry of each descriptor, its owner, every subscriber's list and every subscriber are what the operations done so far, with the results they had, amount to |
| `EventHistory.RegisteredAsAsked` | event-manager/src/events.rs:222-272 | so a registered descriptor is registered with the events of its last successful `add` or `modify`, nothing having touched it since, or is the channel as the manager registered it |
| `EventHistory.EntryIsLast` | event-manager/src/events.rs:222-272 | which is what the entry in a history means |
| `EventHistory.ClosureRegisters` | event-manager/src/manager.rs:206-226 | two rounds: a closure registers a descriptor in one, and the next delivers its event |
| `EventDispatch.RemoveSubscriberScope` | event-manager/src/epoll.rs:52-65 | unregistering stops dispatching exactly the descriptors on the subscriber's watch list; others keep all of theirs if and only if none is on that list |
| `EventDispatch.StaleWatchList` | event-manager/src/events.rs:257-272 | the list can be stale, since removing edits only the caller's: three operations after which unregistering subscriber 1 silences a descriptor of subscriber 2 |
| `EventManagers.EpollWrapper.RemoveEvent` | event-manager/src/epoll.rs:68-77 | the dispatch entry goes, and every pending ready event of the descriptor, and no other, becomes the default event |
| `EventManagers.EpollWrapper.Add` | event-manager/src/events.rs:230-249 | registers a free descriptor with epoll, the dispatch map and the watch list, or changes nothing and says why |
| `EventManagers.EpollWrapper.Modify` | event-manager/src/events.rs:252-254 | changes only the kernel's mask, if the descriptor is registered there |
| `EventManagers.EpollWrapper.Remove` | event-manager/src/events.rs:257-272 | deletes the descriptor from epoll and the dispatch map and its first occurrence from the caller's watch list |
| `EventManagers.EpollWrapper.RemoveAll` | event-manager/src/epoll.rs:52-65 | drops a subscriber's watch list and every descriptor on it |
| `EventManagers.EpollWrapper.Perform` | event-manager/src/events.rs:213-272 | the three operations together refine the pure specification that the theorems above are about |
| `EventManagers.EventManager.NewWithCapacity` | event-manager/src/manager.rs:94-117 | succeeds exactly if the capacity is allowed and the kernel creates and registers what is asked of it, and says what was wrong otherwise; a new manager watches its own channel and nothing else |
| `EventManagers.EventManager.AddSubscriber` | event-manager/src/manager.rs:41-48 | the object refines the specification of registering |
| `EventManagers.EventManager.RemoveSubscriber` | event-manager/src/manager.rs:51-58 | the object refines the specification of unregistering; unknown ids are an error |
| `EventManagers.EventManager.DispatchEvents` | event-manager/src/manager.rs:138-184 | the loop over the ready array, which callbacks shrink under its feet, refines the specified round; its `unreachable!` is proved dead |
| `EventManagers.EpollWrapper.Poll` | event-manager/src/epoll.rs:37-48 | the reported events overwrite the front of the ready array, the rest of it stays |
| `EventManagers.EventManager.SubscriberMut` | event-manager/src/manager.rs:61-66 | gives access to a known subscriber and to nothing else; an unknown id is an error |
| `EventManagers.EventManager.Serve` | event-manager/src/manager.rs:206-226 | one request made by a closure (registering, unregistering, changing a subscriber, operating on events) has the effect of that request |
| `EventManagers.EventManager.HandleEndpointCalls` | event-manager/src/manager.rs:206-226 | the closures take effect one after the other; a closure is the sequence of its requests |
| `EventManagers.EventManager.RunOnce` | event-manager/src/manager.rs:131-204 | a whole round, for all callbacks: subscribers first, then the endpoint, equal to the specification, invariant kept, no panic in the loop; the endpoint panics exactly if its event is not plain input, which takes a channel registered for output |
| `RangeMaps.CanonicalUnique` | vm-memory/src/iommu.rs:131-140 | a coalesced table is determined by its meaning, so any implementation of the range map that merges touching equal entries holds the very table modelled here |
| `RangeMaps.InsertMeaning` | vm-memory/src/iommu.rs:255-258 | inserting overwrites exactly the range, address by address, and leaves no two touching equal entries |
| `RangeMaps.RemoveMeaning` | vm-memory/src/iommu.rs:263-265 | removing empties exactly the range and keeps the table coalesced |
| `RangeMaps.GapsMeaning` | vm-memory/src/iommu.rs:286-286 | the gaps are exactly the maximal unmapped subranges of the query, in order |
| `RangeMaps.OverlappingExact` | vm-memory/src/iommu.rs:287-290 | the overlapping entries are exactly the entries that share an address with the query |
| `RangeMaps.OverlappingAt` | vm-memory/src/iommu.rs:287-290 | and they give each address of the query the value it has in the table |
| `Iotlbs.AllowMeaning` | vm-memory/src/guest_memory.rs:795-797 | an access is allowed exactly when each right it asks for is granted |
| `Iotlbs.MapAddrShift` | vm-memory/src/iommu.rs:217-227 | storing the wrapped difference of target and source sends every address of a mapping to its distance from the target |
| `Iotlbs.UpdatesAgree` | vm-memory/src/iommu.rs:242-270 | after every sequence of `set_mapping`, `invalidate_mapping` and `invalidate_all` the coalescing table is canonical and translates each address as a plain per-address map updated byte by byte does |
| `Iotlbs.LookupExact` | vm-memory/src/iommu.rs:278-325 | a lookup succeeds if and only if every address is mapped with sufficient permission; otherwise the misses are exactly the maximal unmapped subranges and the access failures exactly the forbidden addresses, disjoint, in order, clipped |
| `Iotlbs.ChunksTile` | vm-memory/src/iommu.rs:328-360 | after a successful lookup the iterator's ranges are non-empty and follow each other without gap from the first to the last address asked for |
| `Iotlbs.ChunkMaximal` | vm-memory/src/iommu.rs:332-360 | a range ends only where the request does or the mapping changes |
| `Iotlbs.ChunksMaximal` | vm-memory/src/iommu.rs:332-360 | so neighbouring ranges have different mappings: there are as few as possible |
| `Iotlbs.ChunksTranslate` | vm-memory/src/iommu.rs:328-360 | they list exactly the translated addresses, in order |
| `Iotlbs.Iotlb.Set` | vm-memory/src/iommu.rs:242-260 | the stored table stays coalesced and translates every address as the plain per-address table with the range overwritten byte by byte |
| `Iotlbs.Iotlb.Invalidate` | vm-memory/src/iommu.rs:263-265 | and as the plain table with the range removed byte by byte |
| `Iotlbs.Iotlb.Clear` | vm-memory/src/iommu.rs:268-270 | afterwards the plain table is empty: no address is mapped |
| `Iotlbs.Iotlb.LooksUpUpdates` | vm-memory/src/iommu.rs:278-325 | a lookup in the stored table finds a range exactly if the updates so far left each of its addresses mapped with sufficient permission; otherwise it reports as missing or forbidden exactly the addresses they left unmapped or mapped without it |
| `Iotlbs.IotlbIterator.Next` | vm-memory/src/iommu.rs:332-360 | yields the chunks one by one; the `unwrap` and the permission assertion cannot fail |
| `GuestRegions.FromRegionsExact` | vm-memory/src/region.rs:242-265 | comparing neighbours only, construction accepts exactly the non-empty, strictly ordered, pairwise disjoint sequences |
| `GuestRegions.CheckRegions` | vm-memory/src/region.rs:242-265 | the loop over neighbours returns that verdict |
| `GuestRegions.InsertExact` | vm-memory/src/region.rs:269-283 | inserting succeeds if and only if the new region overlaps none; the result is the old collection with it in its place, and the only error is an overlap |
| `GuestRegions.RemoveExact` | vm-memory/src/region.rs:286-300 | removing succeeds if and only if such a region is present, and leaves a collection |
| `GuestRegions.RemoveUndoesInsert` | vm-memory/src/region.rs:269-300 | removing what was inserted gives the old collection back |
| `GuestRegions.InsertUndoesRemove` | vm-memory/src/region.rs:269-300 | inserting what was removed gives the old collection back |
| `GuestRegions.FindRegionExact` | vm-memory/src/region.rs:310-318 | the region found contains the address, and one is found exactly if one contains it |
| `GuestRegions.FindersAgree` | vm-memory/src/guest_memory.rs:289-292 | on every collection the binary search and the default linear search give the same region |
| `GuestSlices.GetSliceExact` | vm-memory/src/guest_memory.rs:472-485 | a single slice is to be had exactly if the whole range lies in one region, and is that range; the error tells an unmapped first address from a region that ends too soon |
| `GuestSlices.StepExact` | vm-memory/src/guest_memory.rs:531-580 | one call of `next`: the slice starts at the current address and reaches to the end of its region or of the request, whichever comes first; or the address is unmapped and iteration ends |
| `GuestSlices.GetSlicesExact` | vm-memory/src/guest_memory.rs:491-580 | the slices list exactly the longest mapped prefix of the addresses (modulo 2^64), in order; the first unmapped address, if any, is the single, final error; overflow is never reported |
| `GuestSlices.CheckRangeExact` | vm-memory/src/guest_memory.rs:363-375 | a range is valid if and only if each of its addresses is mapped; the single-region shortcut changes nothing |
| `GuestSlices.SliceIterator.DoNext` | vm-memory/src/guest_memory.rs:531-557 | the object takes the specified step |
| `GuestSlices.SliceIterator.Next` | vm-memory/src/guest_memory.rs:566-580 | the object yields the specified items one by one and nothing after an error or the end |
| `IommuMemories.AnnotateMeaning` | vm-memory/src/iommu.rs:600-608 | each slice is paired with the I/O virtual address of its first byte as its dirty-bitmap offset |
| `IommuMemories.GetVSlicesExact` | vm-memory/src/iommu.rs:494-506 | behind an IOMMU slices are had if and only if the whole range is accessible; they list exactly the physical bytes it translates to, in order, up to the first physically unmapped one |
| `IommuMemories.CheckVRangeExact` | vm-memory/src/iommu.rs:481-492 | a range checks out if and only if its slices come without error |
| `IommuMemories.IommuSliceIterator.constructor` | vm-memory/src/iommu.rs:553-568 | an iterator over a translated range has the whole run before it |
| `IommuMemories.IommuSliceIterator.DoNext` | vm-memory/src/iommu.rs:585-618 | the loop over chunks and slices yields the next item of the run |
| `IommuMemories.IommuSliceIterator.Next` | vm-memory/src/iommu.rs:621-637 | items come one by one; after an error or the end, nothing for ever |
| `GuestBytes.GuestMemory.WriteSlice` | vm-memory/src/volatile_memory.rs:715-729 | as many bytes as fit are stored at the slice's addresses from the offset on; an empty buffer is always fine, an offset past the end an error |
| `GuestBytes.GuestMemory.ReadSlice` | vm-memory/src/volatile_memory.rs:744-758 | the same for reading; the rest of the buffer stays |
| `GuestBytes.GuestMemory.WriteItems` | vm-memory/src/guest_memory.rs:609-611 | the multi-slice path: the bytes before the first error are stored, and an error is returned only if there are none |
| `GuestBytes.GuestMemory.ReadItems` | vm-memory/src/guest_memory.rs:621-623 | the same for reading |
| `GuestBytes.GuestMemory.Write` | vm-memory/src/guest_memory.rs:602-612 | stores exactly the longest prefix whose addresses are all mapped, by the fast path or the general one; fails, changing nothing, if and only if there is a first byte and it is unmapped |
| `GuestBytes.GuestMemory.Read` | vm-memory/src/guest_memory.rs:614-624 | reads exactly that prefix, and leaves the rest of the buffer |
| `GuestBytes.GuestMemory.WriteVirtual` | vm-memory/src/guest_memory.rs:602-612 | behind an IOMMU: stores nothing unless every address may be written, and else the prefix of the translated bytes that is mapped |
| `GuestBytes.GuestMemory.ReadVirtual` | vm-memory/src/guest_memory.rs:614-624 | the same for reading, with read permission |
| `GuestBytes.PokeAllMeaning` | vm-memory/src/volatile_memory.rs:715-729 | storing a string of bytes to a string of addresses: each address holds what was stored there last, every other byte is untouched |
| `GuestBytes.WriteFrame` | vm-memory/src/guest_memory.rs:602-612 | of all memory, only bytes of the addressed, mapped prefix change |
| `GuestBytes.WriteThenRead` | vm-memory/src/guest_memory.rs:602-624 | what was written is read back if and only if no address was written two different bytes |
| `GuestBytes.PhysicalReadBack` | vm-memory/src/guest_memory.rs:602-624 | so a physical range is always read back |
| `GuestBytes.AliasedReadBack` | vm-memory/src/iommu.rs:494-506 | but not a virtual range in which two addresses share a physical byte: a table for which it fails |
| `GuestMemoryAtomics.StepInv` | vm-memory/src/atomic.rs:55-76 | load, lock, replace, unlock, panic, taking, cloning and dropping snapshots all keep: one lock holder at most, every map ever published sorted and disjoint, every snapshot a map that was once current |
| `GuestMemoryAtomics.RunInv` | vm-memory/src/atomic.rs:55-147 | so this holds in every interleaving of any number of readers and writers, however the writers behave |
| `GuestMemoryAtomics.BaseIsLastLoaded` | vm-memory/src/atomic.rs:55-57 | in every run, under the lock or not, the map a writer starts from is the one that was current when it last loaded |
| `GuestMemoryAtomics.UndisturbedReplace` | vm-memory/src/atomic.rs:139-147 | a writer applies its update to the current map if nobody publishes between its load and its replacement |
| `GuestMemoryAtomics.ApartWriters` | vm-memory/src/atomic.rs:55-147 | so writers that do not overlap lose nothing, wherever they load: the current map is the initial one with all updates applied in order |
| `GuestMemoryAtomics.OwedToActions` | vm-memory/src/atomic.rs:64-147 | in every run the commits are the replacements made, the lock is with whoever took it last and has not given it back, it is poisoned once a holder panicked, and the snapshots in use are those taken or cloned and not released |
| `GuestMemoryAtomics.ReadersNeverWait` | vm-memory/src/atomic.rs:86-120 | readers never wait, whatever writers do; writers wait for the lock only |
| `GuestMemoryAtomics.CloneSeesTheSame` | vm-memory/src/atomic.rs:114-120 | a cloned guard is the same snapshot, and outlives the one it was made from |
| `GuestMemoryAtomics.ReaderSeesOneMap` | vm-memory/src/atomic.rs:87-103 | a snapshot taken at any point of any run stays, for as long as it is held, the one map that was current then, sorted and disjoint, whatever is published meanwhile |
| `GuestMemoryAtomics.ApplyInjective` | vm-memory/src/region.rs:269-300 | the map an insertion or removal started from is determined by its result |
| `GuestMemoryAtomics.LostUpdatesExact` | vm-memory/src/atomic.rs:145-147 | in any run, no update is lost if and only if every published map was computed from the map then current |
| `GuestMemoryAtomics.NoLostUpdate` | vm-memory/src/atomic.rs:55-147 | if writers load only under the lock, then in every interleaving the current map is the initial one with all committed updates applied in commit order, and each snapshot is that for a prefix of them |
| `GuestMemoryAtomics.LoadBeforeLock` | vm-memory/src/atomic.rs:55-76 | loading before locking can lose an update: an interleaving of two writers after which the first one's region is gone |
| `PkgLengths.CreatePkgLength` | acpi_tables/src/aml.rs:389-425 | the shifts and masks push the lead byte and the little-endian rest of the length |
| `PkgLengths.LengthExact` | acpi_tables/src/aml.rs:389-425 | the decoder of section 20.2.4 of the ACPI specification reads back the length and its size, whatever follows, if and only if the length is below 2^28 |
| `PkgLengths.LengthShortest` | acpi_tables/src/aml.rs:389-425 | no encoding that covers itself and a body of this size is shorter |
| `PkgLengths.FieldLengthShortest` | acpi_tables/src/aml.rs:389-425 | a length that does not include itself is as short as possible if and only if it is none of six values just below a size boundary |
| `PkgLengths.ShorterField` | acpi_tables/src/aml.rs:389-425 | for each of these six, an encoding one byte shorter |
| `AmlData.RoundTrip` | acpi_tables/src/aml.rs:130-291 | for arbitrarily nested packages of integers, strings, buffers and names: the parser returns the object and exactly the bytes that followed it, if and only if integers fit 64 bits, strings hold ASCII characters other than NUL, names have 1 to 255 well-formed segments, packages at most 255 elements, and every package length is below 2^28 |
| `AmlData.AccentedString` | acpi_tables/src/aml.rs:474-478 | a string with a letter outside ASCII is emitted as it is and rejected by the parser |
| `AmlData.TooManyElements` | acpi_tables/src/aml.rs:278-291 | no package of 256 or more elements is accepted by the parser, whatever the elements |
| `AmlData.LargePackage` | acpi_tables/src/aml.rs:278-291 | such as 256 zeros |
| `AmlData.IntegerBytes` | acpi_tables/src/aml.rs:188-238 | integers byte by byte: one of each width |
| `AmlData.ObjectBytes` | acpi_tables/src/aml.rs:278-291 | a string, a buffer and two packages byte by byte |
| `AmlData.NameBytes` | acpi_tables/src/aml.rs:130-153 | names with each prefix byte by byte |
| `AmlData.Spelling` | acpi_tables/src/aml.rs:130-153 | which characters make up names and strings, by example |
| `AmlData.ParseShortest` | acpi_tables/src/aml.rs:130-425 | whatever the parser accepts, from any bytes, is an object of this kind, and the encoder never needs more bytes for it than were read |
| `AmlData.Shortest` | acpi_tables/src/aml.rs:188-425 | so the emitted encoding is a shortest one |
| `AmlData.PrefixFree` | acpi_tables/src/aml.rs:130-291 | emitted objects delimit themselves: two strings of bytes that start with two of them agree only if the objects and the rests do |
| `AmlData.IntegerParses` | acpi_tables/src/aml.rs:188-238 | an integer is read back by value from the narrowest encoding |
| `AmlData.PathParses` | acpi_tables/src/aml.rs:130-153 | a name is read back, and cannot be taken for another kind of object |
| `AmlData.CharsParse` | acpi_tables/src/aml.rs:474-478 | an ASCII string is read back from its NUL-terminated form |
| `AmlData.BufferParses` | acpi_tables/src/aml.rs:1614-1626 | a buffer is read back, size and contents |
| `AmlPaths.NewPath` | acpi_tables/src/aml.rs:159-178 | the loop over the dotted parts builds the path or stops at a part that has not four characters |
| `AmlPaths.PathText` | acpi_tables/src/aml.rs:159-178 | a text makes a path if and only if it is the text of that path: prefix, and segments of four characters joined by dots |
| `AmlPaths.WellFormedDenoted` | acpi_tables/src/aml.rs:159-178 | every well-formed path has a text, which makes it again |
| `AmlEncoders.PutQWord` | acpi_tables/src/aml.rs:229-238 | narrowing from type to type emits the specified encoding |
| `AmlEncoders.PutPath` | acpi_tables/src/aml.rs:130-153 | the pushes add up to the encoding of the path |
| `AmlEncoders.PutString` | acpi_tables/src/aml.rs:474-478 | the pushes add up to the encoding of the string |
| `AmlEncoders.Put` | acpi_tables/src/aml.rs:278-291 | pushing an object, its children through sinks of their own, appends exactly its specified bytes |
| `AmlEncoders.PackageBuilder.AddElement` | acpi_tables/src/aml.rs:336-339 | data and element count stay those of the list of elements added so far |
| `AmlEncoders.PackageBuilder.ToAmlBytes` | acpi_tables/src/aml.rs:306-315 | the bytes are those of a package made at once from the elements added |
| `AmlEncoders.PutScope` | acpi_tables/src/aml.rs:902-916 | the bytes of a scope made of objects |
| `AmlEncoders.ScopeRaw` | acpi_tables/src/aml.rs:925-941 | appending first and shifting in place to make room for the length gives the bytes of a scope with these children |
| `AmlEncoders.ScopeBytes` | acpi_tables/src/aml.rs:902-916 | a scope named _SB_ byte by byte, with any short contents |
| `AmlEncoders.ScopeRoundTrip` | acpi_tables/src/aml.rs:902-941 | a scope's name, children and rest are read back if and only if the name is well formed and the length below 2^28 |
| `Checksums.Checksum.Append` | acpi_tables/src/lib.rs:131-138 | the wrapping sum grows by the bytes |
| `Checksums.Checksum.Delete` | acpi_tables/src/lib.rs:140-147 | the wrapping sum shrinks by the bytes |
| `Checksums.Checksum.Add` | acpi_tables/src/lib.rs:149-151 | the wrapping sum grows by one byte |
| `Checksums.Checksum.Value` | acpi_tables/src/lib.rs:161-163 | the byte that brings the sum to zero |
| `Checksums.U8Sum` | acpi_tables/src/lib.rs:166-170 | the sum an object's bytes contribute, modulo 256 |
| `Checksums.GenerateChecksum` | acpi_tables/src/lib.rs:173-175 | the byte that brings the sum of the given bytes to zero |
| `TableHeaders.HeaderLayout` | acpi_tables/src/lib.rs:96-107 | every field of the common header is at its place |
| `TableHeaders.TableStarts` | acpi_tables/src/lib.rs:45-46 | a whole table starts as section 5.2.6 of the ACPI specification says, with the signature, the length of the table, the caller's OEM fields and the creator "RVAT" |
| `TableHeaders.EmitNodes` | acpi_tables/src/rhct.rs:139-147 | the loop emits the header and then node after node |
| `TableHeaders.NodeAt` | acpi_tables/src/rhct.rs:103-136 | at the offset of the i-th node the table holds exactly its bytes |
| `TableHeaders.OffsetStable` | acpi_tables/src/rhct.rs:103-136 | additions never move a node that is already there |
| `TableHeaders.HandlesGrow` | acpi_tables/src/rhct.rs:103-136 | so an addition leaves every handle ever returned good |
| `TableHeaders.FollowHandle` | acpi_tables/src/rhct.rs:103-136 | a reader who follows a handle stored in one node arrives at the node it was issued for |
| `TableHeaders.WalkExact` | acpi_tables/src/rhct.rs:139-147 | a reader who goes from node to node by their length fields finds the list of added nodes if and only if each node's length fits its field |
| `Rhcts.RhctHeaderLayout` | acpi_tables/src/rhct.rs:20-26 | time base, node count and offset of the first node are at their places |
| `Rhcts.NodeRoundTrip` | acpi_tables/src/rhct.rs:173-332 | a reader of the node formats gets each node back from its bytes, field by field, if and only if its numbers and its size fit their fields |
| `Rhcts.PaddedWithZeros` | acpi_tables/src/rhct.rs:186-204 | an ISA string of any length stands behind the first 8 bytes of its node and is followed by zeros only |
| `Rhcts.HartInfoHandle` | acpi_tables/src/rhct.rs:242-252 | the k-th handle is stored at byte 12 + 4k |
| `Rhcts.Rhct.constructor` | acpi_tables/src/rhct.rs:48-82 | a new table is valid (length, offset and checksum agree with its bytes) and carries what the caller gave |
| `Rhcts.Rhct.HeaderHolds` | acpi_tables/src/rhct.rs:48-101 | after any additions the emitted table starts with "RHCT", its own length, revision 1 and the caller's OEM fields, and holds the caller's time base (any 64-bit one), the number of additions and the offset of the first node |
| `Rhcts.Rhct.HandleStays` | acpi_tables/src/rhct.rs:103-136 | in every state of the table, each handle returned so far is where its node starts in the emitted bytes |
| `Rhcts.Rhct.HartReaches` | acpi_tables/src/rhct.rs:240-252 | following any offset stored in a hart's node of the emitted table reaches the node whose handle it is |
| `Rhcts.HartWithIsa` | acpi_tables/src/rhct.rs:103-136 | a table built with these calls in which the hart's offset leads to its ISA string |
| `Rhcts.Rhct.UpdateHeader` | acpi_tables/src/rhct.rs:84-101 | length and count are exchanged in the running sum byte for byte |
| `Rhcts.Rhct.SumsToZero` | acpi_tables/src/rhct.rs:84-101 | after any additions the bytes sum to zero modulo 256, without limit on the number of nodes |
| `Rhcts.Rhct.ReadsBack` | acpi_tables/src/rhct.rs:139-147 | the nodes can be walked if and only if each is shorter than 2^16 bytes |
| `Rhcts.LongIsaString` | acpi_tables/src/rhct.rs:173-204 | an ISA string of 65527 characters gives a table that cannot be walked, although its bytes sum to zero |
| `Rhcts.Rhct.AddNode` | acpi_tables/src/rhct.rs:103-136 | length, next offset and emitted size stay equal; the handle is the offset at which the new node starts |
| `Rhcts.Rhct.AddIsaString` | acpi_tables/src/rhct.rs:103-112 | appends the node and returns its offset |
| `Rhcts.Rhct.AddMmuNode` | acpi_tables/src/rhct.rs:114-120 | appends the node, keeping the invariant |
| `Rhcts.Rhct.AddCmo` | acpi_tables/src/rhct.rs:122-130 | appends the node and returns its offset |
| `Rhcts.Rhct.AddHartInfo` | acpi_tables/src/rhct.rs:132-136 | appends the node, keeping the invariant |
| `Rhcts.Rhct.ToAmlBytes` | acpi_tables/src/rhct.rs:139-147 | emits as many bytes as the header announces, summing to zero |
| `CountedTables.CountGap` | acpi_tables/src/rimt.rs:58-74 | counting nodes by adding 1 each misses exactly the upper bytes of the count |
| `CountedTables.SmallCounts` | acpi_tables/src/rimt.rs:58-74 | which are zero up to 255 nodes |
| `CountedTables.MediumCounts` | acpi_tables/src/rimt.rs:58-74 | and never zero modulo 256 from 256 to 65535 nodes |
| `Rimts.RimtHeaderLayout` | acpi_tables/src/rimt.rs:101-111 | count, offset of the first device and reserved field are at their places |
| `Rimts.DeviceRoundTrip` | acpi_tables/src/rimt.rs:121-491 | a reader of the device formats gets each device back from its bytes, with its wires, mappings and flags, if and only if its numbers and its size fit their fields; only an absent list reads as an empty one, an absent base address as zero |
| `Rimts.ReservedZero` | acpi_tables/src/rimt.rs:206-491 | the reserved bytes of IOMMUs and platform devices are zero, and so is the location of an IOMMU that is no PCI device |
| `Rimts.PcieIommu` | acpi_tables/src/rimt.rs:399-423 | the k-th mapping's IOMMU offset is at byte 28 + 20k |
| `Rimts.PlatformIommu` | acpi_tables/src/rimt.rs:461-491 | the k-th mapping's IOMMU offset is where the device says its mappings are |
| `Rimts.Rimt.constructor` | acpi_tables/src/rimt.rs:26-50 | a new table is valid and carries what the caller gave |
| `Rimts.Rimt.HeaderHolds` | acpi_tables/src/rimt.rs:26-74 | after any additions the emitted table starts with "RIMT", its own length, revision 1 and the caller's OEM fields, and holds the number of additions and the offset of the first device |
| `Rimts.Rimt.HandleStays` | acpi_tables/src/rimt.rs:76-94 | in every state of the table, each offset returned so far is where its device starts in the emitted bytes |
| `Rimts.Rimt.PcieReaches` | acpi_tables/src/rimt.rs:399-423 | following the IOMMU offset of any id mapping of a root complex reaches the device whose offset it is |
| `Rimts.Rimt.PlatformReaches` | acpi_tables/src/rimt.rs:461-491 | the same for a platform device |
| `Rimts.Rimt.UpdateHeader` | acpi_tables/src/rimt.rs:58-74 | the length is exchanged in the running sum and 1 is added for the count |
| `Rimts.Rimt.SumsToZeroIff` | acpi_tables/src/rimt.rs:58-74 | the bytes sum to zero if and only if the upper bytes of the device count do: always up to 255 devices, never from 256 to 65535 |
| `Rimts.Rimt.ReadsBack` | acpi_tables/src/rimt.rs:101-111 | the devices can be walked if and only if each is shorter than 2^16 bytes |
| `Rimts.LongName` | acpi_tables/src/rimt.rs:461-491 | a platform device with a name of 65523 characters gives a table that cannot be walked, although its bytes sum to zero |
| `Rimts.Rimt.AddDevice` | acpi_tables/src/rimt.rs:76-94 | length, next offset and emitted size stay equal; the handle is the offset of the new device |
| `Rimts.Rimt.AddIommu` | acpi_tables/src/rimt.rs:76-82 | appends the device and returns its offset |
| `Rimts.Rimt.AddPcieRootComplex` | acpi_tables/src/rimt.rs:84-88 | appends the device, keeping the invariant |
| `Rimts.Rimt.AddPlatform` | acpi_tables/src/rimt.rs:90-94 | appends the device, keeping the invariant |
| `Rimts.Rimt.ToAmlBytes` | acpi_tables/src/rimt.rs:100-111 | emits as many bytes as the header announces; their sum is zero under the stated condition only |
| `Rimts.TooManyDevices` | acpi_tables/src/rimt.rs:58-74 | 256 additions to a new table give one whose bytes do not sum to zero |
| `PciDevices.DeviceOfBdf` | acpi_tables/src/viot.rs:135-151 | bus, device and function are recovered from the 16 bits that name them |
| `Viots.ViotHeaderLayout` | acpi_tables/src/viot.rs:104-110 | count, offset of the first node and reserved field are at their places |
| `Viots.NodeRoundTrip` | acpi_tables/src/viot.rs:128-290 | a reader of the node formats gets each node back from its bytes if and only if its numbers fit their fields |
| `Viots.ReservedZero` | acpi_tables/src/viot.rs:177-292 | the reserved bytes of every node are zero |
| `Viots.Viot.constructor` | acpi_tables/src/viot.rs:23-47 | a new table is valid and carries what the caller gave |
| `Viots.Viot.HeaderHolds` | acpi_tables/src/viot.rs:23-62 | after any additions the emitted table starts with "VIOT", its own length, revision 1 and the caller's OEM fields, and holds the number of additions and the offset of the first node |
| `Viots.Viot.HandleStays` | acpi_tables/src/viot.rs:71-97 | in every state of the table, each handle returned so far is where its node starts in the emitted bytes |
| `Viots.Viot.EndpointReaches` | acpi_tables/src/viot.rs:178-231 | following the translation offset of either kind of endpoint reaches the node whose handle it is |
| `Viots.Viot.UpdateHeader` | acpi_tables/src/viot.rs:53-69 | the length is exchanged in the running sum and 1 is added for the count |
| `Viots.Viot.SumsToZeroIff` | acpi_tables/src/viot.rs:53-69 | the bytes sum to zero if and only if there are at most 255 nodes |
| `Viots.Viot.ReadsBack` | acpi_tables/src/viot.rs:104-115 | the nodes can always be walked |
| `Viots.Viot.AddNode` | acpi_tables/src/viot.rs:71-97 | length, next offset and emitted size stay equal; the handle is the offset of the new node |
| `Viots.Viot.AddPciRange` | acpi_tables/src/viot.rs:71-75 | appends the node, keeping the invariant |
| `Viots.Viot.AddMmioEndpoint` | acpi_tables/src/viot.rs:77-81 | appends the node, keeping the invariant |
| `Viots.Viot.AddVirtioPciIommu` | acpi_tables/src/viot.rs:83-89 | appends the node and returns its offset |
| `Viots.Viot.AddVirtioMmioIommu` | acpi_tables/src/viot.rs:91-97 | appends the node and returns its offset |
| `Viots.Viot.ToAmlBytes` | acpi_tables/src/viot.rs:104-115 | emits as many bytes as the header announces; they sum to zero if and only if there are at most 255 nodes |
| `Viots.TooManyNodes` | acpi_tables/src/viot.rs:53-69 | 256 additions to a new table give one whose bytes do not sum to zero |
| `Pptts.NodeRoundTrip` | acpi_tables/src/pptt.rs:103-320 | a reader of the node formats gets each node back from its bytes if and only if its numbers fit their fields and a processor has at most 58 caches |
| `Pptts.ReservedZero` | acpi_tables/src/pptt.rs:165-320 | the reserved bytes of every node are zero |
| `Pptts.ProcessorCache` | acpi_tables/src/pptt.rs:169-183 | the k-th cache handle is stored at byte 20 + 4k |
| `Pptts.Pptt.constructor` | acpi_tables/src/pptt.rs:56-78 | a new table is valid, with the checksum byte still zero |
| `Pptts.Pptt.HeaderHolds` | acpi_tables/src/pptt.rs:56-78 | after any additions the emitted table starts with "PPTT", its own length, revision 3 and the caller's OEM fields |
| `Pptts.Pptt.HandleStays` | acpi_tables/src/pptt.rs:40-54 | in every state of the table, each handle returned so far is where its node starts in the emitted bytes |
| `Pptts.Pptt.UpReaches` | acpi_tables/src/pptt.rs:125-320 | following the parent of a processor or the next level of a cache reaches the node whose handle it is |
| `Pptts.Pptt.CacheReaches` | acpi_tables/src/pptt.rs:137-183 | following any cache handle of a processor reaches the node whose handle it is |
| `Pptts.Pptt.UpdateHeader` | acpi_tables/src/pptt.rs:27-38 | the length is exchanged in the running sum |
| `Pptts.Pptt.SumsToZeroIff` | acpi_tables/src/pptt.rs:27-78 | the bytes sum to zero if and only if something was added, or the bare header happens to |
| `Pptts.Pptt.ReadsBack` | acpi_tables/src/pptt.rs:81-89 | the nodes can be walked if and only if each is shorter than 256 bytes |
| `Pptts.Pptt.AddNode` | acpi_tables/src/pptt.rs:40-54 | length, next offset and emitted size stay equal; the handle is the offset of the new node |
| `Pptts.Pptt.AddProcessor` | acpi_tables/src/pptt.rs:40-46 | appends the node and returns its offset |
| `Pptts.Pptt.AddCache` | acpi_tables/src/pptt.rs:48-54 | appends the node and returns its offset |
| `Pptts.Pptt.ToAmlBytes` | acpi_tables/src/pptt.rs:81-89 | emits as many bytes as the header announces, summing to zero once something was added |
| `Pptts.BareTable` | acpi_tables/src/pptt.rs:56-78 | a new table, with blank OEM fields, whose bytes do not sum to zero |
| `Pptts.FiftyNineCaches` | acpi_tables/src/pptt.rs:121-183 | a table with one processor of 59 caches, which the walk does not find |
| `Madts.MadtHeaderLayout` | acpi_tables/src/madt.rs:44-49 | controller address and flags are at their places |
| `Madts.Madt.constructor` | acpi_tables/src/madt.rs:123-158 | a new table is valid and carries what the caller gave |
| `Madts.Madt.HeaderHolds` | acpi_tables/src/madt.rs:123-175 | after any additions the emitted table starts with "APIC", its own length, revision 1 and the caller's OEM fields, and holds the controller address (any 32-bit one) and the flags |
| `Madts.Madt.SumsToZero` | acpi_tables/src/madt.rs:165-186 | after any additions and flag settings the bytes sum to zero |
| `Madts.Madt.SetPcAtCompat` | acpi_tables/src/madt.rs:160-172 | sets bit 0 of the flags and exchanges them in the running sum |
| `Madts.Madt.UpdateHeader` | acpi_tables/src/madt.rs:174-186 | length and data enter the running sum |
| `Madts.Madt.AddStructure` | acpi_tables/src/madt.rs:188-194 | appends the structure; the announced length stays the emitted one |
| `Madts.Madt.AddImsic` | acpi_tables/src/madt.rs:196-200 | at most one such structure can be added |
| `Madts.Madt.ToAmlBytes` | acpi_tables/src/madt.rs:203-211 | emits as many bytes as the header announces, summing to zero |
| `Slits.SlitHeaderLayout` | acpi_tables/src/slit.rs:80-84 | the number of localities is at its place |
| `Slits.Slit.constructor` | acpi_tables/src/slit.rs:23-58 | all distances are 10, the matrix is symmetric and the bytes sum to zero |
| `Slits.Slit.HeaderHolds` | acpi_tables/src/slit.rs:23-58 | after any calls the emitted table starts with "SLIT", its own length, revision 1 and the caller's OEM fields, then the number of localities and the matrix |
| `Slits.Slit.UpdateHeader` | acpi_tables/src/slit.rs:60-64 | two old values leave the running sum, the new value enters it twice |
| `Slits.Slit.SumsToZeroIff` | acpi_tables/src/slit.rs:60-77 | after any sequence of calls the bytes sum to zero if and only if the distances of the domains to themselves exceed 10 by a multiple of 256 in all |
| `Slits.Slit.SetDistance` | acpi_tables/src/slit.rs:68-77 | both entries become the value, and the running sum drifts by the change of a diagonal entry only, which is the change of that excess; from a right table it stays right if and only if the two domains differ or the entry already had the value |
| `Slits.SetDistanceMeaning` | acpi_tables/src/slit.rs:68-77 | of the matrix exactly the two mirrored entries change, and symmetry is kept |
| `Slits.Slit.ToAmlBytes` | acpi_tables/src/slit.rs:80-89 | emits as many bytes as the header announces |
| `Slits.DiagonalDistance` | acpi_tables/src/slit.rs:68-77 | setting a diagonal entry of a new table breaks its checksum |
| `Slits.DiagonalDistanceUndone` | acpi_tables/src/slit.rs:68-77 | setting it back repairs it |
| `Sdts.Sdt.constructor` | acpi_tables/src/sdt.rs:65-92 | the header as given, zeros behind it, summing to zero |
| `Sdts.Sdt.UpdateChecksum` | acpi_tables/src/sdt.rs:94-98 | afterwards the bytes sum to zero, and no byte but the checksum changed |
| `Sdts.Sdt.WriteBytes` | acpi_tables/src/sdt.rs:121-126 | exactly the given bytes and the checksum change, wherever they are, and the sum is zero |
| `Sdts.Sdt.Append` | acpi_tables/src/sdt.rs:104-110 | the value is appended, the length field is the new length, and the sum is zero |
| `Sdts.Sdt.AppendSlice` | acpi_tables/src/sdt.rs:112-118 | the same result by another order of steps |
| `VolatileCopies.AlignmentIsLargest` | vm-memory/src/volatile_memory.rs:1330-1333 | the and of an address with its two's complement is a power of two that divides the address, and no larger one does |
| `VolatileCopies.AlignedIff` | vm-memory/src/volatile_memory.rs:1330-1333 | it reaches an access width if and only if the address is a multiple of that width |
| `VolatileCopies.CopySingle` | vm-memory/src/volatile_memory.rs:1343-1351 | one access, naturally aligned on both sides, copies its bytes |
| `VolatileCopies.CopyAlignedSlice` | vm-memory/src/volatile_memory.rs:1362-1391 | the loop for one width copies all full words of what is left and keeps the copy so far exact |
| `VolatileCopies.CopySliceVolatile` | vm-memory/src/volatile_memory.rs:1357-1403 | the loops of 8, 4, 2 and 1 bytes copy exactly `total` bytes and nothing else; every access is aligned on both sides; 1, 2, 4 or 8 bytes aligned to their size are a single access |
| `VolatileCopies.CopySlice` | vm-memory/src/volatile_memory.rs:1409-1427 | whichever way it copies, exactly `total` bytes are copied and nothing else; up to 8 bytes go by aligned accesses as above, more through the host's copy routine, of whose accesses nothing is promised |
| `IdAllocators.IdAllocator.New` | vm-allocator/src/id_allocator.rs:37-47 | fails exactly for an empty range; otherwise nothing is allocated |
| `IdAllocators.IdAllocator.Allocate` | vm-allocator/src/id_allocator.rs:57-77 | hands out the smallest id of the range that is not in use, fails exactly when all are in use, with the error that tells ranges ending at 2^32 - 1 from others; freed ids stay in the range and below the next new one |
| `IdAllocators.IdAllocator.IsAllocated` | vm-allocator/src/id_allocator.rs:85-96 | is membership in the set of ids in use |
| `IdAllocators.IdAllocator.Free` | vm-allocator/src/id_allocator.rs:99-117 | succeeds exactly for ids in use, removes just that id, and otherwise tells out of range, never allocated and already released apart |

## Left out

- The kernel: epoll, eventfd and the channels are modelled by their effects.  Epoll is assumed to report registered descriptors only, with the data they were registered with, and of an eventfd only input and output, as far as asked for; its overflow condition cannot arise from the writes modelled.
- Memory orderings, pointers and lifetimes: guest memory is arrays of bytes, and one step of a protocol is one operation on shared state.
- The two interleaved protocols (`RemoteEndpoint.dfy`, `GuestMemoryAtomic.dfy`) are state machines on values, since their threads share no object that a single Dafny method could update.
- Subscriber ids are unbounded here; the 64-bit counter is not modelled to wrap around.
- Regions of length 0, and mappings, lookups and IOMMU accesses of length 0 or reaching the end of the 64-bit address space, which the external range map and the unchecked additions around it decide.
- WriteVirtual: not stated for an empty buffer, whose lookup is the external range map's to decide.
- ReadVirtual: not stated for an empty buffer either, for the same reason.
- Overflow checks of debug builds: where unchecked arithmetic can overflow, the model wraps around as a release build does.
- A region's own `get_slice` is assumed to succeed exactly when the range lies in the region, as the mmap backend's does.
- IommuMemory in pass-through mode, which hands every access to the physical memory modelled in `GuestBytes.dfy`; the slice iterator with a disabled IOMMU is that of `GuestSlices.dfy`.
- Dirty bitmaps: the offset of each slice in the bitmap is computed, marking pages is not modelled.
- The other accessors of guest memory (`try_access`, the volatile readers and writers, atomic loads and stores), which are built on the slices proved here.
- AML methods, operators, resources and fields: the executable language has no round trip without a namespace.  Names with several parent prefixes and the `Ones` constant, whose value depends on the table's revision, are not parsed, and a buffer or package that announces more than it holds is rejected.
- Tables may grow to 2^32 bytes (VIOT: 2^16, the range of its handles); what the source does beyond that is not modelled.
- The builders of MADT structures and of PPTT cache nodes, which only fill in fields; a MADT structure is any string of bytes here.
- The other tables (CEDT, HMAT, RQSC, SPCR, TPM2 and more), most of which are written once and not maintained.
- The interval tree of `AddressAllocator`, the device bus, seccompiler, linux-loader and virtio-queue.
