# Device code of the ASUS T00F, modelled and proved

A Dafny model of the parts of this repository that carry real state, loops and byte arithmetic, with proofs of
what they are for. `dafny verify dfyconfig.toml` checks all of it.

* **Sensor multi-HAL** (`RingBuffer`, `SensorEventQueues`, `SensorEvents`, `SensorHandles`, `PollScan`, `MultiHal`,
  `PollProtocol`, `PollTheorems`, `PollCalls`). Each sub-HAL has a thread that reserves a slice of a circular queue under one
  mutex, lets its device fill the slice with no lock held, and commits it under the mutex; `poll` scans the queues in
  turn, renames local sensor handles to global ones and sleeps when there is nothing. The queue and the scan are
  imperative code proved against functions; the threads are a state machine whose steps are the sections under the
  mutex, each single store made without it, and each iteration of the scan, so every interleaving of those is
  covered, spurious wake-ups included. Main results: no unread event is overwritten, events are conserved and kept in
  order, what is committed is what the device stored and as many as it reported, no wake-up is lost (exactly), a scan
  is atomic, reading is fair, a call hands over between one and `maxReads` events however often it waits, and no thread
  gets stuck.
* **IFWI flashing** (`XorAlgebra`, `UmipChecksum`, `UmipFlash`, `FirmwareVersion`). Three overlapping XOR layers on a
  4 MiB image, the flashing of two boot partitions one after the other for every pattern of failing calls, and the scan
  for firmware versions that guards it. Main results: all three layers hold at once after `xor_update`, the checksum
  bytes are determined by the others, each partition is untouched or holds the new image around its own token area, a
  call succeeds exactly when every call it makes does, at most one partition is at
  risk at any moment (exactly when), the versions reported are the last nonzero ones, and nothing is touched when the
  major version differs.
* **Boot images** (`BootImage`, `BootImageTools`). The packer and unpacker over files. Main results: unpacking a packed
  image gives back its parts exactly when each length fits its field, the header cancels, and packing an image's own
  parts reproduces it exactly when the image is canonical.
* **Graphic buffers** (`GraphicBuffers`). Flattening and unflattening, with the exact condition for a round trip.
* **CPU frequency policy** (`PowerPolicy`). The token scan, and a policy that orders its writes so that no CPU's minimum
  exceeds its maximum after any single write. Main results: the exact runs of calls for which that holds, and the exact
  frequency lists for which it holds for all screen changes.

## Assumptions

* Sub-HALs: one reader calls `poll`; a device's `poll` returns at most the number of events it was offered and stores
  only in the region it was given; sensor lists do not change.
* Flashing: a partition cannot be opened for writing while it is read-only, and a mapping shows the partition's own
  bytes. `addr_offset + size` does not wrap; the only caller passes offset 0.
* Boot images: the programs run where `size_t` has 64 bits. Every file can be opened and written, and its length is
  the one `stat` reports.
* Graphic buffers: `size_t` has 32 bits. There is memory under every word that is read, be it input or not.

## Where the code falls short of its intent

* `poll` called with no room for an event sleeps beside queued events and never returns:
  `SleepsBesideDataWithoutRoom`. Its wake-up law holds for exactly the calls with room: `WakeupLawNeedsRoom`.
* Sensors are registered under their module's index, but events are looked up under their queue's index, and only
  sub-HALs that opened have a queue. One without sensors that fails to open makes the events of those behind it
  disappear: `FailedSubHalSilencesTheNext`; delivery holds exactly as `DeliveredAsAdvertised` says. If it has sensors,
  building the list ends the program: `BuildSensorsList`.
* `set_force_ro` returns 0, which means success, when `write` stores nothing. If that happens to the lock of the first
  partition, the loop goes on with it still writable and the call reports success: `LockThatWritesNothing`. This is
  the only way both partitions can be at risk at once: `WriteUmip`. A successful call leaves both read-only exactly
  when both locks really switched: `SuccessLeavesReadOnlyExactly`.
* `pack` never sets its padding variable when the size is already a multiple of the sector size. The model takes that
  variable's stale value as a parameter; `LengthMatchesSectors` says exactly when the length is right.
* A buffer with an empty handle, or none, loses its geometry in a round trip: `GraphicBuffers.RoundTrip`.
* `unflatten` takes an input of eight words, and reads the ninth and tenth: `EightWordsAreTooFew`; exactly when its
  reads stay within the input, `HeadReadsInside` and `AllReadsInside` say.
* On an image that is shorter than its size fields announce, `unpack` copies for ever: `CopyEndsExactly`.
* With the screen on, changing from a profile with a raised minimum to one with a lowered maximum puts a minimum above
  a maximum for a moment. So does switching the screen when the lowest frequency listed is above the profile's
  maximum, and, while no list is usable, changing with the screen off from a lowered maximum to a raised minimum:
  `RunOrderedExactly`.
* An image shorter than a firmware header passes the version scan with all versions zero: `GetImageFwRev`.

## Model

| member | source | states |
|---|---|---|
| SensorEventQueues.SensorEventQueue.GetWritableRegion | sensors/SensorEventQueue.cpp:39-59 | No region exactly when full or nothing requested; otherwise it starts behind the last readable record and its length is the least of the request, the room to the end of the array and the free space |
| SensorEventQueues.SensorEventQueue.MarkAsWritten | sensors/SensorEventQueue.cpp:61-63 | The first `count` records of the region become readable, in order, behind those already there |
| SensorEventQueues.SensorEventQueue.Peek | sensors/SensorEventQueue.cpp:69-72 | The slot of the oldest record, or none exactly when the queue is empty |
| SensorEventQueues.SensorEventQueue.Dequeue | sensors/SensorEventQueue.cpp:74-81 | Removes exactly the oldest record, broadcasts exactly when the queue was full, and leaves an outstanding region where it was |
| RingBuffer.RegionIsMaximal | sensors/SensorEventQueue.h:44-51 | The region has at least one slot and is as long as it can be: it meets the request, the end of the array or the oldest record |
| RingBuffer.RegionDisjointFromReadable | sensors/SensorEventQueue.h:29-31 | The writer's region and the readable records share no slot |
| RingBuffer.FillKeepsContents | sensors/SensorEventQueue.h:29-31 | Storing in the region changes no readable record |
| RingBuffer.CommitAppends | sensors/SensorEventQueue.h:53-57 | Committing k slots appends exactly the k records stored there, across wrap-around too |
| RingBuffer.DequeueDropsHead | sensors/SensorEventQueue.h:63-69 | The first slot holds the head; dequeuing drops it and keeps every outstanding region valid |
| SensorHandles.DroppedExactly | sensors/multihal.cpp:315-335 | With the handles as assigned, a reading is dropped exactly when its sensor was never registered; a metadata event exactly when its own `sensor` field is -1, so an unknown nested handle is still delivered |
| SensorHandles.RemappedExactly | sensors/multihal.cpp:315-335 | A metadata event changes in its nested handle only, any other in `sensor` only, to -1 exactly when that sensor of that queue was never registered, otherwise to the handle of its latest registration |
| SensorHandles.FullToGlobalIsLatest | sensors/multihal.cpp:91-99 | The full-to-global map knows exactly the registered sensors and gives each its latest global handle |
| SensorHandles.MapsInverseIffDistinct | sensors/multihal.cpp:87-99 | The two handle maps are inverse to each other exactly when no sensor was registered twice |
| SensorHandles.NumberingDistinctIffModulesAre | sensors/multihal.cpp:658-689 | No sensor is registered twice exactly when each module's own handles are distinct |
| SensorHandles.AdvertisedIsConsecutive | sensors/multihal.cpp:669-689 | Entry k of the list carries the initial next handle plus k |
| SensorHandles.AdvertisedEntry | sensors/multihal.cpp:669-689 | The entry of sensor i of module m carries that sensor's own description, renumbered |
| SensorHandles.OpenSubHals | sensors/multihal.cpp:757-770 | Each sub-HAL that opens gets the next queue: in order, none else |
| SensorHandles.DeliveredAsAdvertised | sensors/multihal.cpp:345-356 | Looked up under its queue's index, every sensor of every opened sub-HAL gets the handle advertised for it exactly when each such sub-HAL with sensors comes after none that failed to open and gave them distinct handles |
| SensorHandles.ReadingArrivesAsListed | sensors/multihal.cpp:315-335 | Then a reading from that queue is not dropped and carries the handle of its sensor's list entry |
| SensorHandles.MetaDataArrivesAsListed | sensors/multihal.cpp:315-335 | And a metadata event about that sensor carries that handle in its payload and is otherwise unchanged; it is dropped exactly when its own `sensor` is -1 |
| SensorHandles.FailedSubHalSilencesTheNext | sensors/multihal.cpp:757-770 | With distinct handles and a first sub-HAL that has no sensors and fails to open, every reading of the second is dropped |
| SensorHandles.QueueIndexIsModuleIndex | sensors/multihal.cpp:757-770 | Queue index and module index agree for all opened sub-HALs exactly when none that failed precedes one that opened |
| SensorHandles.HandleRegistry.AssignGlobalHandle | sensors/multihal.cpp:91-99 | Hands out the next handle and keeps both maps in step with the registrations so far |
| SensorHandles.HandleRegistry.GetLocalHandle | sensors/multihal.cpp:101-108 | The local handle registered under a global one, -1 for any other number |
| SensorHandles.HandleRegistry.GetModuleIndex | sensors/multihal.cpp:110-121 | The module registered under a global handle, -1 for any other number |
| SensorHandles.HandleRegistry.BuildSensorsList | sensors/multihal.cpp:640-691 | All sub-HALs' sensors in order, renumbered consecutively and registered in that order; the version lookup ends the program exactly when a sub-HAL that did not open has sensors, right after numbering the first of them |
| MultiHal.SensorsPollContext.CopyEventRemapHandle | sensors/multihal.cpp:315-335 | Writes one slot of the caller's buffer, with the event remapped |
| MultiHal.SensorsPollContext.Scan | sensors/multihal.cpp:345-363 | The inner loop of poll over real queues meets ScanResult, moves `nextReadIndex` as it should and writes only the slots up to the one behind the last event kept |
| PollScan.RunMeetsResult | sensors/multihal.cpp:345-363 | A scan takes a prefix of each queue, delivers exactly the undropped events in the order taken, at most `maxReads`, and fewer only when every queue is empty |
| PollScan.StepDecreases | sensors/multihal.cpp:346-363 | The scan terminates: queued events, then queues still to be found empty, decrease, also through dropped events |
| PollScan.FullRoundMeansAllEmpty | sensors/multihal.cpp:349-350 | As many empty looks in a row as there are queues mean that all are empty |
| PollProtocol.StepInv | sensors/multihal.cpp:142-179 | Every step of every thread keeps the protocol's invariant |
| PollProtocol.ScanStepRefines | sensors/multihal.cpp:346-363 | One iteration on the shared rings is one step of the scan on queue contents |
| PollTheorems.NoUnreadEventIsOverwritten | sensors/multihal.cpp:149-176 | In every reachable state an outstanding region still starts behind the readable records, fits array and free space, and meets no unread record |
| PollTheorems.NoStepIsOutOfBounds | sensors/multihal.cpp:142-179 | In every reachable state no thread's next step reaches outside its array |
| PollTheorems.EventsAreConserved | sensors/multihal.cpp:337-377 | In every reachable state: committed by a module = taken from it followed by still queued, in order; returned and collected = taken, remapped, without the dropped |
| PollTheorems.NoLostWakeup | sensors/multihal.cpp:150-175 | A writer asleep has been signalled exactly when its queue has space; a reader asleep (with room) exactly when some queue has an event; `waiting_for_data` is set while it sleeps |
| PollTheorems.NeverBothAsleep | sensors/multihal.cpp:364-371 | Reader and writer are never both asleep without a signal |
| PollTheorems.SleepsBesideDataWithoutRoom | sensors/multihal.cpp:346-368 | A run in which poll with no room sleeps unsignalled beside a queued event |
| PollTheorems.WakeupLawNeedsRoom | sensors/multihal.cpp:345-371 | The reader's wake-up law holds in every reachable state exactly for calls with room for an event |
| PollTheorems.PollReturns | sensors/multihal.cpp:345-376 | A call returns only with 1 to `maxReads` events, with fewer only when all queues are empty; it waits only then |
| PollCalls.OnlyFullHandsReturn | sensors/multihal.cpp:337-377 | Over all steps of all threads: whichever ends a call hands over 1 to `maxReads` events, fewer than that only when every queue is empty; all others hand over nothing and keep the caller's limit |
| PollCalls.CallHandsOver | sensors/multihal.cpp:337-377 | So for a whole call, from CallPoll(maxReads) through any run to the step that ends it |
| PollCalls.ScansThenReturnsOrSleeps | sensors/multihal.cpp:343-373 | Called or woken, the reader scans the queues it found, from where it left off, whatever the writers do; it returns what that delivers, or sleeps when that is nothing |
| PollCalls.EventEndsTheCall | sensors/multihal.cpp:343-371 | A call made or woken, with or without a signal, while a deliverable event is queued returns at the end of that scan |
| PollCalls.CallCanReturn | sensors/multihal.cpp:337-377 | And there is such a run, of the reader's own steps alone |
| PollCalls.WriterCanCommit | sensors/multihal.cpp:149-176 | A writer whose queue has space, asleep or not, can bring an event from its device to its queue by its own steps, which signals a sleeping reader |
| PollCalls.UpstreamExactly | sensors/multihal.cpp:315-363 | Each event taken goes behind those passed upstream before it, with only the handle it names changed, to the latest one of that sensor; or nowhere, exactly when a reading's sensor is unknown or a metadata event's own `sensor` is -1 |
| PollTheorems.OthersDoNotDisturbTheScan | sensors/multihal.cpp:154-168 | While the reader scans, no step of a writer changes what the scan looks at |
| PollTheorems.StoredRecordStays | sensors/multihal.cpp:154-169 | In any run a stored record stays as it is until its own device stores in that slot again |
| PollTheorems.ReservedRegion | sensors/multihal.cpp:149-154 | Reserving waits exactly on a full queue; otherwise the region starts behind the last record and reaches 36 slots, the end of the array or the oldest unread record |
| PollTheorems.WriterFollowsDevice | sensors/multihal.cpp:154-164 | After a run from Polling without commit or reservation, the writer stands where the device's last result puts it: still polling, starting over after 0 or an error, or about to commit exactly that many |
| PollTheorems.CommittedIsWhatWasStored | sensors/multihal.cpp:154-169 | Over any run of all threads from a reserved region to its commit, the committed events grow by as many as the device's last result in that run says, each the last one it stored at that offset |
| PollTheorems.ScanIsAtomic | sensors/multihal.cpp:343-373 | Whatever stores fall between its iterations, the inner loop ends where the uninterrupted scan ends |
| PollTheorems.ScanTerminates | sensors/multihal.cpp:346-363 | Each iteration on the shared state decreases the measure |
| PollTheorems.FairToEveryQueue | sensors/multihal.cpp:347-362 | While a non-empty queue waits, the reader makes no more steps than it is away from it, and takes events in one round |
| PollTheorems.AtMostOneFromEachOther | sensors/multihal.cpp:347-362 | So, across any number of calls, at most one event is taken from each other queue first |
| XorAlgebra.FactorizeXorWords | recovery/recovery_updater.cpp:110-124 | Folding the XOR of all words gives the XOR of all bytes |
| XorAlgebra.XorWordsChange | recovery/recovery_updater.cpp:110-119 | Changing one word changes the sum by what the word changed by |
| XorAlgebra.XorWordsIsOnValues | recovery/recovery_updater.cpp:110-119 | The sum's bytes are those of the XOR of the 32-bit values |
| XorAlgebra.FactorizeIsOnValues | recovery/recovery_updater.cpp:121-124 | Folding a word's bytes is the shift-and-mask expression on its 32-bit value |
| UmipChecksum.XorCompute | recovery/recovery_updater.cpp:110-119 | The loop computes the XOR of the range's words |
| UmipChecksum.XorUpdate | recovery/recovery_updater.cpp:126-146 | All three layers hold at once, only checksum bytes change, and a consistent image stays as it is |
| UmipChecksum.LayersInNumbers | recovery/recovery_updater.cpp:36-43 | The layers and checksum bytes in plain numbers: sectors 2 to 127 of 0x200 bytes with words at 4i, the first 0x10000 bytes, the whole 0x400000 |
| UmipChecksum.UmipSumEstablished | recovery/recovery_updater.cpp:137-140 | Storing the folded sum over a zeroed byte makes the first 64 KiB cancel |
| UmipChecksum.IfwiSumEstablished | recovery/recovery_updater.cpp:142-145 | Storing the sum over a zeroed word makes the whole image cancel |
| UmipChecksum.ConsistentImageIsUnique | recovery/recovery_updater.cpp:126-146 | Two consistent images that agree outside the checksum bytes are identical |
| UmipFlash.Emmc.SetForceRo | recovery/recovery_updater.cpp:61-80 | From what open and write return: 0 exactly when neither failed, and 0 without switching exactly when write stored nothing; the descriptor is closed on every way out |
| UmipFlash.Emmc.Splice | recovery/recovery_updater.cpp:195-213 | Outside the checksums the mapped partition gets the new data, at offset 0 around its own bytes 0x4000 to 0x6BFF, and keeps the rest; all checksums are right for the result |
| UmipFlash.Emmc.WriteUmip | recovery/recovery_updater.cpp:148-241 | For every pattern of failures: success exactly when every call worked and the data fit or were cut to fit; each partition is unchanged or holds the flash byte by byte (image or zeros, own token area and tail), the second only after the first; which are left writable, in every case; nothing leaked; every unlocked partition told to lock again; from two partitions at rest, both at risk at once exactly in the case named |
| UmipFlash.FlashResultHoldsFlash | recovery/recovery_updater.cpp:195-213 | Wherever a call writes, every byte that holds no checksum is the old one in the token area at offset 0 and outside the range written, and elsewhere the data's, or 0 without data |
| UmipFlash.SucceedsExactly | recovery/recovery_updater.cpp:148-241 | The loop over both partitions succeeds exactly when each unlock, open, mapping and lock works and the data fit, which at offset 0 they are made to |
| UmipFlash.WhenBothAreExposed | recovery/recovery_updater.cpp:174-240 | Over the history of a call from partitions at rest, both are at risk at once exactly when the first was left writable while the second was |
| UmipFlash.LockThatWritesNothing | recovery/recovery_updater.cpp:71-76 | A flash of partitions at rest in which the first lock stores nothing: it reports success, leaves the first partition writable and had both at risk at once |
| UmipFlash.SuccessLeavesReadOnlyExactly | recovery/recovery_updater.cpp:217-228 | A successful call leaves both partitions read-only exactly when both locks really switched |
| UmipFlash.FlashResultIsUnique | recovery/recovery_updater.cpp:148-241 | The failures and the data determine what both partitions hold afterwards and which are writable |
| UmipFlash.FlashingAgainChangesNothing | recovery/recovery_updater.cpp:195-213 | Flashing the same data again leaves a partition as it is |
| UmipFlash.FlashedPartitionsAgree | recovery/recovery_updater.cpp:195-228 | After a successful flash of a whole image both partitions hold it outside token area and checksums |
| FirmwareVersion.GetImageFwRev | recovery/fw_version_check.cpp:194-265 | The nested scan is the fold over all headers at multiples of 4; it fails exactly without a record, or when there is room for a header and no "$FIP" at such a place |
| FirmwareVersion.VersionsAreLastNonzero | recovery/fw_version_check.cpp:228-258 | Each number reported is the last nonzero one in the image, or 0 when there is none; the boot strap's are 0 |
| FirmwareVersion.VersionsInNumbers | recovery/fw_version_check.cpp:31-91 | The same in plain offsets: "$FIP", 352 bytes of header, low byte first, and where each component's numbers are |
| FirmwareVersion.HasHeaderExactly | recovery/fw_version_check.cpp:201-223 | A header is found exactly when some multiple of 4 has "$FIP" and room for 352 bytes |
| FirmwareVersion.AcceptedExactly | recovery/recovery_updater.cpp:82-108 | An image is accepted exactly when the device is readable, the image has a header or no room for one, and the last nonzero number at offset 346 of its headers is the device's ifwi major number |
| FirmwareVersion.NoHeaderNoVersions | recovery/fw_version_check.cpp:201-223 | Without a header all versions are 0 |
| FirmwareVersion.CheckIfwiFile | recovery/recovery_updater.cpp:82-108 | 1 exactly for images with that major number, said on the image's bytes; otherwise -1 |
| FirmwareVersion.FlashIfwi | recovery/recovery_updater.cpp:288-297 | Nothing changes for an image of another major number; success exactly when the major number is the device's and every call works, and then both partitions hold the image byte by byte; and all else that WriteUmip promises |
| BootImage.Le32Field | mkbootimg/pack.c:118-140 | Four bytes are the little-endian form of n exactly when they decode to n |
| BootImage.Le32IsLowByteFirst | mkbootimg/pack.c:118-140 | What decoding gives is the number whose low byte comes first |
| BootImage.PackedFields | mkbootimg/pack.c:112-146 | What a packed image's size, sector and command line fields hold |
| BootImage.PackedByteByByte | mkbootimg/pack.c:104-161 | A packed image in plain offsets, byte by byte: origin, command line at 992, sizes at 2016 and 2020, kernel at 13280, ramdisk, 0xff up to the end; its length; and the first 56 bytes cancel |
| BootImage.RoundTrip | mkbootimg/unpack.c:88-143 | Unpacking a packed image returns kernel and ramdisk exactly when each length fits 32 bits, and the command line followed by the origin's tail |
| BootImage.LengthMatchesSectors | mkbootimg/pack.c:126-140 | The length is (sectors + 1) sectors exactly when the rounded size fits 32 bits and the padding was set or 0 |
| BootImage.HeaderCancels | mkbootimg/pack.c:56-66 | The first 56 bytes XOR to 0 whatever checksum the origin held |
| BootImage.PackedIsCanonical | mkbootimg/pack.c:104-161 | A packed image is canonical: cancelling header, matching sector field, only filler behind the ramdisk |
| BootImage.RepackingReproduces | mkbootimg/pack.c:104-161 | Packing an image's own parts over itself reproduces it byte for byte exactly when it is canonical |
| BootImageTools.CalculateChecksum | mkbootimg/pack.c:56-66 | The loop computes the XOR of the 56 bytes without the checksum byte |
| BootImageTools.ReadCmdline | mkbootimg/pack.c:112-116 | Replaces as much of the command line as the file has, at most 1024 bytes |
| BootImageTools.Sizes | mkbootimg/pack.c:118-140 | The 32-bit size computation gives the sector field and the padding |
| BootImageTools.CopyAll | mkbootimg/pack.c:147-155 | Copies a whole file, a buffer at a time |
| BootImageTools.Pack | mkbootimg/pack.c:68-164 | Writes exactly the packed image, or fails without output when the origin is too short |
| BootImage.CopyEndsExactly | mkbootimg/unpack.c:92-99 | The copy loop ends exactly when the file holds all it is to copy |
| BootImageTools.CopyOut | mkbootimg/unpack.c:123-130 | Then it copies exactly the requested length, a buffer at a time |
| BootImageTools.Unpack | mkbootimg/unpack.c:88-145 | Whenever its copy loops end: writes exactly the parts of a complete image, or only the command line of one that ends within the size fields, and fails |
| GraphicBuffers.IdRoundTrip | libshims/ui/GraphicBuffer.cpp:392-393 | Splitting the 64-bit id into signed words and joining them restores it, despite sign extension |
| GraphicBuffers.WordsInOrder | libshims/ui/GraphicBuffer.cpp:310-321 | The fixed words in order, the id's halves high one first, the counts of descriptors and ints |
| GraphicBuffers.FlattenedIsAccepted | libshims/ui/GraphicBuffer.cpp:339-365 | Flattened words are accepted exactly when the handle is within the limits |
| GraphicBuffers.RoundTrip | libshims/ui/GraphicBuffer.cpp:371-393 | The id always comes back, both sides move by the same amounts, and the whole buffer comes back exactly when its handle holds something or it was clear |
| GraphicBuffers.GraphicBuffer.GetFlattenedSize | libshims/ui/GraphicBuffer.cpp:292-294 | Four bytes for every word flattening writes |
| GraphicBuffers.GraphicBuffer.Flatten | libshims/ui/GraphicBuffer.cpp:300-335 | Writes exactly the words and descriptors, nothing else, and advances by them; fails without effect exactly when they do not fit |
| GraphicBuffers.HeadReadsInside | libshims/ui/GraphicBuffer.cpp:339-345 | The words read before the length is known lie within the input exactly when it is refused for its size or first word, or has ten words |
| GraphicBuffers.AllReadsInside | libshims/ui/GraphicBuffer.cpp:337-393 | And so do all words read |
| GraphicBuffers.EightWordsAreTooFew | libshims/ui/GraphicBuffer.cpp:339-345 | An input of eight words that makes it read the ninth |
| GraphicBuffers.GraphicBuffer.Unflatten | libshims/ui/GraphicBuffer.cpp:337-414 | The words it reads; each rejection and failure with the state it leaves; otherwise the buffer the words stand for |
| PowerPolicy.GetScreenOffLimits | power/power.cpp:139-170 | The token loop computes the screen-off limits |
| PowerPolicy.ScreenOffLimitsAre | power/power.cpp:139-170 | The limits are the lowest listed frequency and the highest within the target; without one within it, both are the lowest |
| PowerPolicy.GetProfileLimits | power/power.cpp:172-193 | The table of the profiles' limits in kHz |
| PowerPolicy.TargetIs | power/power.cpp:172-206 | The limits wanted: the profile's with the screen on or without a usable list, otherwise the lowest frequency to the highest within 933000, or the lowest alone |
| PowerPolicy.WritesOrdered | power/power.cpp:195-219 | Every CPU stays in order after each of the eight writes exactly when the first four do not cross the standing limits |
| PowerPolicy.PowerHal.SetMinFreq | power/power.cpp:125-128 | Sets the minimum on each CPU in turn |
| PowerPolicy.PowerHal.SetMaxFreq | power/power.cpp:130-133 | Sets the maximum on each CPU in turn |
| PowerPolicy.PowerHal.ApplyPowerProfile | power/power.cpp:195-219 | Brings every CPU to the wanted limits by writes in the order the display state asks for |
| PowerPolicy.PowerHal.SetInteractive | power/power.cpp:221-227 | The same for the new display state |
| PowerPolicy.PowerHal.SetPowerProfile | power/power.cpp:233-241 | The same for the new profile; an unknown one changes nothing |
| PowerPolicy.CallOrdered | power/power.cpp:172-219 | From limits the policy applied, a call keeps every CPU in order after every write exactly unless it crosses, for every frequency list |
| PowerPolicy.RunOrderedExactly | power/power.cpp:195-241 | A run of calls keeps min ≤ max after every single write exactly when no call crosses, for every frequency list |
| PowerPolicy.ScreenRunsOrderedExactly | power/power.cpp:139-241 | All runs with profile changes only while off are safe exactly when the list has a frequency low enough |

## Left out

- SensorEventQueues.SensorEventQueue.GetWritableRegion: integers are unbounded, so an overflow of `firstWritable + requestedLength` near the largest int is not modelled; the only caller asks for 36.
- The blocking calls themselves: `waitForSpace` and the wait in `poll` are the sleeping states of `PollProtocol`; `MultiHal.SensorsPollContext.Scan` is the part of `poll` between two waits.
- Memory effects below the mutex, and copying an event in more than one store.
- `batch`, `flush`, `activate`, `inject_sensor_data`, `fix_sensor_flags` and loading of sub-HALs of `sensors/multihal.cpp`: forwarding to vendor code, library calls and a change of opaque flags.
- `read_fw_revision`: parsing of text; the device's versions are given.
- UmipFlash.Emmc.WriteUmip: the history has one entry for each operation on a partition; states inside a copy or inside `xor_update`, in which the partition is writable anyway, are not in it. Durability of the flash is not modelled.
- `readbyte_umip_emmc` and the script function that reads the image file.
- BootImageTools.Unpack: called only where its copy loops end, which CopyEndsExactly determines; an endless loop has no result to state.
- The buffer addresses `flatten` and `unflatten` hand back: they advance an `int` address by a number of bytes; size, descriptors and count are modelled.
- Freeing the previous native handle, the owner field and the mapper's own state in `unflatten`.
- `sysfs` reads and writes in `power/power.cpp` that fail, parsing of the frequency list, and `power_hint`, which only turns a missing argument into profile 0.
- `make_recovery_patch`, camera, keystore, lights, health, init, Java code, shims, kernel headers, policies and configuration: thin forwarding, small finite choices or data.
