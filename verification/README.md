# Verified models of the brcmfmac tables and of the AWDL userspace tools

This project models, in Dafny, the parts of the repository that keep state or move bytes in ways that are
easy to get wrong, and proves what they are for.

* `CommonRing`, `RingLink`: the ring the host shares with the device, and two parties on it taking steps in any
  order with stale copies of each other's index. It refines an unbounded FIFO.
* `NvramParser`, `NvramRoundTrip`, `NvramStrip`, `NvramDevice`, `NvramImage`: the NVRAM text compiler, its inverse,
  the reduction of texts for several devices, the finished image and its buffer.
* `BtCoex`: the Bluetooth-coexistence sessions, with the eight registers of the device as model state.
* `FlowSpec`, `FlowTable`, `FlowControl`, `FlowMap`, `FlowExact`, `FlowRings`, `TdlsPeers`: flow rings with their hash,
  watermarks and stop bits, and the linked list of TDLS peers.
* `VendorIes`: vendor elements, saved by the driver and installed in the firmware.
* `ScanList`: the packed list of scan results.
* `SdioScatter`, `SdioWindow`: block transfers cut into requests, and RAM seen through a window.
* `Checksum`, `MdnsFrames`, `DnsName`: the announced datagrams, their encapsulation, and DNS names.
* `AwdlNames`, `AwdlRecords`, `AwdlRoundTrip`: AWDL service records, built and parsed.
* `PeerWatch`: the watcher's table of peers against the firmware's.

Code that changes state is a class or a method with loops, and its contract ties the new state to a specification
function; the lemmas about that function, over single steps and over whole runs, state what the code is for.
The firmware, the device, the other end of the ring, the timer and the kernel's tables are explicit model state.
`Arithmetic`, `Bytes` and `Wrappers` hold what the others share.

Where the code and its promises differ, the code is modelled, the exact condition is proved, and an input that fails,
or every one, is named:

* `RingLink.CancelMovesBack`: cancelling zero items at slot zero moves the write index out of the buffer. No caller
  does so today: all four, at lines 973, 983, 1083 and 1093 of msgbuf.c, cancel `alloced - i` with `i < alloced`.
* `NvramImage.SeveralStayExactly`: for a text for several devices the buffer is sized before anything is added.
* `NvramEntries.FoundExactly`: a device path close to the end of the buffer is overlooked.
* `NvramPaths.BelongsExactly`: paths are compared without the slash behind the bus, so bus 10 passes for bus 1.
* `FlowExact.StepExactIff`: unblocking does not look at blocked rings that are closed or closing, so the stop bit can
  be cleared while such a ring is blocked.
* `VendorIeSpec.InstalledExactly`: not everything that is accepted is installed; the headers count.
* `ScanSpec.UpdatedMixed`: the comment at cfg80211.c:3521 says that the on-channel measurement is preserved; the
  code overwrites it with the off-channel one and leaves the flag set.
* `SdioScatter.CommandRightExactly`: the command argument is not cleared between requests, so a request may carry bits
  of earlier addresses and block counts.
* `SdioWindowSpec.CacheAfterFailure`: after a failed register write the host may skip the write it needs.
* `SdioWindowSpec.FirstChunkFits`: the size of the first chunk is wrong when the 32-bit sum wraps.
* `DnsNameSpec.InvertsExactly`: `dname` writes labels of up to 255 characters; from 192 on they read as pointers, and
  outside ASCII the length byte counts fewer characters than there are bytes.
* `DnsNames.UncaughtExactly`: a query that ends in half a pointer raises an error that is not caught.
* `MdnsFrameSpec.SnapRecovered`: a SNAP frame longer than 1500 bytes is built but not understood.
* `AwdlRecords.UncaughtExactly`: a host record that ends in half a dictionary code raises an error that is not caught.
* `AwdlRoundTrip.EndpointExactly`: host and id labels of length 0 or 192, and ids with a dot, do not come back.
* `PeerSpec.RestartLeaves`: a firmware entry whose DEL failed is not given back by a restart, which knows only neighbours.

To check everything: `dafny verify dfyconfig.toml`.

## Model

| member | source | states |
|---|---|---|
| `CommonRing.Descriptor.constructor` | kernel/drivers/net/wireless/broadcom/brcm80211/brcmfmac/commonring.c:31-48 | both indices and all pointers start at zero, in memory and in the descriptor |
| `CommonRing.Descriptor.WriteAvailable` | kernel/drivers/net/wireless/broadcom/brcm80211/brcmfmac/commonring.c:68-105 | yes exactly when, after at most one refresh of the stale read index, a slot is free and, after a full ring, more than an eighth of the ring is |
| `CommonRing.Descriptor.ReserveForWrite` | kernel/drivers/net/wireless/broadcom/brcm80211/brcmfmac/commonring.c:108-140 | hands out the slot at the write index and advances it, or none, setting was_full, when the ring is full even after a refresh |
| `CommonRing.Descriptor.ReserveForWriteMultiple` | kernel/drivers/net/wireless/broadcom/brcm80211/brcmfmac/commonring.c:143-178 | hands out at most the wanted, the free and the slots up to the end of the buffer; leaves the count alone when it hands out nothing |
| `CommonRing.Descriptor.WriteComplete` | kernel/drivers/net/wireless/broadcom/brcm80211/brcmfmac/commonring.c:181-194 | publishes the write index, and only that |
| `CommonRing.Descriptor.WriteCancel` | kernel/drivers/net/wireless/broadcom/brcm80211/brcmfmac/commonring.c:197-204 | the write index moves back in 16-bit arithmetic, with slot zero as the end of the buffer |
| `CommonRing.Descriptor.GetReadPtr` | kernel/drivers/net/wireless/broadcom/brcm80211/brcmfmac/commonring.c:207-222 | the contiguous run between the read index and the freshly fetched write index, none exactly when it is empty |
| `CommonRing.Descriptor.ReadComplete` | kernel/drivers/net/wireless/broadcom/brcm80211/brcmfmac/commonring.c:225-236 | the read index advances within its run, wraps at the end, and is published |
| `RingIndex.AdvanceStream` | kernel/drivers/net/wireless/broadcom/brcm80211/brcmfmac/commonring.c:163-172 | moving on in the unbounded stream of items is moving on in the ring |
| `RingLink.StepInv` | kernel/drivers/net/wireless/broadcom/brcm80211/brcmfmac/commonring.c:68-236 | every producer and consumer step, on stale indices or not, keeps the link invariant: ordered counters, every index the slot of its counter, published items in place until declared read |
| `RingLink.RefinesFifo` | kernel/drivers/net/wireless/broadcom/brcm80211/brcmfmac/commonring.c:108-236 | every step is a step of an unbounded FIFO: publishing appends the reserved slots, reading takes the head, all others leave the queue alone |
| `RingLink.ConsumerReadsPublished` | kernel/drivers/net/wireless/broadcom/brcm80211/brcmfmac/commonring.c:108-236 | after every run from an empty ring the items read followed by the items the slots still hold are exactly the items published, each once and in order |
| `RingLink.NeverOverwritesUnread` | kernel/drivers/net/wireless/broadcom/brcm80211/brcmfmac/commonring.c:108-194 | in every run no slot that a reservation hands out or a producer writes holds an unread item |
| `RingLink.HandedOutFree` | kernel/drivers/net/wireless/broadcom/brcm80211/brcmfmac/commonring.c:108-178 | a reservation hands out only slots without an unread item |
| `RingLink.RefusesOnlyWhenFull` | kernel/drivers/net/wireless/broadcom/brcm80211/brcmfmac/commonring.c:108-178 | a reservation is refused if and only if depth - 1 items are really reserved and not yet declared read, stale index notwithstanding |
| `RingLink.PollIsKept` | kernel/drivers/net/wireless/broadcom/brcm80211/brcmfmac/commonring.c:68-140 | after a positive write_available the next reservation succeeds; after a negative one was_full is set |
| `RingLink.RefreshInv` | kernel/drivers/net/wireless/broadcom/brcm80211/brcmfmac/commonring.c:207-222 | a refresh finds nothing exactly when everything published has been declared read |
| `RingLink.ReadInv` | kernel/drivers/net/wireless/broadcom/brcm80211/brcmfmac/commonring.c:207-222 | the item read next is the published item next in order |
| `RingLink.CancelUndoesReserve` | kernel/drivers/net/wireless/broadcom/brcm80211/brcmfmac/commonring.c:143-204 | giving back a whole reservation restores the write index, also across the end of the buffer |
| `RingLink.CancelMovesBack` | kernel/drivers/net/wireless/broadcom/brcm80211/brcmfmac/commonring.c:197-204 | for every ring and count: the write index moves back by the count if and only if it is at least the count or, at slot zero, the count is between one and the depth |
| `RingLink.CancelNothingAtZero` | kernel/drivers/net/wireless/broadcom/brcm80211/brcmfmac/commonring.c:197-204 | the failing case: cancelling nothing at slot zero puts the index behind the buffer |
| `NvramText.Progress` | kernel/drivers/net/wireless/broadcom/brcm80211/brcmfmac/firmware.c:87-195 | every handler keeps the parser sound and consumes input, or stays and goes to a state of lower rank, or ends: the parser loop terminates on every NUL-terminated input |
| `NvramText.EndOfLineUnique` | kernel/drivers/net/wireless/broadcom/brcm80211/brcmfmac/firmware.c:171-189 | the end of a comment is the first line feed or NUL, and only that |
| `NvramText.ImageFits` | kernel/drivers/net/wireless/broadcom/brcm80211/brcmfmac/firmware.c:206-230 | for every terminated text the finished image fits the one allocation, its length is four times the low half of the token plus four, and the halves are complementary |
| `NvramText.ImageLength` | kernel/drivers/net/wireless/broadcom/brcm80211/brcmfmac/firmware.c:434-446 | padding is one to four zero bytes; length and token agree |
| `NvramText.TokenHalves` | kernel/drivers/net/wireless/broadcom/brcm80211/brcmfmac/firmware.c:441-443 | the token holds the length in words below and its complement above |
| `NvramRoundTrip.AllocationTight` | kernel/drivers/net/wireless/broadcom/brcm80211/brcmfmac/firmware.c:213-223 | the allocation has no byte to spare: the text a=b, with a platform MAC, needs all of it |
| `NvramParser.StrChr` | kernel/drivers/net/wireless/broadcom/brcm80211/brcmfmac/firmware.c:171-189 | the first occurrence before the terminating NUL, or that NUL |
| `NvramParser.StrNCmp` | kernel/drivers/net/wireless/broadcom/brcm80211/brcmfmac/firmware.c:118-131 | whether the text at a place starts with the given prefix |
| `NvramParser.Compiler.constructor` | kernel/drivers/net/wireless/broadcom/brcm80211/brcmfmac/firmware.c:206-230 | a zeroed parser over a buffer of the allocated size |
| `NvramParser.Compiler.HandleIdle` | kernel/drivers/net/wireless/broadcom/brcm80211/brcmfmac/firmware.c:87-108 | one step in the idle state |
| `NvramParser.Compiler.HandleKey` | kernel/drivers/net/wireless/broadcom/brcm80211/brcmfmac/firmware.c:110-141 | one step in a key, recognising RAW1, devpath, pcie/, boardrev and macaddr |
| `NvramParser.Compiler.HandleValue` | kernel/drivers/net/wireless/broadcom/brcm80211/brcmfmac/firmware.c:143-169 | one step in a value: copies a finished entry with its NUL, in bounds, or ends when the size limit would be reached |
| `NvramParser.Compiler.HandleComment` | kernel/drivers/net/wireless/broadcom/brcm80211/brcmfmac/firmware.c:171-189 | one step over a comment to behind the end of its line |
| `NvramParser.Compiler.Parse` | kernel/drivers/net/wireless/broadcom/brcm80211/brcmfmac/firmware.c:411-415 | the parser loop ends and computes the run of its handlers |
| `NvramParser.Compiler.AddDefaults` | kernel/drivers/net/wireless/broadcom/brcm80211/brcmfmac/firmware.c:368-378 | appends the default boardrev, NUL-terminated, unless one was found |
| `NvramParser.Compiler.AddMacAddr` | kernel/drivers/net/wireless/broadcom/brcm80211/brcmfmac/firmware.c:380-388 | appends the MAC entry, NUL-terminated |
| `NvramParser.Compiler.Pad` | kernel/drivers/net/wireless/broadcom/brcm80211/brcmfmac/firmware.c:434-439 | fills with zeros up to the rounded length |
| `NvramParser.Compiler.Finish` | kernel/drivers/net/wireless/broadcom/brcm80211/brcmfmac/firmware.c:429-446 | what was parsed, defaults, MAC entry, padding and token, in that order and in bounds |
| `NvramImage.FwNvramStrip` | kernel/drivers/net/wireless/broadcom/brcm80211/brcmfmac/firmware.c:395-449 | the whole function: nothing, exactly when no entry is left for the device; or the finished image of what is left, in its buffer; or that it would leave a buffer, exactly when it would |
| `NvramImage.Reduce` | kernel/drivers/net/wireless/broadcom/brcm80211/brcmfmac/firmware.c:418-424 | a text for several devices reduced to one, in a new buffer |
| `NvramImage.DeviceEntries` | kernel/drivers/net/wireless/broadcom/brcm80211/brcmfmac/firmware.c:87-366 | from lines to device: for any well-formed lines under 64000 bytes the output for a device is exactly the entries it is to have, in order |
| `NvramImage.OneDeviceStays` | kernel/drivers/net/wireless/broadcom/brcm80211/brcmfmac/firmware.c:206-449 | a text for one device never makes it leave its buffer |
| `NvramImage.SeveralStayExactly` | kernel/drivers/net/wireless/broadcom/brcm80211/brcmfmac/firmware.c:251-449 | one for several does not if and only if what the strip drops makes up for the defaults, the MAC entry, padding and token; where no fewer bytes are dropped than added, it does |
| `NvramImage.OneEntryOverflows` | kernel/drivers/net/wireless/broadcom/brcm80211/brcmfmac/firmware.c:331-446 | the failing case: the text pcie/1/4/x=y |
| `NvramRoundTrip.RoundTrip` | kernel/drivers/net/wireless/broadcom/brcm80211/brcmfmac/firmware.c:87-204 | for any well-formed lines under 64000 bytes, with either line ending, notes, blank and comment lines, the output is exactly the entries in order, NUL-terminated, less RAW1 ones and, with a platform MAC, macaddr ones; the flags say exactly which special keys occur |
| `NvramRoundTrip.TakeLines` | kernel/drivers/net/wireless/broadcom/brcm80211/brcmfmac/firmware.c:87-189 | the parser, idle at the start of a line, takes any lines one after the other |
| `NvramRoundTrip.TakeEntry` | kernel/drivers/net/wireless/broadcom/brcm80211/brcmfmac/firmware.c:110-169 | one entry is copied or skipped as its key says, with what follows its value on the line |
| `NvramRoundTrip.EatLine` | kernel/drivers/net/wireless/broadcom/brcm80211/brcmfmac/firmware.c:171-189 | a comment is skipped to its end of line |
| `NvramRoundTrip.KeyPrefix` | kernel/drivers/net/wireless/broadcom/brcm80211/brcmfmac/firmware.c:118-131 | a special key is recognised exactly when the key starts with it |
| `NvramRoundTrip.UnterminatedEntry` | kernel/drivers/net/wireless/broadcom/brcm80211/brcmfmac/firmware.c:143-169 | behind any lines, an entry on a last line without line feed is kept exactly when its key is and the terminating NUL is counted in the length |
| `NvramDevice.EntriesOfFlat` | kernel/drivers/net/wireless/broadcom/brcm80211/brcmfmac/firmware.c:143-169 | splitting a compiled buffer at its NULs undoes joining entries |
| `NvramDevice.OutputIsEntries` | kernel/drivers/net/wireless/broadcom/brcm80211/brcmfmac/firmware.c:87-189 | whatever the text, the output is empty or ends in a NUL, and its entries are assignments, as both strips need |
| `NvramDevice.CompiledEntries` | kernel/drivers/net/wireless/broadcom/brcm80211/brcmfmac/firmware.c:411-422 | what the strips find in a compiled text is its kept entries in order, all of them assignments |
| `NvramEntries.FlatEntries` | kernel/drivers/net/wireless/broadcom/brcm80211/brcmfmac/firmware.c:288-366 | joining entries undoes splitting |
| `NvramEntries.ShortTail` | kernel/drivers/net/wireless/broadcom/brcm80211/brcmfmac/firmware.c:346-362 | entries in a tail no longer than the prefix contain no matching one: the early loop exit drops nothing |
| `NvramEntries.FoundExactly` | kernel/drivers/net/wireless/broadcom/brcm80211/brcmfmac/firmware.c:270-284 | the first device path for the device is found if and only if more than the device-path length remains from its start |
| `NvramEntries.NoDevpathNoId` | kernel/drivers/net/wireless/broadcom/brcm80211/brcmfmac/firmware.c:270-286 | without a device path for the device no id is found |
| `NvramEntries.LastDevpathHidden` | kernel/drivers/net/wireless/broadcom/brcm80211/brcmfmac/firmware.c:255-284 | the failing case: a device path of exactly that length at the end is overlooked |
| `NvramPaths.TakenExactly` | kernel/drivers/net/wireless/broadcom/brcm80211/brcmfmac/firmware.c:259-277 | a stored device path is taken for the device if and only if the domain is the same and the decimal bus asked for starts the stored one |
| `NvramPaths.BelongsExactly` | kernel/drivers/net/wireless/broadcom/brcm80211/brcmfmac/firmware.c:259-277 | what is taken belongs to the device if and only if its bus number is not a longer one |
| `NvramPaths.LongerBusTaken` | kernel/drivers/net/wireless/broadcom/brcm80211/brcmfmac/firmware.c:262-277 | the failing case: bus 10 is taken for bus 1 |
| `NvramStrip.StripV2` | kernel/drivers/net/wireless/broadcom/brcm80211/brcmfmac/firmware.c:324-366 | over any NUL-terminated entries at least as long as the prefix: exactly the matching entries without the prefix, in order, and whether boardrev is among them |
| `NvramStrip.CopyV1` | kernel/drivers/net/wireless/broadcom/brcm80211/brcmfmac/firmware.c:288-311 | exactly the entries marked with the id, without the mark, in order, and whether boardrev is among them |
| `NvramStrip.FindId` | kernel/drivers/net/wireless/broadcom/brcm80211/brcmfmac/firmware.c:259-286 | the id of the first device path the search looks at |
| `NvramStrip.StripV1` | kernel/drivers/net/wireless/broadcom/brcm80211/brcmfmac/firmware.c:237-316 | both together; empty when the buffer is too short or no device path is found |
| `BtCoex.IsScoActive` | kernel/drivers/net/wireless/broadcom/brcm80211/brcmfmac/btcoex.c:196-228 | active if and only if more than two of the twelve samples, up to the first read error, show it |
| `BtCoex.Session.constructor` | kernel/drivers/net/wireless/broadcom/brcm80211/brcmfmac/btcoex.c:360-383 | an idle machine that has saved nothing |
| `BtCoex.Session.BoostWifi` | kernel/drivers/net/wireless/broadcom/brcm80211/brcmfmac/btcoex.c:139-188 | saves and overrides the second register group, or gives it back if it was saved |
| `BtCoex.Session.DoSavePart1` | kernel/drivers/net/wireless/broadcom/brcm80211/brcmfmac/btcoex.c:233-248 | saves the first group unless it is saved already |
| `BtCoex.Session.DoRestorePart1` | kernel/drivers/net/wireless/broadcom/brcm80211/brcmfmac/btcoex.c:253-268 | gives the first group back if it was saved |
| `BtCoex.Session.TimerFunc` | kernel/drivers/net/wireless/broadcom/brcm80211/brcmfmac/btcoex.c:273-281 | the timer hands over to the work item |
| `BtCoex.Session.Handler` | kernel/drivers/net/wireless/broadcom/brcm80211/brcmfmac/btcoex.c:287-352 | one handler run in each of the phases |
| `BtCoex.Session.ToIdle` | kernel/drivers/net/wireless/broadcom/brcm80211/brcmfmac/btcoex.c:345-352 | the way back to idle: both groups given back, no interface |
| `BtCoex.Session.DhcpStart` | kernel/drivers/net/wireless/broadcom/brcm80211/brcmfmac/btcoex.c:408-421 | a session starts: first group saved and overridden, work scheduled |
| `BtCoex.Session.DhcpEnd` | kernel/drivers/net/wireless/broadcom/brcm80211/brcmfmac/btcoex.c:423-442 | the negotiation ends: the handler is hurried on, or the first group given back |
| `BtCoex.Session.SetModeDisabled` | kernel/drivers/net/wireless/broadcom/brcm80211/brcmfmac/btcoex.c:450-481 | a begin request: refused outside idle, ignored without SCO |
| `BtCoex.Session.SetModeEnabled` | kernel/drivers/net/wireless/broadcom/brcm80211/brcmfmac/btcoex.c:450-481 | an end request, heeded only from the interface of the session |
| `BtCoex.Session.Detach` | kernel/drivers/net/wireless/broadcom/brcm80211/brcmfmac/btcoex.c:389-406 | timer and work stopped, both groups given back |
| `BtCoexRuns.StepInv` | kernel/drivers/net/wireless/broadcom/brcm80211/brcmfmac/btcoex.c:139-442 | every begin, end, timer and work step keeps: exactly the groups that are saved are overridden, saved values are those from before the session, and outside idle exactly one of timer and work is under way |
| `BtCoexRuns.RegistersRestored` | kernel/drivers/net/wireless/broadcom/brcm80211/brcmfmac/btcoex.c:139-442 | in every run all eight registers hold their values from before whenever the machine is idle, and whenever it is detached; nothing is left armed or pending |
| `BtCoexRuns.NeverStuck` | kernel/drivers/net/wireless/broadcom/brcm80211/brcmfmac/btcoex.c:273-442 | in every run, outside idle exactly one of timer and work can happen, and the handler always finds its interface |
| `BtCoexRuns.IdleWithinThreeHandlerRuns` | kernel/drivers/net/wireless/broadcom/brcm80211/brcmfmac/btcoex.c:287-352 | from any point of a session, whatever is interleaved, the third handler run at the latest makes the machine idle |
| `BtCoexRuns.RankStep` | kernel/drivers/net/wireless/broadcom/brcm80211/brcmfmac/btcoex.c:287-442 | no step of a session goes back to an earlier phase, and a handler run goes on to a later one |
| `FlowRings.FlowRings.constructor` | kernel/drivers/net/wireless/broadcom/brcm80211/brcmfmac/flowring.c:358-380 | no rings, all slots free, all interfaces in station mode |
| `FlowRings.FlowRings.Lookup` | kernel/drivers/net/wireless/broadcom/brcm80211/brcmfmac/flowring.c:59-100 | the ring of the first matching slot in probe order |
| `FlowRings.FlowRings.Create` | kernel/drivers/net/wireless/broadcom/brcm80211/brcmfmac/flowring.c:103-165 | the first free slot in probe order and the lowest free ring, or which of them is missing |
| `FlowRings.FlowRings.Block` | kernel/drivers/net/wireless/broadcom/brcm80211/brcmfmac/flowring.c:178-224 | the block flag, and the interface stopped or released unless another open ring of it is blocked |
| `FlowRings.FlowRings.AnyOtherBlocked` | kernel/drivers/net/wireless/broadcom/brcm80211/brcmfmac/flowring.c:199-211 | whether another open ring of the interface is blocked |
| `FlowRings.FlowRings.Delete` | kernel/drivers/net/wireless/broadcom/brcm80211/brcmfmac/flowring.c:227-256 | unblocks, frees slot and ring, gives up the queued frames in order |
| `FlowRings.FlowRings.Enqueue` | kernel/drivers/net/wireless/broadcom/brcm80211/brcmfmac/flowring.c:259-282 | the frame at the tail; blocks above the high watermark |
| `FlowRings.FlowRings.Dequeue` | kernel/drivers/net/wireless/broadcom/brcm80211/brcmfmac/flowring.c:285-303 | the frame at the head of an open ring; unblocks below the low watermark |
| `FlowRings.FlowRings.Reinsert` | kernel/drivers/net/wireless/broadcom/brcm80211/brcmfmac/flowring.c:306-314 | the frame back at the head |
| `FlowRings.FlowRings.OpenRing` | kernel/drivers/net/wireless/broadcom/brcm80211/brcmfmac/flowring.c:332-343 | the ring is open, if there is one |
| `FlowRings.FlowRings.IfidxGet` | kernel/drivers/net/wireless/broadcom/brcm80211/brcmfmac/flowring.c:346-355 | the interface of a ring |
| `FlowRings.FlowRings.CloseRings` | kernel/drivers/net/wireless/broadcom/brcm80211/brcmfmac/flowring.c:415-462 | exactly the open rings of the slots concerned are asked to be deleted |
| `FlowRings.FlowRings.ConfigureAddrMode` | kernel/drivers/net/wireless/broadcom/brcm80211/brcmfmac/flowring.c:407-426 | a change of mode closes the rings of the interface; no change does nothing |
| `FlowRings.FlowRings.DeletePeer` | kernel/drivers/net/wireless/broadcom/brcm80211/brcmfmac/flowring.c:429-473 | closes the rings of the peer, all of the interface for a non-TDLS peer in station mode, and takes the peer off the list |
| `FlowRings.FlowRings.TxFlowBlockIf` | kernel/drivers/net/wireless/broadcom/brcm80211/brcmfmac/core.c:384-406 | the queue is stopped by the first reason and released with the last |
| `FlowTable.LookupIsMap` | kernel/drivers/net/wireless/broadcom/brcm80211/brcmfmac/flowring.c:59-100 | with occupied slots and rings in correspondence and unique keys, lookup answers like the plain map, despite holes and wrapped probes |
| `FlowTable.CreateIsInsert` | kernel/drivers/net/wireless/broadcom/brcm80211/brcmfmac/flowring.c:103-165 | after a missed lookup, creating adds exactly that key with the lowest free ring, or changes nothing and names what is full |
| `FlowTable.DeleteIsRemove` | kernel/drivers/net/wireless/broadcom/brcm80211/brcmfmac/flowring.c:227-256 | deleting a ring removes exactly its key |
| `FlowTable.ProbeMisses` | kernel/drivers/net/wireless/broadcom/brcm80211/brcmfmac/flowring.c:85-98 | a probe that finds nothing has seen every slot |
| `FlowTable.MatchesIsKey` | kernel/drivers/net/wireless/broadcom/brcm80211/brcmfmac/flowring.c:78-98 | a slot matches a query exactly when it holds the key |
| `FlowTable.DeleteLinked` | kernel/drivers/net/wireless/broadcom/brcm80211/brcmfmac/flowring.c:227-256 | deletion keeps slots and rings in one-to-one correspondence |
| `FlowControl.StepControlled` | kernel/drivers/net/wireless/broadcom/brcm80211/brcmfmac/flowring.c:59-473 | every operation, mode switches, departing peers and rings of TDLS peers included, keeps: slots and rings in one-to-one correspondence, a FLOW stop has a blocked ring of that interface as its cause, a blocked ring holds at least the low-watermark number of frames, and a queue is stopped exactly while it has a reason |
| `FlowControl.NeverStoppedByNothing` | kernel/drivers/net/wireless/broadcom/brcm80211/brcmfmac/flowring.c:103-473 | in every run of all these operations a queue is stopped for flow only while a blocked ring of its interface with at least the low-watermark number of frames is there, and runs without a reason to be stopped |
| `FlowControl.SlotsMatchRings` | kernel/drivers/net/wireless/broadcom/brcm80211/brcmfmac/flowring.c:103-473 | in every such run a slot is in use exactly when a ring lies in it, no two rings share one, and the slot leads back to its ring |
| `FlowControl.AttachedControlled` | kernel/drivers/net/wireless/broadcom/brcm80211/brcmfmac/flowring.c:358-380 | a freshly attached driver satisfies the invariant |
| `FlowControl.ConfiguredControlled` | kernel/drivers/net/wireless/broadcom/brcm80211/brcmfmac/flowring.c:407-426 | a mode switch keeps it |
| `FlowControl.DepartedControlled` | kernel/drivers/net/wireless/broadcom/brcm80211/brcmfmac/flowring.c:429-462 | a departing peer keeps it |
| `FlowMap.StepMap` | kernel/drivers/net/wireless/broadcom/brcm80211/brcmfmac/flowring.c:59-462 | with fixed modes and no TDLS peers every operation does to the table what the map operation says |
| `FlowMap.TablesAreMapRun` | kernel/drivers/net/wireless/broadcom/brcm80211/brcmfmac/flowring.c:59-256 | the tables of any such run are a run of the map |
| `FlowMap.LookupAlwaysMap` | kernel/drivers/net/wireless/broadcom/brcm80211/brcmfmac/flowring.c:59-256 | after any such run lookup agrees with the map that the run maintains |
| `FlowMap.AttachedMap` | kernel/drivers/net/wireless/broadcom/brcm80211/brcmfmac/flowring.c:358-380 | a freshly attached driver stands for the empty map |
| `FlowMap.CloseGoneMap` | kernel/drivers/net/wireless/broadcom/brcm80211/brcmfmac/flowring.c:454-462 | closing many rings at once leaves the map alone |
| `FlowControl.FlowBlockIfMeans` | kernel/drivers/net/wireless/broadcom/brcm80211/brcmfmac/core.c:384-406 | one reason is set or cleared, the others stay, and the queue follows the set of reasons |
| `FlowExact.UnblockExactIff` | kernel/drivers/net/wireless/broadcom/brcm80211/brcmfmac/flowring.c:178-224 | after unblocking, the stop bit says exactly whether a ring of the interface is blocked if and only if not all its other blocked rings are closed or closing |
| `FlowExact.StepExactIff` | kernel/drivers/net/wireless/broadcom/brcm80211/brcmfmac/flowring.c:103-473 | every operation keeps the bit exact, but exactly those dequeues and deletions that unblock the last open blocked ring while others are blocked |
| `FlowExact.LosingRun` | kernel/drivers/net/wireless/broadcom/brcm80211/brcmfmac/flowring.c:178-303 | such a run from a freshly attached driver, after which a ring is blocked and its interface is not stopped |
| `TdlsSpec.ListIsSet` | kernel/drivers/net/wireless/broadcom/brcm80211/brcmfmac/flowring.c:429-507 | after every sequence of adds and deletes: no duplicates, and a peer is on the list exactly when added and not deleted since |
| `TdlsSpec.RemovedMeans` | kernel/drivers/net/wireless/broadcom/brcm80211/brcmfmac/flowring.c:464-472 | removal takes that peer off and no other |
| `TdlsPeers.Peers.IsTdlsMac` | kernel/drivers/net/wireless/broadcom/brcm80211/brcmfmac/flowring.c:42-56 | whether the peer is on the list |
| `TdlsPeers.Peers.AddPeer` | kernel/drivers/net/wireless/broadcom/brcm80211/brcmfmac/flowring.c:476-507 | at the end, unless it is on the list; the links stay acyclic and tdls_active follows |
| `TdlsPeers.Peers.RemovePeer` | kernel/drivers/net/wireless/broadcom/brcm80211/brcmfmac/flowring.c:443-472 | unlinked wherever it stands; tdls_active exactly while the list is non-empty |
| `VendorIes.ParseVndrIes` | kernel/drivers/net/wireless/broadcom/brcm80211/brcmfmac/cfg80211.c:4660-4714 | the first five vendor elements that are not WPA or WME |
| `VendorIes.SavedIe.SetMgmtIe` | kernel/drivers/net/wireless/broadcom/brcm80211/brcmfmac/cfg80211.c:4730-4893 | after any update the firmware list equals the accepted prefix of the latest request, the saved bytes and their re-parse; a request that is too big changes nothing |
| `VendorIes.SavedIe.Replace` | kernel/drivers/net/wireless/broadcom/brcm80211/brcmfmac/cfg80211.c:4822-4888 | deletes of everything old and adds of everything new that fits, in one command |
| `VendorIes.SavedIe.BuildCommand` | kernel/drivers/net/wireless/broadcom/brcm80211/brcmfmac/cfg80211.c:4825-4881 | the combined command fits its buffer, and is empty exactly when there is nothing to do |
| `VendorIes.SavedIe.Append` | kernel/drivers/net/wireless/broadcom/brcm80211/brcmfmac/cfg80211.c:4717-4728 | a command a listed element, one after the other |
| `VendorIes.SavedIe.ChooseFitting` | kernel/drivers/net/wireless/broadcom/brcm80211/brcmfmac/cfg80211.c:4848-4862 | the elements for which there is room, counted as the code counts it |
| `VendorIes.SavedIe.Save` | kernel/drivers/net/wireless/broadcom/brcm80211/brcmfmac/cfg80211.c:4874-4877 | the saved buffer holds exactly those elements |
| `VendorIeSpec.ReplacesAll` | kernel/drivers/net/wireless/broadcom/brcm80211/brcmfmac/cfg80211.c:4825-4888 | the firmware, decoding the buffer, ends up with exactly the new elements |
| `VendorIeSpec.DecodesCommands` | kernel/drivers/net/wireless/broadcom/brcm80211/brcmfmac/cfg80211.c:4717-4728 | the commands decode to themselves |
| `VendorIeSpec.SavedReparses` | kernel/drivers/net/wireless/broadcom/brcm80211/brcmfmac/cfg80211.c:4822-4823 | parsing the saved bytes of what was installed gives it back |
| `VendorIeSpec.InstalledIsSettled` | kernel/drivers/net/wireless/broadcom/brcm80211/brcmfmac/cfg80211.c:4845-4882 | what one update installs, every later one can re-parse and delete |
| `VendorIeSpec.ElementsOfCat` | kernel/drivers/net/wireless/broadcom/brcm80211/brcmfmac/cfg80211.c:4671-4712 | splitting a run of elements undoes joining |
| `VendorIeSpec.CatOfElements` | kernel/drivers/net/wireless/broadcom/brcm80211/brcmfmac/cfg80211.c:4671-4712 | joining undoes splitting |
| `VendorIeSpec.SavedIsRequest` | kernel/drivers/net/wireless/broadcom/brcm80211/brcmfmac/cfg80211.c:4822-4877 | the bytes that are saved are the request itself if and only if all its elements are installed |
| `VendorIeSpec.FittingSize` | kernel/drivers/net/wireless/broadcom/brcm80211/brcmfmac/cfg80211.c:4848-4862 | what fits, with a header each, exceeds the room by at most the two bytes the check does not count |
| `VendorIeSpec.InstalledExactly` | kernel/drivers/net/wireless/broadcom/brcm80211/brcmfmac/cfg80211.c:4845-4862 | everything that was accepted is installed if and only if it is nothing or, a header each, at most two bytes more than the saved buffer |
| `VendorIeSpec.FittingAll` | kernel/drivers/net/wireless/broadcom/brcm80211/brcmfmac/cfg80211.c:4848-4862 | the same for any elements and any room |
| `VendorIeSpec.SomeAreRefused` | kernel/drivers/net/wireless/broadcom/brcm80211/brcmfmac/cfg80211.c:4854-4860 | the failing case: a permitted request of five elements of which four are installed |
| `ScanList.Results.Reset` | kernel/drivers/net/wireless/broadcom/brcm80211/brcmfmac/cfg80211.c:1153-1175 | an empty list of version zero |
| `ScanList.Results.CompareUpdateSameBss` | kernel/drivers/net/wireless/broadcom/brcm80211/brcmfmac/cfg80211.c:3494-3530 | the same BSS exactly by address, band and SSID; then only its RSSI changes |
| `ScanList.Results.Overwrite` | kernel/drivers/net/wireless/broadcom/brcm80211/brcmfmac/cfg80211.c:3509-3526 | the RSSI rules, applied in place to one record and no other byte |
| `ScanList.Results.Partial` | kernel/drivers/net/wireless/broadcom/brcm80211/brcmfmac/cfg80211.c:3559-3628 | a partial result is taken exactly when it passes every check |
| `ScanList.Results.Report` | kernel/drivers/net/wireless/broadcom/brcm80211/brcmfmac/cfg80211.c:3609-3628 | refused for lack of room, merged into the same BSS, or appended |
| `ScanList.Results.FindAndUpdate` | kernel/drivers/net/wireless/broadcom/brcm80211/brcmfmac/cfg80211.c:3616-3623 | the first record of the same BSS, if any, is updated |
| `ScanList.Results.Store` | kernel/drivers/net/wireless/broadcom/brcm80211/brcmfmac/cfg80211.c:3624-3628 | the record behind the list, with length, count and version |
| `ScanList.Results.Inform` | kernel/drivers/net/wireless/broadcom/brcm80211/brcmfmac/cfg80211.c:3315-3339 | nothing of a non-empty list of unknown version; otherwise every stored record once and in order, up to and including the first that is refused |
| `ScanList.Results.WalksToEnd` | kernel/drivers/net/wireless/broadcom/brcm80211/brcmfmac/cfg80211.c:3307-3334 | walking count records by their length fields ends exactly at buflen, within the buffer |
| `ScanSpec.WalkFrom` | kernel/drivers/net/wireless/broadcom/brcm80211/brcmfmac/cfg80211.c:3307-3313 | the same from any record on |
| `ScanSpec.ReportedKeeps` | kernel/drivers/net/wireless/broadcom/brcm80211/brcmfmac/cfg80211.c:3609-3628 | every report keeps records whole, within the buffer, and no two of one BSS |
| `ScanSpec.UpdatedKeeps` | kernel/drivers/net/wireless/broadcom/brcm80211/brcmfmac/cfg80211.c:3505-3527 | an update changes neither length, identity nor flag, even where an SSID length above 32 reaches over the RSSI |
| `ScanSpec.UpdatedMax` | kernel/drivers/net/wireless/broadcom/brcm80211/brcmfmac/cfg80211.c:3509-3518 | with the same on-channel flag the stronger RSSI is kept |
| `ScanSpec.UpdatedMixed` | kernel/drivers/net/wireless/broadcom/brcm80211/brcmfmac/cfg80211.c:3519-3526 | with different flags: an on-channel value is overwritten by an off-channel one, an off-channel one is kept |
| `ScanSpec.KeepsBest` | kernel/drivers/net/wireless/broadcom/brcm80211/brcmfmac/cfg80211.c:3494-3628 | over any reports, a BSS always reported with one flag is stored exactly when one of its reports had room, with the strongest RSSI of those that had |
| `SdioScatter.SglistSplit` | kernel/drivers/net/wireless/broadcom/brcm80211/brcmfmac/bcmsdh.c:423-484 | ends for all positive limits, whichever submissions fail: exactly which requests are tried, with which command arguments, and the result; with all of them made, every request is non-empty and within the byte, segment and segment-size limits, and the segments over all requests are exactly the packets in order; without memory only if the scatter list is shorter than a request may be |
| `SdioScatter.Splitter.Cut` | kernel/drivers/net/wireless/broadcom/brcm80211/brcmfmac/bcmsdh.c:450-479 | one segment, never empty, as long as the limits allow, and a submission as soon as one is reached |
| `SdioScatter.Splitter.CutPacket` | kernel/drivers/net/wireless/broadcom/brcm80211/brcmfmac/bcmsdh.c:448-480 | a packet is cut up completely |
| `SdioScatter.Splitter.SubmitOne` | kernel/drivers/net/wireless/broadcom/brcm80211/brcmfmac/bcmsdh.c:334-363 | the request, its address and block count added to the command argument; function 1 goes on where the request ended, others stay at their address |
| `SdioScatter.CommandRightExactly` | kernel/drivers/net/wireless/broadcom/brcm80211/brcmfmac/bcmsdh.c:334-347 | the card is told a request's own address and block count if and only if no request before it has set a bit there that it does not set itself |
| `SdioScatter.SecondCommandWrong` | kernel/drivers/net/wireless/broadcom/brcm80211/brcmfmac/bcmsdh.c:343-347 | the failing case: of one packet of three blocks, where a request may have two, the second request is for one block and its command says three |
| `SdioScatter.Splitter.Flush` | kernel/drivers/net/wireless/broadcom/brcm80211/brcmfmac/bcmsdh.c:481-484 | what is left over is submitted |
| `SdioSegments.TilesSend` | kernel/drivers/net/wireless/broadcom/brcm80211/brcmfmac/bcmsdh.c:448-484 | segments that tile the chain send exactly its bytes, in order |
| `SdioSegments.TilesReceive` | kernel/drivers/net/wireless/broadcom/brcm80211/brcmfmac/bcmsdh.c:448-484 | received into, they fill the chain with exactly the stream |
| `SdioScatter.SendsChain` | kernel/drivers/net/wireless/broadcom/brcm80211/brcmfmac/bcmsdh.c:423-484 | the requests of a split together send exactly the packets' bytes, in order |
| `SdioScatter.ReceivesStream` | kernel/drivers/net/wireless/broadcom/brcm80211/brcmfmac/bcmsdh.c:423-484 | received into, they leave the packets holding exactly the stream, each of its length |
| `SdioBounce.BouncePages` | kernel/drivers/net/wireless/broadcom/brcm80211/brcmfmac/bcmsdh.c:400-420 | full pages and a rest that add up to the length rounded to blocks, none empty |
| `SdioBounce.CopyBack` | kernel/drivers/net/wireless/broadcom/brcm80211/brcmfmac/bcmsdh.c:486-514 | every non-empty packet gets exactly its share of the pages |
| `SdioBounce.FillPacket` | kernel/drivers/net/wireless/broadcom/brcm80211/brcmfmac/bcmsdh.c:495-512 | one packet, over as many pages as it takes |
| `SdioBounce.PagesHoldStream` | kernel/drivers/net/wireless/broadcom/brcm80211/brcmfmac/bcmsdh.c:448-514 | the pages hold exactly what the device sent |
| `SdioBounce.ReadThroughPages` | kernel/drivers/net/wireless/broadcom/brcm80211/brcmfmac/bcmsdh.c:397-514 | pages, requests and copy back together: each packet receives exactly its share of what the device sends |
| `SdioWindow.Host.SetBackplaneWindow` | kernel/drivers/net/wireless/broadcom/brcm80211/brcmfmac/bcmsdh.c:223-242 | whatever register and cache hold: nothing when the cache has the window; otherwise the bytes up to the one that fails, or all of them and the cache; from a register and cache that agree they agree afterwards, on that window |
| `SdioWindow.Host.Chunk` | kernel/drivers/net/wireless/broadcom/brcm80211/brcmfmac/bcmsdh.c:284-332 | with the window set, exactly the chunk is transferred, and of the rounding at most what lies in the window |
| `SdioWindow.Host.Ramrw` | kernel/drivers/net/wireless/broadcom/brcm80211/brcmfmac/bcmsdh.c:669-742 | the chunks cover [address, address + size) once and in order, each within its window and the packet, with the register set to it at every access; memory or buffer receives exactly the data, nothing else changes but up to three bytes behind a write that does not end on a word; from a word address no packet, rounded up, passes its window |
| `SdioWindowSpec.CoversOnce` | kernel/drivers/net/wireless/broadcom/brcm80211/brcmfmac/bcmsdh.c:694-735 | covering means: every byte of the range is touched exactly once and no other at all |
| `SdioWindowSpec.ReadsBack` | kernel/drivers/net/wireless/broadcom/brcm80211/brcmfmac/bcmsdh.c:669-742 | a read returns what a write of the same range has written, and the rest of memory is as before |
| `SdioWindowSpec.FirstChunkFits` | kernel/drivers/net/wireless/broadcom/brcm80211/brcmfmac/bcmsdh.c:685-690 | for every offset and 32-bit size, the first chunk stays in its window if and only if the sum of offset and size does not wrap |
| `SdioWindowSpec.FirstChunkWraps` | kernel/drivers/net/wireless/broadcom/brcm80211/brcmfmac/bcmsdh.c:685-690 | the failing case, for a range that ends with the address space |
| `SdioWindowSpec.WindowRoundTrip` | kernel/drivers/net/wireless/broadcom/brcm80211/brcmfmac/bcmsdh.c:232-236 | three register bytes hold every window address exactly |
| `SdioWindowSpec.WindowOfAligned` | kernel/drivers/net/wireless/broadcom/brcm80211/brcmfmac/bcmsdh.c:226-236 | a window is aligned, ends inside the address space and is followed by the next |
| `SdioWindowSpec.FlagIgnored` | kernel/drivers/net/wireless/broadcom/brcm80211/brcmfmac/bcmsdh.c:705-706 | the access flag does not disturb the offset |
| `SdioWindowSpec.SetsWindow` | kernel/drivers/net/wireless/broadcom/brcm80211/brcmfmac/bcmsdh.c:223-242 | without a failure register and cache end on the window of the address, written or not |
| `SdioWindowSpec.CacheAfterFailure` | kernel/drivers/net/wireless/broadcom/brcm80211/brcmfmac/bcmsdh.c:223-242 | after a failed write, the next setting without a failure leaves the register on the window asked for if and only if that is not the cached one or the bytes already written agree with it |
| `SdioWindowSpec.StaleWindow` | kernel/drivers/net/wireless/broadcom/brcm80211/brcmfmac/bcmsdh.c:229-239 | the failing case: the host believes it is on the old window, the register is on the new one |
| `SdioWindowSpec.AfterChunk` | kernel/drivers/net/wireless/broadcom/brcm80211/brcmfmac/bcmsdh.c:727-734 | after a chunk that is not the last the next one starts a window and fits |
| `Checksum.Csum16` | userspace/awdl-airdrop-adv.py:70-76 | the complement of the ones'-complement sum with end-around carry (RFC 1071), odd lengths padded |
| `Checksum.Udp6` | userspace/awdl-airdrop-adv.py:93-99 | a datagram for exactly the payloads that fit the length field; it verifies and is well-formed |
| `ChecksumSpec.DatagramVerifies` | userspace/awdl-airdrop-adv.py:93-99 | every datagram, odd or even, sums to 0xFFFF at the receiver (section 8.1 of RFC 8200), the computed zero sent as 0xFFFF included |
| `ChecksumSpec.DatagramWellFormed` | userspace/awdl-airdrop-adv.py:93-99 | addresses, ports, next header, hop limit, both lengths and payload stand where they belong |
| `ChecksumSpec.OnesSumIsFolded` | userspace/awdl-airdrop-adv.py:70-76 | adding with the carry going around is adding first and folding afterwards |
| `ChecksumSpec.FoldStep` | userspace/awdl-airdrop-adv.py:74-75 | folding the high half onto the low keeps the sum modulo 0xFFFF and its being zero |
| `ChecksumSpec.OneWordChanged` | userspace/awdl-airdrop-adv.py:70-97 | a datagram with one word changed no longer verifies, unless the change was between the two zeros |
| `MdnsFrames.MdnsPayload` | userspace/awdl-mdns-respond.py:85-107 | sender and message of exactly the UDP frames to the mDNS port in either encapsulation |
| `MdnsFrameSpec.PlainRecovered` | userspace/awdl-airdrop-adv.py:102-105 | a plain frame gives back its sender and message |
| `MdnsFrameSpec.SnapRecovered` | userspace/awdl-airdrop-adv.py:102-108 | a SNAP frame gives them back if and only if its body is at most 1500 bytes; otherwise it is dropped |
| `DnsNames.Dname` | userspace/awdl-airdrop-adv.py:58-63 | the encoding of the non-empty labels of any name, in UTF-8 behind a byte that counts characters, or an error exactly when that byte does not hold the count |
| `DnsNames.DnsName` | userspace/awdl-mdns-respond.py:41-64 | terminates on every packet; the text, the next offset and each of the errors as the specification reading |
| `DnsNames.Questions` | userspace/awdl-mdns-respond.py:67-82 | the names of a query, nothing, or the error that is not caught |
| `DnsNameSpec.ReadNameMeans` | userspace/awdl-mdns-respond.py:41-64 | reading succeeds if and only if the packet encodes labels there through at most sixteen pointers (section 4.1.4 of RFC 1035), gives those labels, and the next offset is past the start, in the packet, and the end of the encoding in place |
| `DnsNameSpec.WalkSound` | userspace/awdl-mdns-respond.py:41-64 | what is read is encoded there, within the jumps that are left |
| `DnsNameSpec.WalkComplete` | userspace/awdl-mdns-respond.py:41-64 | what is encoded there is read |
| `DnsNameSpec.InPlacePrefix` | userspace/awdl-mdns-respond.py:51-63 | a name in place ends at one place only |
| `DnsNameSpec.InvertsExactly` | userspace/awdl-airdrop-adv.py:58-63 | for any name: reading inverts dname up to case if and only if the name is ASCII and no label has 192 characters or more |
| `DnsNameSpec.NonAsciiNeverReads` | userspace/awdl-mdns-respond.py:41-64 | no packet at all reads, up to the end of the encoding, as a name with a label outside ASCII |
| `DnsNameSpec.LongNeverReads` | userspace/awdl-mdns-respond.py:50-62 | no packet at all reads as a name with such a label |
| `DnsNameSpec.ReadsBack` | userspace/awdl-mdns-respond.py:41-64 | an uncompressed name reads back in lower case wherever it stands, with the offset behind it |
| `DnsNameSpec.CompressedReadsBack` | userspace/awdl-mdns-respond.py:51-58 | labels with a pointer to another name, itself compressed or not, read as both together, with the offset behind the pointer |
| `DnsNameSpec.SuffixReadsBack` | userspace/awdl-mdns-respond.py:51-58 | the same for a pointer to a suffix written by dname |
| `DnsText.CanonicalIsLower` | userspace/awdl-airdrop-adv.py:58-63 | for a name without empty labels the text that comes back is the name in lower case |
| `DnsNames.AllOrNothing` | userspace/awdl-mdns-respond.py:67-82 | no names, or one for each question counted |
| `DnsNameSpec.IndexErrorExactly` | userspace/awdl-mdns-respond.py:51-54 | reading a name raises an index error if and only if the packet ends in half a pointer and the walk comes to stand on it within sixteen jumps |
| `DnsNames.UncaughtExactly` | userspace/awdl-mdns-respond.py:67-82 | the error escapes if and only if the packet is a query with a question, reached through readable ones, that leads there |
| `DnsNames.LastByteDecides` | userspace/awdl-mdns-respond.py:67-82 | a packet whose last byte is below 192 never raises it |
| `DnsNames.HalfPointerQuery` | userspace/awdl-mdns-respond.py:67-82 | a query of thirteen bytes that does |
| `DnsNames.QueryUnderstood` | userspace/awdl-mdns-respond.py:67-82 | a query of any names, with anything behind the questions, is understood in full; a message with the response bit never is |
| `AwdlNames.Name` | userspace/awdl-af-parse.py:30-45 | text and end of a name, or the index error of a code cut off |
| `AwdlNames.NameReadsBack` | userspace/awdl-af-parse.py:30-45 | any labels whose lengths are neither 0 nor 192, with any dictionary code, read back wherever they stand |
| `AwdlNames.OneLabelReads` | userspace/awdl-af-parse.py:30-45 | what a built label and code are read as, in every case |
| `AwdlTlvs.ReadTlvs` | userspace/awdl-af-parse.py:48-54 | the TLVs of any data, the last one cut off where the data ends |
| `AwdlTlvs.TlvsUndoChain` | userspace/mkpsf.py:38 | reading undoes writing, with up to two stray bytes behind |
| `AwdlTlvs.ChainUndoesTlvs` | userspace/awdl-af-parse.py:48-54 | writing undoes reading, where no body was cut off |
| `AwdlRecords.ReadResponse` | userspace/awdl-af-parse.py:57-76 | name and value of a service response, or failure |
| `AwdlRecords.ReadStrings` | userspace/awdl-af-parse.py:70-72 | the length-prefixed strings |
| `AwdlRecords.ParseBody` | userspace/awdl-af-parse.py:79-95 | the record of an AWDL frame; a response that fails is passed over, a cut-off host name is not caught |
| `AwdlNames.IndexErrorExactly` | userspace/awdl-af-parse.py:33-38 | a name raises an index error if and only if its text ends in half a dictionary code to which the labels lead |
| `AwdlRecords.UncaughtExactly` | userspace/awdl-af-parse.py:79-95 | the error escapes if and only if the frame is an AWDL frame with a host record whose name is cut off like that |
| `AwdlRecords.HalfCodeFrame` | userspace/awdl-af-parse.py:86-88 | such a frame |
| `AwdlBuild.Psf` | userspace/mkpsf.py:179-202 | header and the TLVs of the order that are not skipped |
| `AwdlRoundTrip.ResponseOf` | userspace/mkpsf.py:171-172 | a service response comes apart into its name and its data |
| `AwdlRoundTrip.PtrParses` | userspace/mkpsf.py:174 | the PTR record parses to the service id |
| `AwdlRoundTrip.SrvParses` | userspace/mkpsf.py:175 | the SRV record parses to port and target |
| `AwdlRoundTrip.TxtParses` | userspace/mkpsf.py:176 | the TXT record parses to its text |
| `AwdlRoundTrip.ArpaParses` | userspace/mkpsf.py:173 | the Arpa record parses to the host name |
| `AwdlRoundTrip.OthersIgnored` | userspace/awdl-af-parse.py:86-94 | TLVs of other types make no difference |
| `AwdlRoundTrip.FourRecords` | userspace/awdl-af-parse.py:86-95 | the four records together leave exactly the entries they show |
| `AwdlRoundTrip.EndpointExactly` | userspace/awdl-af-parse.py:98-106 | id, port, target, text and host come back exactly as announced if and only if host and id have lengths other than 0 and 192 and the id has no dot |
| `AwdlRoundTrip.AnnouncementUnderstood` | userspace/awdl-af-parse.py:79-106 | the same for every frame that carries the records among any TLVs of other types |
| `AwdlRoundTrip.PsfUnderstood` | userspace/mkpsf.py:194-202 | the synchronization frame of variant ES is such a frame |
| `PeerWatch.Watcher.PeerOp` | userspace/awdl-peer-watch.py:95-107 | a step on the firmware's table; an ADD to a full one is refused |
| `PeerWatch.Watcher.Forget` | userspace/awdl-peer-watch.py:110-118 | off the table and the neighbours, off the firmware's table if the DEL works |
| `PeerWatch.Watcher.Register` | userspace/awdl-peer-watch.py:152-180 | evicts from the front until there is room, then neighbour and ADD; registered exactly when both work |
| `PeerWatch.Watcher.Receive` | userspace/awdl-peer-watch.py:223-240 | one turn of the receive loop, with every frame it passes over |
| `PeerWatch.Watcher.Resync` | userspace/awdl-peer-watch.py:121-149 | deletes what the permanent neighbours stand for, whichever DELs fail |
| `PeerWatch.Watcher.ReleaseAll` | userspace/awdl-peer-watch.py:186-200 | forgets everybody, whichever DELs fail |
| `PeerSpec.RunInv` | userspace/awdl-peer-watch.py:110-240 | in every run, whatever fails: the table keeps its limit, its order is the order of last-heard frames, and every registered peer has its firmware entry and its neighbour |
| `PeerSpec.StepInv` | userspace/awdl-peer-watch.py:110-240 | the same for one event |
| `PeerSpec.EvictsOldest` | userspace/awdl-peer-watch.py:163-164 | who is evicted was heard before every other registered peer, and nobody else is |
| `PeerSpec.TablesAgree` | userspace/awdl-peer-watch.py:110-180 | while DELs work, the firmware's table is exactly the registered set, even where an ADD fails and across restarts |
| `PeerSpec.NeverFull` | userspace/awdl-peer-watch.py:163-169 | so an ADD never meets a full table |
| `PeerSpec.HoldsMostRecent` | userspace/awdl-peer-watch.py:183-240 | with every operation working, the table holds the peers heard most recently, as many as it may, the longest ago first |
| `PeerSpec.MostRecentUnique` | userspace/awdl-peer-watch.py:183-240 | which determines it |
| `PeerSpec.RestartLeaves` | userspace/awdl-peer-watch.py:110-149 | after any run, whichever DELs failed in it, a restart leaves in the firmware's table exactly the peers that were added and not removed since and whose DEL fails now, or whose last DEL failed with no neighbour set since |
| `PeerSpec.RunTracks` | userspace/awdl-peer-watch.py:95-200 | in every run both tables are what the last operations on each peer say |
| `PeerSpec.LeakingRun` | userspace/awdl-peer-watch.py:110-180 | such a run: one DEL fails, and its entry is still there after a restart whose DELs all work |

## Left out

- CommonRing.Descriptor.WriteComplete: the callbacks are taken to be registered and to move the shared indices, so neither the -EIO without them nor the result of the bell is modelled; the order in which memory becomes visible to the device is not either.
- CommonRing.Descriptor.ReadComplete: requires that no more items are declared read than were handed out, which the code leaves to its callers.
- NvramParser.Compiler.AddDefaults: requires the room it needs; NvramImage.OneDeviceStays and SeveralStayExactly say when there is.
- NvramParser.Compiler.AddMacAddr: the same.
- NvramParser.Compiler.Finish: the same, for the whole image.
- NvramImage.FwNvramStrip: stops where the code would leave a buffer; the strip gives the parser a new buffer, and the old one is not freed.
- NvramStrip.StripV2: requires a buffer at least as long as the prefix; for a shorter one the unsigned difference in the loop condition wraps.
- NvramStrip.FindId: requires that every entry contains an equals sign, which NvramDevice.OutputIsEntries shows of every text.
- NvramStrip.StripV1: the same.
- NVRAM: the line and column of warnings, the EFI variant, and the prefix and device paths of the strips themselves, which are parameters; NvramPaths says what the paths are.
- BtCoex.Session.SetModeDisabled: the duration is taken in the timer's own unit, and the samples of parameter 27 are a parameter.
- BtCoex.Session.Handler: registers are read and written without errors, and each handler runs undisturbed by the others; it requires an interface only where it uses it.
- FlowRings.FlowRings.Create: memory for a ring is always there.
- FlowRings.FlowRings.Enqueue: the second look at the queue length after blocking, for dequeues that come in between, has nothing to do in a sequential run.
- FlowRings.FlowRings.CloseRings: the deletion request to the firmware is the status it sets; the confirmation is a separate step.
- FlowMap.LookupAlwaysMap: address modes are fixed and there are no TDLS peers; with them a lookup in station mode may find either kind of slot.
- VendorIes.ParseVndrIes: requires a run of whole elements; of a last element that is cut off the code would read what lies behind the buffer.
- VendorIes.SavedIe.SetMgmtIe: one of the five kinds of frame; others get -EPERM. Requests are runs of whole elements, and the firmware accepts each command.
- ScanList.Results.Partial: requires that an accepted result holds the bytes its length field says, its SSID among them; the checks on common-channel search and on a running scan are one flag, and decoding the band is a function.
- ScanList.Results.Inform: what is made of each record, but for whether it is refused, which is a parameter.
- SdioScatter.SglistSplit: a submission works or fails; that one without a medium also changes the state of the device is not modelled, and packets are values, so neither is what a failed read leaves in their buffers.
- SdioWindow.Host.Ramrw: bus errors in the middle of a transfer, and lists of chunks whose 32-bit sum wraps; the header with the window constants is not part of this model, so size and flag are parameters. What happens to rounding bytes past the end of a window is not known; they are taken to be lost, and what is claimed of an unaligned write over several windows rests on that. From a word address there are none.
- SdioWindow.Host.Chunk: the same for one chunk.
- DnsNames.Dname: names are sequences of Unicode scalar values; a lone surrogate, which stands for a byte that was not UTF-8 and cannot be encoded, is not modelled.
- Checksum.Udp6: addresses are sixteen bytes, as both callers make them.
- AwdlRecords.ParseBody: text is kept as its bytes; bytes that are not UTF-8 are replaced in the original.
- AwdlBuild.Psf: the bodies of the TLVs that are not service records are parameters.
- PeerWatch.Watcher.Resync: the permanent neighbours are exactly those the watcher has set, and removing one always works.
- PeerWatch.Watcher.Register: the command-line mode that registers one peer and exits, the report of degraded operation, and the times kept with the entries.
- The announcement message with its four resource records, beyond the names in it.
- Sockets, netlink, subprocesses, arguments, logging, and the files, keys and identities of awdl_identity.py.
- The rest of cfg80211.c, and feature, interface, regulatory and bus set-up: sequences of commands without state of their own to keep.
- Memory allocation failure, spinlocks and jiffies: each locked region or handler is one step.
