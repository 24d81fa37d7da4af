# Verified model of the vineyard boot loader

This project models the hard parts of an x86_64 UEFI boot loader in Dafny and
proves what the loader promises: the address space it builds for the kernel, the
file it receives over the network, the packets it sends, the text it formats
and the device paths it splices.

Nothing here runs the loader. `dafny verify dfyconfig.toml` checks every proof.

## How the model is laid out

| file | contents |
|---|---|
| `Words.dfy`, `Memory.dfy` | the C bit operators on integers, and memory as one byte per address |
| `Paging.dfy` | index split, hardware walk, and the tree of page tables in raw memory |
| `Ranges.dfy` | runs of consecutive pages and what the processor then sees |
| `AddressSpace.dfy` | the machine under construction: allocator, table building, mapping loops |
| `TableCount.dfy` | how many frames the tables take |
| `Kernel.dfy` | ELF segments |
| `Seal.dfy`, `HandOff.dfy` | what later steps leave alone, and everything up to the jump |
| `Netboot.dfy`, `Transfers.dfy` | the receiver of the netboot protocol, and whole runs of it |
| `Checksum.dfy`, `Frames.dfy` | one's-complement sums, frame layouts, build/parse round trip |
| `BufPool.dfy` | the intrusive free list of transmit buffers |
| `Wire.dfy` | the bytes of outgoing netboot messages |
| `NetTrace.dfy`, `NetStack.dfy` | what every poll adds to the history of frames and messages, and the code that does it |
| `Numerals.dfy`, `Printf.dfy` | integer output and the format loop of `vcbprintf` |
| `DevicePath.dfy` | UEFI device paths in memory |

**Page tables.** Memory is a byte per address, so a page-table word and a byte of
kernel data are stored by the same operation and could overlap; that they never do is
proved. The history variable `log` holds the `loader_paging_map` calls made so far.
`Machine.Valid()` says that memory holds exactly the tables those calls need (`Tree`),
each in a frame of its own, and that every frame handed out since the start is a
table's or data's (`Accounted`). `WalkRefines` turns that into the statement about the
hardware: on every page outside slot 510 the walk gives what replaying the log gives,
the last writer winning. Nothing is asked of physical addresses or flags there; only
`LeafBits` and its users ask for page-aligned frames and flags that touch flag bits.
The firmware's allocator is an arbitrary function of what it handed out before, bound
only by `Honest`: aligned, unused frames in the identity-mapped low half, where the
loader dereferences them. Every operation fails only when that function refuses.

**Hand-off.** `Sealed` says that since a given moment only later frames were written and
only the stack and identity maps were added. `LoaderKernel` runs from the empty tables
to the jump and states what the kernel then reads through the tables in CR3.

**Netboot.** `Step` is the meaning of one message; `Receiver.Receive` is the code,
proved equal to it. A run is a sequence of sessions, each an announcement and the
messages that arrive before the next one, in any order, any number of times, with any
number missing. Two things are asked of the environment. Fragments delivered in a
session belong to that session's file (`Genuine`). No announcement comes between
the first accepted fragment and the end of the transfer (`Orderly`); `Reannounced`
says exactly what happens when one does.

**Network side.** `Stack` owns the pool, the address cache and the receiver. `trace`
records every frame handed to `net_eth_send` and every message handled, in order.
Each method is proved to turn the state into a function of the state before
(`Send`, `Receive`, `PollStep`, `Polls`), frames included byte for byte, and
`Settled` is what holds of every history those functions can produce. The firmware's
answers arrive as one `Env` per poll; the only demand is that `GetStatus` never names a
pool buffer that the NIC does not hold.

**Printing.** `Render` reads a format directive by directive, and from the first
unknown one on as `Unescape`. `Vcbprintf` is the loop with its flag and its rewinding
jumps, proved to terminate, to print `Render` and to return what it counts. The two
fixed-size buffers are arrays of their size; a write behind one is an outcome of its own.

## Where the code falls short of what it is for

- `~2047UL` in `net/bufpool.c:24` has 32 bits on the target that `meson.build:59` selects
  (`x86_64-pc-win32-coff`, where `unsigned long` has 32 bits), so masking a data pointer
  finds its slot exactly when the slot lies below 4 GiB (`MaskingExact`,
  `MaskingExample`). The pool is proved correct for both widths, wherever the mask
  reaches. For the same reason `%ld` and `%lu` read 32 bits (`lib/vcbprintf.c:214-215`).
- Section 8.1 of RFC 8200 asks UDP to send 0xFFFF where the computed checksum is 0. The
  code sends 0, exactly when the RFC's sum is a multiple of 65535 (`UdpVerifies`), which
  some two-byte payload achieves between any addresses and ports (`UdpZeroField`,
  `UdpZeroExample`).
- An ICMPv6 echo request of fewer than four bytes gets a reply whose checksum is written
  behind the frame; `ShortIcmp` says exactly for which sums such a frame verifies, and
  `ShortIcmpExample` names one that does not.
- A segment whose `p_vaddr` is not page-aligned is mapped from the start of its page, so
  its bytes are shifted and its end is missing (`UnalignedSegment`, `UnalignedExample`).
- A repeated announcement replaces the file buffer and keeps the counters (`Reannounced`,
  `ReannouncedExample`).
- An announced empty file is written exactly if some fragment arrives before the next
  announcement and the first one is not number 0 with data (`EmptyFile`).
- `char buf[21]` is too small in base 8 from 2^60 on (`FitsBuffer`, `BufferExample`), and
  `char prefix[3]` for a sign together with `#` in hexadecimal (`FitsPrefix`,
  `PrefixExample`); `IntegerFits` puts both in terms of a directive and its argument.
- With `-` and space padding a number is padded on both sides (`WidthLaw`, `WidthExample`).
- The value `vcbprintf` returns leaves out prefixes and padding; it is the number of
  characters exactly when every directive is counted in full (`CountedExact`,
  `CountExample`).
- A first device path whose end node does not have four bytes is not joined with the
  second (`Append`, `NotJoined`, `LongEndExample`).

## Model

| member | source | states |
|---|---|---|
| `Paging.IndicesBijection` | loader/paging.c:16-27 | both branches of the index split agree with the hardware's bits on every canonical address, and the indices determine the page |
| `Paging.AddressInverse` | loader/paging.c:16-27 | every index quadruple is the split of exactly one canonical page: the split is onto |
| `Paging.CodeReadsEntry` | loader/paging.c:43-62 | the two masks the code applies to an entry read what the hardware reads |
| `Paging.AddTable` | loader/paging.c:43-62 | hanging a cleared frame into an empty slot keeps the tree invariant of all tables |
| `Paging.WriteLeaf` | loader/paging.c:64-64 | the final store changes the described map at one page and keeps the tree invariant |
| `Paging.WalkRefines` | loader/paging.c:38-65 | on every page outside slot 510 the hardware walk equals lookup in the plain map |
| `Paging.UniqueParent` | loader/paging.c:43-62 | every table but the root is reached from one slot of one table, self-entry aside |
| `Paging.RecursiveWindow` | loader/paging.c:32-64 | through slot 510 the processor sees the level-1, level-2 and level-3 table of every mapped page, and the root |
| `Ranges.LeafBits` | loader/paging.c:64-64 | a frame or-ed with present flags reads back as that frame, present |
| `Ranges.TranslateRefines` | loader/paging.c:38-65 | translation of a whole canonical address, in terms of the plain map |
| `Ranges.ReplayHit` | loader/paging.c:73-75 | page i of a mapping loop ends up with physical page i, however often pages were mapped before |
| `Ranges.ReplayAvoid` | loader/paging.c:38-65 | calls that do not name a page leave its entry alone |
| `Ranges.ReplayGrows` | loader/paging.c:38-65 | a mapped page stays mapped |
| `AddressSpace.WalkAgrees` | loader/paging.c:29-65 | in every reachable state the hardware walk equals the replay of the calls so far, the last writer winning |
| `AddressSpace.WindowSurvives` | loader/paging.c:32-64 | later map calls leave the recursive window on the level-1, level-2 and level-3 table of a page and on the root showing the same frames |
| `AddressSpace.Machine.Setup` | loader/paging.c:29-36 | the fresh root with its self-entry satisfies the invariant with an empty log and no other frame taken |
| `AddressSpace.Machine.AllocatePages` | uefi/util.c:38-42 | aligned frames that nobody has, or a refusal by the firmware and no change |
| `AddressSpace.Machine.AllocZeroed` | uefi/util.c:38-47 | the same frames, cleared, and no other byte changed |
| `AddressSpace.Machine.AllocData` | loader/kernel.c:89-89 | frames for data are fresh and kept apart from the tables' frames |
| `AddressSpace.Machine.NewTable` | loader/paging.c:43-46 | exactly one fresh frame is taken and becomes the missing table, everything handed out before is kept; it fails only if the firmware refuses the frame |
| `AddressSpace.Machine.Descend` | loader/paging.c:43-62 | reaches the table of a slot; takes a frame exactly when the table is missing and no other |
| `AddressSpace.Machine.Map` | loader/paging.c:38-65 | appends exactly this call to the described sequence, keeps the invariant, every existing table and every byte outside tables; the frames taken are exactly the new tables'; it fails only if the firmware refuses a frame |
| `AddressSpace.Machine.MapRange` | loader/paging.c:73-75 | the loop over pages makes exactly the calls of that run and takes exactly their tables' frames; it fails only if the firmware refuses one |
| `AddressSpace.Machine.MapAddr` | loader/paging.c:67-76 | every byte of the range, aligned or not, translates to itself, every other page walks as before, and only new tables' frames are taken; it fails only if the firmware refuses one |
| `TableCount.TablesMatchRegions` | loader/paging.c:43-62 | table frames number one plus the distinct 512 GiB, 1 GiB and 2 MiB regions touched |
| `TableCount.FramesMatchRegions` | loader/paging.c:43-62 | in every reachable state the frames handed out since the start that are not data number one plus the distinct regions touched, so a frame is taken only for a missing table and none is lost |
| `Kernel.PhdrFlagsConstant` | elf/elf.c:5-17 | whatever the header says, the flags come out present and writable |
| `Kernel.LoadSegment` | loader/kernel.c:86-109 | the segment's bytes lie in frames of its own, its pages lead there, and earlier frames are untouched; it fails only if the firmware refuses the segment's pages or a table |
| `Kernel.ClearTail` | loader/kernel.c:106-108 | memory from p_filesz to p_memsz is zero and unchanged everywhere else |
| `Kernel.LoadPhdrs` | loader/kernel.c:81-113 | after the loop every PT_LOAD segment is in memory, none disturbed by a later one, and only upper-half pages were mapped; it fails only on a refusal |
| `Kernel.StaysInMemory` | loader/kernel.c:46-78 | what respects a segment's frames and pages cannot disturb it |
| `Kernel.SegmentVisible` | loader/kernel.c:85-110 | a segment in memory is what the processor reads through the tables |
| `Kernel.AlignedSegment` | loader/kernel.c:96-108 | p_vaddr + k reads file byte p_offset + k below p_filesz and zero up to p_memsz (System V gABI, Program Header) |
| `Kernel.UnalignedSegment` | loader/kernel.c:101-108 | off a page boundary, for every k below p_memsz: the promise holds exactly when byte k equals the byte p_vaddr mod 4096 further on, then unspecified bytes of the last page are read, then a page the segment does not map |
| `Kernel.UnalignedExample` | loader/kernel.c:101-103 | one loadable unaligned segment whose first byte reads wrong |
| `HandOff.MapStackAndInfo` | loader/kernel.c:39-58 | makes exactly the calls for the boot information and the 33 stack pages, fills the first four fields, puts the information's address on the stack, and leaves the segments alone; it fails only on a refusal |
| `HandOff.AllocInfo` | loader/kernel.c:45-51 | a cleared page for the boot information, mapped to itself, with its first four fields |
| `HandOff.MapStack` | loader/kernel.c:53-58 | exactly the 33 stack calls, and the argument in its place |
| `HandOff.MapFirmware` | loader/kernel.c:60-75 | makes exactly the calls for frame buffer, loader image and memory map and fills the remaining fields of the boot information, leaving everything else alone |
| `HandOff.FramebufferGet` | boot/framebuffer.c:77-89 | exactly the calls for mode, mode information and frame buffer, and the mode's field; every byte of a page-aligned frame buffer is covered, and no page that holds none of the three |
| `HandOff.MapImage` | loader/kernel.c:61-74 | exactly the calls for the loader image, every byte of a page-aligned image covered and no page without one, and the fields for image and ACPI tables |
| `HandOff.PageCounts` | loader/kernel.c:64-68 | the page counts are the smallest that hold the size, and one more for the memory map |
| `HandOff.ByteRange` | loader/kernel.c:70-72 | a range mapped page by page: every byte is covered and no page is named that starts at or after its end |
| `HandOff.MapMemoryMap` | boot/memory_map.c:5-38 | maps and fills the memory map and its four fields, or leaves them as far as the firmware got |
| `HandOff.FillMap` | boot/memory_map.c:26-33 | the map's bytes and the three fields that describe it |
| `HandOff.EntriesFit` | boot/memory_map.c:31-31 | the entries field is the number of whole descriptors in the map |
| `HandOff.CoveredIsSelf` | loader/paging.c:67-76 | after any sequence of upper-half maps and low-half identity maps every covered low page translates to itself |
| `HandOff.AllMapped` | loader/kernel.c:46-75 | every byte of boot information, frame buffer, loader and memory map translates to itself |
| `HandOff.AllNamed` | loader/kernel.c:46-75 | all the calls together name no low page outside boot information, frame buffer, loader and memory map |
| `HandOff.StackStays` | loader/kernel.c:53-55 | the stack translates to its frames after any later low-half identity maps |
| `HandOff.AllVisible` | loader/kernel.c:46-78 | segments that were in memory still are, and are visible, after everything that follows |
| `HandOff.LoaderKernel` | loader/kernel.c:11-79 | at the jump, through the tables in CR3: every PT_LOAD segment is read byte for byte, the stack translates to its frames, the address of the boot information is read off the stack and all eleven fields at that address, and every byte of boot information, frame buffer, loader and memory map translates to itself; no low page outside these was named; the loader stops earlier only if the firmware refuses pages |
| `Netboot.Receiver.Receive` | net/netboot.c:30-136 | the whole new state, acknowledgements and written files for every message in every state |
| `Netboot.AlwaysConsistent` | net/netboot.c:88-90 | over every run, outside a transfer there is no file and both counters are zero |
| `Netboot.FlagsOfRun` | net/netboot.c:95-133 | over every run the poll loop goes on exactly while none of CMD_FWSETUP, CMD_SHUTDOWN, CMD_REBOOT and CMD_BOOT was handled, and advertising is stopped exactly once CMD_STOP_ADVERTISING was |
| `Netboot.AckOfStep` | net/netboot.c:42-57 | which messages are acknowledged and with what, from the message and the state before |
| `Netboot.Accept` | net/netboot.c:48-90 | the fragment in turn extends the stored prefix, or completes and writes the file |
| `Netboot.TransferRun` | net/netboot.c:34-91 | at every point of every delivery order the buffer holds the matching prefix and the acknowledgements are the ones due |
| `Transfers.FilesDelivered` | net/netboot.c:60-90 | over whole runs each complete transfer writes its announced file, byte for byte, exactly once |
| `Transfers.TransferState` | net/netboot.c:42-57 | mid-transfer: counters, buffer and acknowledgements, none beyond what is stored, nothing past the buffer |
| `Transfers.ProgressIsLongest` | net/netboot.c:44-55 | the packet count is the largest k whose numbers 0..k-1 arrived in order as a subsequence |
| `Transfers.AcksAreStored` | net/netboot.c:42-57 | every acknowledged number is at most the count stored |
| `Transfers.Reannounced` | net/netboot.c:121-127 | after a repeated announcement the file starts with what the new buffer happened to hold; it is right exactly when that equals the stored prefix |
| `Transfers.ReannouncedExample` | net/netboot.c:121-127 | one such run, and the wrong file it writes |
| `Transfers.EmptyFile` | net/netboot.c:42-90 | over every run of messages up to the next announcement an empty file is written, once, exactly when some fragment arrives and the first is not number 0 with data |
| `Transfers.HistoryDelivers` | net/netboot.c:30-136 | for every history of deliveries that divides into orderly transfers the files written are exactly those of the complete ones |
| `Checksum.Accumulate` | net/ip6.c:33-45 | the adding loop in 32-bit arithmetic equals the plain sum modulo 2^32 |
| `Checksum.Compute` | net/ip6.c:32-53 | checksum is the one's-complement sum for up to 131072 bytes, and the fold loop ends |
| `Checksum.TotalBound` | net/ip6.c:36-45 | the accumulator cannot overflow up to 131072 bytes |
| `Checksum.ZeroOnlyForZeros` | net/ip6.c:32-53 | the sum is 0 only for all-zero input |
| `Checksum.Chain` | net/ip6.c:58-59 | summing in two calls split at an even offset gives the same |
| `Checksum.ByteOrder` | net/ip6.c:32-53 | exchanging the bytes of every word and the seed exchanges the bytes of the sum (section 2 of RFC 1071) |
| `Frames.NetChecksum` | net/ip6.c:55-62 | one sum over length field, addresses and data |
| `Frames.ChecksumIsRfc` | net/ip6.c:55-62 | in network order it is the checksum over the 40-byte pseudo-header of section 8.1 of RFC 8200 |
| `Frames.UdpVerifies` | net/udp6.c:19-27 | every UDP frame verifies to 0; its field is the one's complement of the RFC's sum, and the field section 8.1 of RFC 8200 demands exactly when that sum is no multiple of 65535 |
| `Frames.UdpTotal` | net/ip6.c:55-62 | the RFC's sum in terms of addresses, ports, length and payload |
| `Frames.UdpZeroField` | net/udp6.c:25-25 | between any addresses and ports some two-byte payload makes the code send 0 where 0xFFFF is due |
| `Frames.UdpZeroExample` | net/udp6.c:25-25 | one such datagram |
| `Frames.IcmpVerifies` | net/icmp6.c:37-40 | every ICMPv6 frame of four bytes or more verifies and carries the RFC's checksum |
| `Frames.ShortIcmp` | net/icmp6.c:37-40 | exactly for which sums of addresses, length and data a frame of fewer than four bytes verifies |
| `Frames.ShortIcmpExample` | net/icmp6.c:37-40 | one short reply that does not verify |
| `Frames.RoundTrip` | net/udp6.c:6-44 | a frame built for a node's address and port 57777 is accepted there, padded or not, with the sender's addresses and exactly the payload |
| `Frames.AcceptsExactly` | net/eth.c:16-58 | for every header and contents: accepted exactly if IPv6 by type and version, not longer than what arrived, and addressed to the node, its solicited-node address or all nodes, with the frame's own fields in the verdict |
| `Frames.DispatchesPort` | net/udp6.c:34-44 | exactly datagrams to port 57777 are handled, from behind the UDP header |
| `Frames.UdpFields` | net/udp6.c:6-32 | every field of a UDP frame but the checksum, at its offset |
| `Frames.IcmpFields` | net/icmp6.c:18-45 | the same for ICMPv6 |
| `BufPool.Masking` | net/bufpool.c:24-24 | any pointer into a slot leads back to the slot, wherever the mask reaches |
| `BufPool.MaskingExact` | net/bufpool.c:24-24 | with the build's 32-bit mask exactly below 4 GiB |
| `BufPool.MaskingExample` | net/bufpool.c:24-24 | a pool at 4 GiB, where the mask leads to address 0 |
| `BufPool.Pool.constructor` | net/bufpool.c:6-15 | four free slots, linked |
| `BufPool.Pool.Return` | net/bufpool.c:17-30 | the slot goes from its holder to the head of the list and only its link word is written |
| `BufPool.Pool.Get` | net/bufpool.c:32-47 | the head goes to the caller and only its link word is written, or nothing changes when the size is too big or the list empty |
| `BufPool.StillInFlight` | net/bufpool.c:17-47 | work on one slot leaves the frames the NIC holds in the others byte for byte |
| `NetStack.Conservation` | net/bufpool.c:3-47 | free slots and slots at the NIC always number four |
| `NetTrace.HandedVerifies` | net/udp6.c:19-27 | every frame in a history verifies, short ICMPv6 replies aside |
| `NetTrace.HandedFields` | net/ip6.c:64-71 | every frame in a history names the node as sender and goes to the MAC and address on record, a multicast one to 33:33 and the last four bytes of its address |
| `NetStack.Stack.PacketSetup` | net/ip6.c:115-136 | the stores spell out the 54-byte header inside the slot |
| `NetStack.Stack.EthSend` | net/eth.c:5-14 | the frame is recorded; its buffer is at the NIC after success and free again after failure, and all frames in flight stay intact |
| `NetStack.Stack.UdpSend` | net/udp6.c:6-32 | on every path: the exact frame handed over, to whom, and where the slot is |
| `NetStack.Stack.IcmpSend` | net/icmp6.c:18-45 | the same, with the length limit |
| `NetStack.Stack.CmdSend` | net/netboot.c:11-28 | goes to the remembered address, or to all nodes when there is none |
| `NetStack.Stack.NetbootReceive` | net/netboot.c:30-136 | the receiver's new state, and on the frame handed over: InitAck after an announcement, the smaller of number and count after a fragment of a transfer, nothing after any other message |
| `NetTrace.MessageAcknowledged` | net/netboot.c:42-57 | the same of every history: the ports and the payload of the frame that follows a handled message |
| `Wire.EncodeIsCodec` | include/netboot/netboot.h:40-62 | the struct layout tells acknowledgements apart, from each other and from advertisements |
| `NetTrace.EchoReply` | net/icmp6.c:50-54 | type and checksum change, all other bytes come back |
| `NetTrace.PollKeeps` | net/net.c:154-204 | whatever firmware and network do, a poll keeps: the first thing in the history is an advertisement going out, none goes out after CMD_STOP_ADVERTISING was handled, all frames are sound, and the receiver is where the handled messages lead |
| `NetTrace.PollsKeep` | net/net.c:206-212 | so does every run of the loop |
| `NetTrace.ContinuesUntilEnd` | net/net.c:206-212 | in every history the loop goes on exactly while no message that ends it was handled |
| `NetTrace.PollsEnd` | net/net.c:206-212 | no message is handled after one that ends the loop |
| `NetTrace.AdvertDue` | net/net.c:162-170 | an advertisement goes out exactly when one is due and a buffer is free |
| `NetTrace.BufferComesBack` | net/net.c:178-188 | a buffer the NIC names by the pointer it was given heads the free list again |
| `NetTrace.PollHandles` | net/net.c:191-203 | a poll that receives a datagram to port 57777 handles it |
| `NetTrace.LoadDelivers` | net/netboot.c:30-136 | when the messages in a history divide into orderly transfers, exactly their complete files were written |
| `NetStack.Stack.IcmpReceive` | net/icmp6.c:47-84 | exactly the echo or the advertisement that is due is tried, else nothing |
| `NetStack.Stack.EthReceive` | net/eth.c:16-58 | a frame failing any check changes nothing; any other makes its sender the remembered address first and is handed on, and every frame that then goes out goes to that sender's MAC and address, multicast and unspecified sources aside |
| `NetTrace.DatagramHandled` | net/eth.c:45-55 | a datagram to port 57777 that reaches the node is handled with its sender remembered first, one to another port is not |
| `NetTrace.IcmpAnswered` | net/icmp6.c:47-84 | for every ICMPv6 message to the node, its solicited-node address or all nodes: an echo request is echoed, a valid solicitation of the node gets a neighbour advertisement, field by field (sections 4.4 and 7.1.1 of RFC 4861), anything else gets nothing |
| `NetTrace.RepliesToSender` | net/ip6.c:100-113 | every frame added to the history by a received frame goes to that frame's source MAC and IPv6 address, to 33:33 and the last four bytes of a multicast source, or for netboot from the all-zero address to all nodes |
| `NetStack.Stack.Advertise` | net/net.c:162-170 | exactly the frame that goes out: the first time always and later only on the timer while not stopped |
| `NetStack.Stack.Recycle` | net/net.c:172-188 | a completed buffer in range goes back to the list, anything else is ignored |
| `NetStack.Stack.Poll` | net/net.c:154-204 | the whole new state: the frame advertised, the buffer taken back, the message handled and its reply, in this order; every invariant of histories is kept |
| `NetStack.Stack.NetKernelLoad` | net/net.c:206-212 | over every run of the loop; the receiver is where the handled messages lead it from its initial state; the loop goes on exactly while none of them ends it, stops early only for one that does, and handles none after it |
| `Numerals.Convert` | lib/vcbprintf.c:274-294 | counting and filling a 21-character buffer from the right yields the digits of the value, and writes behind it exactly in base 8 from 2^60 on |
| `Numerals.Fill` | lib/vcbprintf.c:289-292 | the digits from the right, stopping exactly where the buffer ends |
| `Numerals.DigitsExact` | lib/vcbprintf.c:278-292 | the digits denote the value, none too many and none too few |
| `Numerals.Minimal` | lib/vcbprintf.c:278-284 | no shorter digit string can denote the value |
| `Numerals.FitsBuffer` | lib/vcbprintf.c:274-294 | digits and terminator fit in 21 characters in base 10 and 16 always, in base 8 exactly below 2^60 |
| `Numerals.BufferExample` | lib/vcbprintf.c:274-294 | 2^60 in base 8 has 21 digits |
| `Numerals.FitsPrefix` | lib/vcbprintf.c:252-271 | prefix and terminator fit in 3 characters except for a sign with 0x |
| `Numerals.BuildPrefix` | lib/vcbprintf.c:251-271 | the prefix in a 3-character buffer, or a write behind it exactly for a sign with 0x |
| `Numerals.Emit` | lib/vcbprintf.c:286-339 | the callback calls put out this layout |
| `Numerals.WidthLaw` | lib/vcbprintf.c:286-339 | the length is the larger of width and contents, except exactly for '-' with space padding |
| `Numerals.WidthExample` | lib/vcbprintf.c:286-339 | one number padded on both sides |
| `Numerals.LayoutLength` | lib/vcbprintf.c:286-339 | exactly when nothing but the digits is put out |
| `Numerals.FlagsShown` | lib/vcbprintf.c:251-339 | what a reader sees of sign, space, # and 0 |
| `Numerals.DigitsAlphabet` | lib/vcbprintf.c:275-275 | letters are capital for X and small otherwise |
| `Numerals.ReadsBack` | lib/vcbprintf.c:251-339 | a reader of the output gets the argument back, with every combination of flags that the two buffers hold |
| `Printf.Magnitude` | lib/vcbprintf.c:228-228 | the unsigned negation is the magnitude, for the most negative integer too |
| `Printf.PrintInteger` | lib/vcbprintf.c:190-344 | one integer conversion from argument slot to text, or a write behind a buffer exactly when the argument or the flags do not fit |
| `Printf.LoadArgument` | lib/vcbprintf.c:197-249 | sign and magnitude of the argument, for the most negative integer too |
| `Printf.IntegerReadsBack` | lib/vcbprintf.c:197-339 | what %d, %i, %u, %o, %x, %X and %p print reads back as the argument whenever the buffers hold it, and fills the width |
| `Printf.ArgumentDenotes` | lib/vcbprintf.c:202-249 | by the modifier's characters: the argument is congruent to its slot modulo 2^64 or 2^32, unsigned or in two's complement |
| `Printf.DirectiveDenotes` | lib/vcbprintf.c:60-344 | for a directive written with any flags, width, precision and modifier: what is printed reads back as that number, and exactly when it is unknown |
| `Printf.StarDenotes` | lib/vcbprintf.c:88-91 | a width from an argument is its int, sign-extended |
| `Printf.ReadFlags` | lib/vcbprintf.c:60-77 | which flags occur and where they end |
| `Printf.ReadNumber` | lib/vcbprintf.c:80-104 | the decimal number in size_t and where it ends |
| `Printf.ReadModifier` | lib/vcbprintf.c:124-152 | the loop over the table finds the longest modifier |
| `Printf.ParseDirective` | lib/vcbprintf.c:60-152 | flags, width, precision and modifier of a directive |
| `Printf.DirectiveReads` | lib/vcbprintf.c:60-152 | writing a directive and reading it back gives its flags, width, precision and modifier |
| `Printf.ConversionMeaning` | lib/vcbprintf.c:154-348 | exactly which conversions are unknown and which overrun a buffer; a string comes out as its longest prefix within the precision, a character as its low byte, an integer as text that reads back as the argument |
| `Printf.Vcbprintf` | lib/vcbprintf.c:28-356 | terminates on every format, prints its meaning and returns what that counts; from the first unknown conversion on the text goes out verbatim with each %% as one % |
| `Printf.EscapePrints` | lib/vcbprintf.c:28-58 | text with its percent signs doubled is printed, and counted, as it was |
| `Printf.CountedExact` | lib/vcbprintf.c:25-355 | the count never exceeds the characters printed, and equals them exactly when no conversion is % and every integer is printed bare |
| `Printf.CountExample` | lib/vcbprintf.c:341-341 | %+d of 5 prints two characters and counts one |
| `DevicePath.Size` | uefi/device-path.c:132-140 | terminates with the sum of the node lengths |
| `DevicePath.Append` | uefi/device-path.c:142-160 | panics exactly on a null path; the result has the first path's nodes, then the second's, then the second's end node, with total size first + second - 4, when the first path's end node has four bytes, and if the second's has then only (section 10.3.1 of the UEFI Specification) |
| `DevicePath.NotJoined` | uefi/device-path.c:154-157 | with any other end node on the first path the result is never the joined path |
| `DevicePath.LongEndExample` | uefi/device-path.c:154-157 | one such pair of paths |
| `DevicePath.LengthRoundTrip` | uefi/device-path.c:25-35 | a stored length reads back exactly when it has 16 bits |
| `DevicePath.SetEndIsPath` | uefi/device-path.c:41-47 | panics exactly on a null node, else writes an empty path of four bytes and nothing else |

## Left out

- Firmware calls (AllocatePages, Transmit, Receive, GetStatus, file reads and writes, ExitBootServices, ResetSystem, timers): they appear as parameters or as demands on the environment, and a refused allocation ends the run.
- AddressSpace.Machine.Map: asks for an address outside the recursive slot 510, where a map call would rewrite the tables themselves; the loader never makes one.
- AddressSpace.Machine.MapAddr: asks for a range below 2^47; the loader uses it for identity maps only.
- Kernel.LoadPhdrs: asks for p_filesz <= p_memsz, complete file reads, segments on disjoint pages in the upper half and outside slots 508 and 510; the loader checks none of this.
- HandOff.LoaderKernel: asks that everything the firmware points at lies below 2^47, as the identity maps assume, and that the firmware writes no more of the memory map than it announced.
- NetStack.Stack.UdpSend: asks for at most 1978 bytes of payload, which is what fits in a slot behind the headers; the code does not check, and all its callers send far less.
- Netboot messages as bytes: `decode` and `encode` stand for the structs of include/netboot/netboot.h laid over the bytes. Of `encode` only the size limit is asked and that advertisements and acknowledgements of 64-bit numbers can be told apart (`Codec`), which the layout in `Wire.dfy` meets.
- Printf.Vcbprintf: a missing format, a callback that takes less than it is given (neither of the two in the repository does) and strings without a terminator are not modelled.
- The link-local and solicited-node addresses are given constants; their derivation from the MAC address is not part of this model.
- Delivery of the final acknowledgement and progress of the sender: the server is not part of the repository.
- The ELF header check and the parsing of program headers from the file: the headers are given as records.
- `uefi_devpath_from_path`, UCS-2 conversion, console output, drivers, GUIDs, file system access, frame buffer mode selection and the assembly: plumbing without a hard property.
- Permission bits of page-table entries: the walk reports the leaf entry and ignores write and no-execute bits.
