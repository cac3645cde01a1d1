# The bcmdhd driver's data structures and protocols, verified

This project models the algorithmic parts of the Broadcom `bcmdhd` wireless driver in this kernel tree and proves what
they promise. Each file is one component:

- `Bits.dfy`, `Common.dfy` words as numbers, the bitwise operators of C on them, and small notions shared by the others.
- `Mwbmap.dfy` the two-level bitmap id allocator, with its four redundant views of one set of free ids. It is the build
  that keeps `wd_count`; `items_max` runs over all sizes up to 64K.
- `BitField.dfy`, `BitRange.dfy` bit fields across byte boundaries, and setting, clearing and counting ranges of bits.
- `Arith.dfy` division by 1000 and 1000000 with a truncated reciprocal, and the integer square root.
- `Checksum.dfy`, `Crc.dfy`, `CrcBits.dfy` the Internet checksums in both byte orders, and the table-driven CRCs, bit by
  bit and as polynomial division.
- `ObjTrace.dfy` two circular doubly linked lists over one pool of nodes. A pointer is an index into the pool.
- `VarBuf.dfy` the flat `name=value` table as a map.
- `SeqLog.dfy` the compressed sequence number log and its ring.
- `Tlv.dfy`, `Xtlv.dfy`, `Radiotap.dfy` walks over 802.11 elements, XTLV records and radiotap fields.
- `Ipv6.dfy` the address printer and a reader for its text.
- `SdioHost.dfy`, `SdioRuns.dfy`, `SdioDriver.dfy` lock, clock tuning and client interrupt of the SDIO host.
  Requesters, interrupt handler, timer and tasklet are a state machine; the driver's functions are the methods of a
  class with the shared fields, each proved against its step, and whole requests are proved to be runs of the machine.
- `PacketChain.dfy` the planner that cuts a chain of packets into CMD53 commands.

Where the code does something else than one would expect, the model follows the code:

- `setbits` does not mask its value. `BitField.SetBits` states what every bit becomes for any value, and
  `BitField.OversizedValue` when a neighbour is left alone.
- `div_1K` and `div_1M` are not exact for all 64-bit numbers; the exact condition is part of their contracts.
- A byte write does not check for a pending tuning before its command, and a byte command that cannot be issued leaves
  without the check behind it. When a pending tuning is served is exact in both cases (`SdioRuns.ServedExactly`,
  `SdioRuns.ServedByOutcome`), with a run for each failure (`SdioRuns.ByteWritePassesBy`,
  `SdioRuns.FailedByteLeavesBehind`).
- The tuning state `TUNING_ONGOING` is never seen by the check before the data, so its wait loop is not reached from
  there (`SdioRuns.NobodyElseTunes`).
- A packet chain can end in a command with a block count of zero, exactly when its last packet is empty and its bytes
  are a multiple of the largest command (`PacketChain.RequestPacketChain`, with two such chains in
  `PacketChain.EmptyCommands`).
- The list of a command is too short exactly when a stretch of the stream needs more than 64 entries
  (`PacketChain.CrowdedWindows`); a chain of 65 packets of one byte does it (`PacketChain.TooManyPackets`).
- Radiotap alignment is counted from the field area, not from the start of the header (`Radiotap.AlignedInHeader`,
  `Radiotap.MisalignedTimestamp`).
- The allocator keeps its total in 16 bits, so with 64K ids it is zero, and the assertions of force and free refuse every
  id (`Mwbmap.Allocator.TotalWraps`, `Mwbmap.FullTotal`).
- An id that does not fit its one-byte field is packed without its high byte, and its entry is not restored, in any table
  (`Xtlv.CutIdLost`); the data end up in the entry of the cut id or stop the unpacking (`Xtlv.CutIdGoes`,
  `Xtlv.TwoIdsMixedUp`). Packing to memory and back, into entries that do not hold the data yet, restores
  everything if and only if no packed id is cut (`Xtlv.MemRoundTripExactly`).
- A radiotap header whose length field does not cover its fixed part gives a field area of nearly 2^32 bytes
  (`Radiotap.Parser.constructor`, `Radiotap.WrappedLength`).
- `varbuf_append` checks the room before it gives up the earlier record of the same name, and the first text that does
  not fit ends the table (`VarBuf.RunLookup`, `VarBuf.RefusedReplacement`).
- `bcm_object_trace_upd` does not check whether the new address is traced already (`ObjTrace.UpdateDistinct`,
  `ObjTrace.OneAddressTwice`).

## Model

| member | source | states |
|---|---|---|
| `Mwbmap.Allocator.constructor` | kernel-extra/drivers/net/wireless/rockchip_wlan/rkwifi/bcmdhd/bcmutils.c:1694-1764 | a new allocator is consistent and its free ids are exactly 0..items_max-1 |
| `Mwbmap.Allocator.Alloc` | kernel-extra/drivers/net/wireless/rockchip_wlan/rkwifi/bcmdhd/bcmutils.c:1781-1865 | returns and removes the least free id, or the invalid index exactly when none is left; all four views stay in step |
| `Mwbmap.Allocator.Force` | kernel-extra/drivers/net/wireless/rockchip_wlan/rkwifi/bcmdhd/bcmutils.c:1868-1919 | a free id of any size is taken out of the free set and nothing else changes |
| `Mwbmap.Allocator.Free` | kernel-extra/drivers/net/wireless/rockchip_wlan/rkwifi/bcmdhd/bcmutils.c:1922-1981 | any id in use goes back into the free set and nothing else changes |
| `Mwbmap.Allocator.FreeCount` | kernel-extra/drivers/net/wireless/rockchip_wlan/rkwifi/bcmdhd/bcmutils.c:1984-1995 | the running count is the size of the free set |
| `Mwbmap.Allocator.IsFree` | kernel-extra/drivers/net/wireless/rockchip_wlan/rkwifi/bcmdhd/bcmutils.c:1998-2013 | tells membership in the free set |
| `Mwbmap.Allocator.Audit` | kernel-extra/drivers/net/wireless/rockchip_wlan/rkwifi/bcmdhd/bcmutils.c:2049-2080 | in every consistent state each assertion of the audit holds, and the total it adds up is the running count and the number of free ids |
| `Mwbmap.Allocator.TotalWraps` | kernel-extra/drivers/net/wireless/rockchip_wlan/rkwifi/bcmdhd/bcmutils.c:1681-1724 | the total kept in 16 bits is the number of ids if and only if there are fewer than 64K of them, and zero with 64K, where the assertions of force and free against it refuse every id |
| `Mwbmap.FullTotal` | kernel-extra/drivers/net/wireless/rockchip_wlan/rkwifi/bcmdhd/bcmutils.c:1719-1724 | a new allocator with all 64K ids free has the total zero |
| `Mwbmap.SumPopIsCard` | kernel-extra/drivers/net/wireless/rockchip_wlan/rkwifi/bcmdhd/bcmutils.c:2053-2075 | the population counts of the id words add up to the number of free ids |
| `Mwbmap.TakeFirst` | kernel-extra/drivers/net/wireless/rockchip_wlan/rkwifi/bcmdhd/bcmutils.c:1791-1858 | going from the first nonzero first-level word to its lowest bit, then to the lowest bit of that id word, gives the least free id, and taking it keeps the views in step |
| `Mwbmap.TakeKeepsConsistent` | kernel-extra/drivers/net/wireless/rockchip_wlan/rkwifi/bcmdhd/bcmutils.c:1878-1916 | clearing one free id: the first-level bit goes exactly when its word becomes zero |
| `Mwbmap.GiveKeepsConsistent` | kernel-extra/drivers/net/wireless/rockchip_wlan/rkwifi/bcmdhd/bcmutils.c:1932-1978 | setting one id in use: counts, first level and total follow |
| `Mwbmap.CountLeadingZeros` | kernel-extra/drivers/net/wireless/rockchip_wlan/rkwifi/bcmdhd/bcmutils.c:1801-1809 | on an isolated bit, 31 minus the leading zeros is its position |
| `Mwbmap.RunSafety` | kernel-extra/drivers/net/wireless/rockchip_wlan/rkwifi/bcmdhd/bcmutils.c:1694-1981 | over any run of alloc, force of a free id and free of a live id, no two live ids are equal, and the live ids and the free set part the ids below items_max between them |
| `Mwbmap.RunOps` | kernel-extra/drivers/net/wireless/rockchip_wlan/rkwifi/bcmdhd/bcmutils.c:1694-1981 | a new allocator led through any such run hands out the least free id of the run each time, or the invalid index when none is free, and its free ids at the end are those of the run |
| `BitField.SetBits` | kernel-extra/drivers/net/wireless/rockchip_wlan/rkwifi/bcmdhd/bcmutils.c:5588-5637 | for a value of any size, the exact new value of every bit of the buffer: the field gets the value, the bits behind it in the last byte are or-ed with excess bits, all others are unchanged |
| `BitField.GetBits` | kernel-extra/drivers/net/wireless/rockchip_wlan/rkwifi/bcmdhd/bcmutils.c:5639-5687 | the result is the little-endian number of the buffer, divided by 2^start, modulo 2^n, for every case of first, full and last bytes |
| `BitField.ReadBack` | kernel-extra/drivers/net/wireless/rockchip_wlan/rkwifi/bcmdhd/bcmutils.c:5588-5687 | a value that fits is read back, and every field that does not overlap keeps its value |
| `BitField.OversizedValue` | kernel-extra/drivers/net/wireless/rockchip_wlan/rkwifi/bcmdhd/bcmutils.c:5588-5637 | bits outside the field are unchanged if and only if each excess bit in the last byte meets a bit that was set already |
| `BitField.SetBitsSpills` | kernel-extra/drivers/net/wireless/rockchip_wlan/rkwifi/bcmdhd/bcmutils.c:5588-5637 | a one-bit field given the value 3 disturbs its neighbour |
| `BitRange.PutBitRange` | kernel-extra/drivers/net/wireless/rockchip_wlan/rkwifi/bcmdhd/bcmutils.c:5150-5202 | byte version of range set and clear: exactly the bits of the range change, wrapped ranges included |
| `BitRange.PutBitRangeU32` | kernel-extra/drivers/net/wireless/rockchip_wlan/rkwifi/bcmdhd/bcmutils.c:5204-5298 | the same for the word version with its masks |
| `BitRange.WrappedRange` | kernel-extra/drivers/net/wireless/rockchip_wlan/rkwifi/bcmdhd/bcmutils.c:5170-5174 | a wrapped range is the range up to maxbit followed by the one from zero |
| `BitRange.VersionsAgree` | kernel-extra/drivers/net/wireless/rockchip_wlan/rkwifi/bcmdhd/bcmutils.c:5150-5298 | the byte and the word version have the same effect bit for bit on the same memory |
| `BitRange.BitCountByte` | kernel-extra/drivers/net/wireless/rockchip_wlan/rkwifi/bcmdhd/bcmutils.c:4978-4984 | clearing the lowest set bit until none is left counts the set bits |
| `BitRange.BitCount` | kernel-extra/drivers/net/wireless/rockchip_wlan/rkwifi/bcmdhd/bcmutils.c:4973-4986 | counts the set bits of a stretch of bytes |
| `BitRange.CountBits` | kernel-extra/drivers/net/wireless/rockchip_wlan/rkwifi/bcmdhd/bcmutils.c:4988-5041 | the exact number of ones or zeros of the range, and zero for an empty range or one that leaves the buffer |
| `BitRange.OnesAndZeros` | kernel-extra/drivers/net/wireless/rockchip_wlan/rkwifi/bcmdhd/bcmutils.c:5035-5038 | ones and zeros of a range add up to its length |
| `Arith.Div1K` | kernel-extra/drivers/net/wireless/rockchip_wlan/rkwifi/bcmdhd/bcmutils.c:6396-6444 | for every 64-bit dividend the quotient or one more; exactly when it is exact; always below 2^60 |
| `Arith.Div1M` | kernel-extra/drivers/net/wireless/rockchip_wlan/rkwifi/bcmdhd/bcmutils.c:6446-6493 | the same for one million; always exact below 2^63 |
| `Arith.CarryIsExact` | kernel-extra/drivers/net/wireless/rockchip_wlan/rkwifi/bcmdhd/bcmutils.c:6421-6441 | the carry of the 64-bit sum is detected exactly and added back without overflow |
| `Arith.Div1KFails` | kernel-extra/drivers/net/wireless/rockchip_wlan/rkwifi/bcmdhd/bcmutils.c:6404-6444 | a dividend for which the result is one too large |
| `Arith.Div1MFails` | kernel-extra/drivers/net/wireless/rockchip_wlan/rkwifi/bcmdhd/bcmutils.c:6453-6493 | a dividend for which the result is one too large |
| `Arith.SqrtInt` | kernel-extra/drivers/net/wireless/rockchip_wlan/rkwifi/bcmdhd/bcmutils.c:5557-5576 | the integer nearest to the square root of any 32-bit number |
| `Arith.NearestIsUnique` | kernel-extra/drivers/net/wireless/rockchip_wlan/rkwifi/bcmdhd/bcmutils.c:5572-5573 | only one integer is nearest |
| `Checksum.BcmIpCksum` | kernel-extra/drivers/net/wireless/rockchip_wlan/rkwifi/bcmdhd/bcmutils.c:5316-5335 | the big-endian, loop-folded checksum is the complement of the ones-complement value of the sum |
| `Checksum.IpCksumPartial` | kernel-extra/drivers/net/wireless/rockchip_wlan/rkwifi/bcmdhd/bcmutils.c:5394-5410 | the running sum of little-endian words, modulo 2^32 |
| `Checksum.IpCksum` | kernel-extra/drivers/net/wireless/rockchip_wlan/rkwifi/bcmdhd/bcmutils.c:5413-5433 | two folds are enough: the complement of the ones-complement value |
| `Checksum.Ipv4HdrCksum` | kernel-extra/drivers/net/wireless/rockchip_wlan/rkwifi/bcmdhd/bcmutils.c:5439-5458 | the checksum of the header with its checksum field left out, zero for a short header |
| `Checksum.FieldIgnored` | kernel-extra/drivers/net/wireless/rockchip_wlan/rkwifi/bcmdhd/bcmutils.c:5450-5457 | bytes 10 and 11 of the header do not matter |
| `Checksum.OnesValueMeaning` | kernel-extra/drivers/net/wireless/rockchip_wlan/rkwifi/bcmdhd/bcmutils.c:5330-5332 | the folded value is the sum modulo 0xFFFF, and zero for a zero sum only |
| `Checksum.ByteOrderIndependence` | kernel-extra/drivers/net/wireless/rockchip_wlan/rkwifi/bcmdhd/bcmutils.c:5316-5433 | in either byte order the checksums are byte swaps of each other (RFC 1071 section 2 (B)), for every byte string whose sum does not overflow |
| `Checksum.BothOrders` | kernel-extra/drivers/net/wireless/rockchip_wlan/rkwifi/bcmdhd/bcmutils.c:5316-5433 | the two functions on the same bytes give byte-swapped results |
| `Checksum.WhatVerifies` | kernel-extra/drivers/net/wireless/rockchip_wlan/rkwifi/bcmdhd/bcmutils.c:5439-5458 | a stored value makes the header verify to zero if and only if it is the computed one, or 0xFFFF where that is zero |
| `Checksum.StoreAndVerify` | kernel-extra/drivers/net/wireless/rockchip_wlan/rkwifi/bcmdhd/bcmutils.c:5439-5458 | storing the computed checksum makes the whole header verify to zero with both functions |
| `Crc.HndCrc8` | kernel-extra/drivers/net/wireless/rockchip_wlan/rkwifi/bcmdhd/bcmutils.c:3924-3938 | the table-driven CRC-8 is bit-serial division by x^8+x^7+x^6+x^4+x^2+1 |
| `Crc.HndCrc16` | kernel-extra/drivers/net/wireless/rockchip_wlan/rkwifi/bcmdhd/bcmutils.c:3997-4007 | the table-driven CRC-16 is bit-serial division by x^16+x^12+x^5+1 |
| `Crc.Table8Entry` | kernel-extra/drivers/net/wireless/rockchip_wlan/rkwifi/bcmdhd/bcmutils.c:3886-3919 | each of the 256 entries of crc8_table is eight division steps on its index |
| `Crc.Table16Entry` | kernel-extra/drivers/net/wireless/rockchip_wlan/rkwifi/bcmdhd/bcmutils.c:3962-3995 | the same for crc16_table |
| `Crc.TableStep8` | kernel-extra/drivers/net/wireless/rockchip_wlan/rkwifi/bcmdhd/bcmutils.c:3934-3935 | one table step is eight division steps with the next byte |
| `Crc.TableStep16` | kernel-extra/drivers/net/wireless/rockchip_wlan/rkwifi/bcmdhd/bcmutils.c:3921-3922 | the same for CRC_INNER_LOOP with sixteen bits |
| `Crc.Pieces8` | kernel-extra/drivers/net/wireless/rockchip_wlan/rkwifi/bcmdhd/bcmutils.c:3870-3875 | feeding a message in pieces is feeding it whole |
| `Crc.Pieces16` | kernel-extra/drivers/net/wireless/rockchip_wlan/rkwifi/bcmdhd/bcmutils.c:3946-3951 | the same for CRC-16 |
| `Crc.Residue8` | kernel-extra/drivers/net/wireless/rockchip_wlan/rkwifi/bcmdhd/bcmutils.c:3870-3875 | after any message and initial value, one more byte ends in 0x9F if and only if it is the complemented CRC |
| `Crc.Residue16` | kernel-extra/drivers/net/wireless/rockchip_wlan/rkwifi/bcmdhd/bcmutils.c:3946-3951 | two more bytes, low one first, end in 0xF0B8 if and only if they are the complemented CRC |
| `Crc.DetectsOneByte8` | kernel-extra/drivers/net/wireless/rockchip_wlan/rkwifi/bcmdhd/bcmutils.c:3924-3938 | changing one byte of any message changes its CRC-8 |
| `Crc.DetectsTwoBytes16` | kernel-extra/drivers/net/wireless/rockchip_wlan/rkwifi/bcmdhd/bcmutils.c:3997-4007 | changing two neighbouring bytes of any message changes its CRC-16 |
| `CrcBits.SerialIsFed8` | kernel-extra/drivers/net/wireless/rockchip_wlan/rkwifi/bcmdhd/bcmutils.c:3924-3938 | the register over bytes is the register over the bits of the message, lowest bit of each byte first |
| `CrcBits.SerialIsFed16` | kernel-extra/drivers/net/wireless/rockchip_wlan/rkwifi/bcmdhd/bcmutils.c:3997-4007 | the same for CRC-16 |
| `CrcBits.SerialDivides8` | kernel-extra/drivers/net/wireless/rockchip_wlan/rkwifi/bcmdhd/bcmutils.c:3867-3938 | the CRC-8 of any message is the remainder of schoolbook long division by x^8+x^7+x^6+x^4+x^2+1 of the message followed by eight zeros, with the initial value added to its first coefficients |
| `CrcBits.SerialDivides16` | kernel-extra/drivers/net/wireless/rockchip_wlan/rkwifi/bcmdhd/bcmutils.c:3942-4007 | the CRC-16 is the remainder of long division by x^16+x^12+x^5+1 in the same sense |
| `CrcBits.DetectsBurst8` | kernel-extra/drivers/net/wireless/rockchip_wlan/rkwifi/bcmdhd/bcmutils.c:3924-3938 | any burst of at most 8 bits, at any bit of any message, changes its CRC-8 |
| `CrcBits.DetectsBurst16` | kernel-extra/drivers/net/wireless/rockchip_wlan/rkwifi/bcmdhd/bcmutils.c:3997-4007 | any burst of at most 16 bits, at any bit of any message, changes its CRC-16 |
| `CrcBits.DetectsOdd8` | kernel-extra/drivers/net/wireless/rockchip_wlan/rkwifi/bcmdhd/bcmutils.c:3924-3938 | changing any odd number of bits, wherever they lie in the message, changes its CRC-8 |
| `CrcBits.DetectsOdd16` | kernel-extra/drivers/net/wireless/rockchip_wlan/rkwifi/bcmdhd/bcmutils.c:3997-4007 | changing any odd number of bits, wherever they lie in the message, changes its CRC-16 |
| `ObjTrace.Trace.constructor` | kernel-extra/drivers/net/wireless/rockchip_wlan/rkwifi/bcmdhd/bcmutils.c:3342-3357 | the free ring runs through all nodes in the order of the pool, and nothing is traced or remembered |
| `ObjTrace.Trace.RmList` | kernel-extra/drivers/net/wireless/rockchip_wlan/rkwifi/bcmdhd/bcmutils.c:3369-3383 | exactly the two pointer writes, and a well-formed ring through the other nodes with its new head and tail |
| `ObjTrace.Trace.AddList` | kernel-extra/drivers/net/wireless/rockchip_wlan/rkwifi/bcmdhd/bcmutils.c:3385-3406 | exactly the pointer writes for an empty or nonempty list, and a ring with the node at its tail or its head |
| `ObjTrace.Trace.MoveToEnd` | kernel-extra/drivers/net/wireless/rockchip_wlan/rkwifi/bcmdhd/bcmutils.c:3408-3427 | the node becomes last or first of its ring; the other ring and all objects are unchanged |
| `ObjTrace.Trace.Find` | kernel-extra/drivers/net/wireless/rockchip_wlan/rkwifi/bcmdhd/bcmutils.c:3440-3453 | the backward search stops at the newest entry of the object, and ends without one exactly when it is not traced |
| `ObjTrace.Trace.Add` | kernel-extra/drivers/net/wireless/rockchip_wlan/rkwifi/bcmdhd/bcmutils.c:3438-3494 | the list of traced objects gets the object at its end, unless it is there already or every node is in use; a released object is forgotten, the oldest first, only when no other node is left |
| `ObjTrace.Trace.Remove` | kernel-extra/drivers/net/wireless/rockchip_wlan/rkwifi/bcmdhd/bcmutils.c:3496-3541 | the newest entry of the object leaves the list; already freed is reported exactly for an object that is not traced but still remembered as released, and none existing for all others |
| `ObjTrace.Trace.FindFreed` | kernel-extra/drivers/net/wireless/rockchip_wlan/rkwifi/bcmdhd/bcmutils.c:3520-3535 | the backward search of the free list finds exactly the objects released and not forgotten |
| `ObjTrace.Trace.Update` | kernel-extra/drivers/net/wireless/rockchip_wlan/rkwifi/bcmdhd/bcmutils.c:3549-3576 | the object gets its new address and becomes the newest; the released ones stay remembered |
| `ObjTrace.Trace.FindOnFree` | kernel-extra/drivers/net/wireless/rockchip_wlan/rkwifi/bcmdhd/bcmutils.c:3600-3618 | the search of the whole free list finds the objects released and not forgotten, and the zero address as long as a node was never used |
| `ObjTrace.Trace.Check` | kernel-extra/drivers/net/wireless/rockchip_wlan/rkwifi/bcmdhd/bcmutils.c:3578-3634 | a traced object becomes the newest; every result exactly when it is due |
| `ObjTrace.NextPriorInverse` | kernel-extra/drivers/net/wireless/rockchip_wlan/rkwifi/bcmdhd/bcmutils.c:3322-3331 | in a ring next and prior undo each other, and the tail is the prior of the head |
| `ObjTrace.UnlinkRing` | kernel-extra/drivers/net/wireless/rockchip_wlan/rkwifi/bcmdhd/bcmutils.c:3369-3383 | unlinking a node anywhere leaves a ring |
| `ObjTrace.AppendRing` | kernel-extra/drivers/net/wireless/rockchip_wlan/rkwifi/bcmdhd/bcmutils.c:3393-3402 | the four writes append a node |
| `ObjTrace.Rotated` | kernel-extra/drivers/net/wireless/rockchip_wlan/rkwifi/bcmdhd/bcmutils.c:3394-3401 | adding at the head makes the same links |
| `ObjTrace.MovedPartition` | kernel-extra/drivers/net/wireless/rockchip_wlan/rkwifi/bcmdhd/bcmutils.c:3475-3513 | moving a node from one list to the other keeps every pool node on exactly one list, exactly once |
| `ObjTrace.UpdateDistinct` | kernel-extra/drivers/net/wireless/rockchip_wlan/rkwifi/bcmdhd/bcmutils.c:3549-3576 | an update keeps the traced objects distinct if and only if the new address is not that of another one |
| `ObjTrace.NewestReplaced` | kernel-extra/drivers/net/wireless/rockchip_wlan/rkwifi/bcmdhd/bcmutils.c:3503-3576 | an update or a removal takes out the newest entry of the object, an update puts the new address behind all others, and the others keep their order |
| `ObjTrace.OldestForgotten` | kernel-extra/drivers/net/wireless/rockchip_wlan/rkwifi/bcmdhd/bcmutils.c:3465-3480 | an add takes a node never used as long as there is one, and then forgets the object released first |
| `ObjTrace.OneAddressTwice` | kernel-extra/drivers/net/wireless/rockchip_wlan/rkwifi/bcmdhd/bcmutils.c:3549-3576 | two adds and an update after which one address is traced twice |
| `ObjTrace.RunDistinct` | kernel-extra/drivers/net/wireless/rockchip_wlan/rkwifi/bcmdhd/bcmutils.c:3429-3634 | over any run of adds, removes, checks and updates that never duplicate an address, each object is traced at most once and the pool suffices |
| `ObjTrace.RunRemembers` | kernel-extra/drivers/net/wireless/rockchip_wlan/rkwifi/bcmdhd/bcmutils.c:3429-3634 | over any run: traced and remembered objects together never exceed the pool, only an object released before is remembered, and none is forgotten before the run is as long as the rest of the pool |
| `ObjTrace.RunTrace` | kernel-extra/drivers/net/wireless/rockchip_wlan/rkwifi/bcmdhd/bcmutils.c:3342-3634 | a new trace led through any run of adds, removes, updates and checks traces and remembers what the run says |
| `VarBuf.Buffer.constructor` | kernel-extra/drivers/net/wireless/rockchip_wlan/rkwifi/bcmdhd/bcmutils.c:6066-6071 | an empty table |
| `VarBuf.Buffer.Append` | kernel-extra/drivers/net/wireless/rockchip_wlan/rkwifi/bcmdhd/bcmutils.c:6074-6124 | an append that fits replaces the record of its name and keeps used plus remaining bytes at the capacity; one that does not fit changes no record and ends the table; a formatted text is taken exactly when two bytes are left behind it |
| `VarBuf.Buffer.FindRecord` | kernel-extra/drivers/net/wireless/rockchip_wlan/rkwifi/bcmdhd/bcmutils.c:6101-6116 | the raw comparison across record boundaries finds the first record of the name |
| `VarBuf.Buffer.RemoveEarlier` | kernel-extra/drivers/net/wireless/rockchip_wlan/rkwifi/bcmdhd/bcmutils.c:6101-6117 | the move of the following bytes removes exactly that record and brings the new text along |
| `VarBuf.GetVar` | kernel-extra/drivers/net/wireless/rockchip_wlan/rkwifi/bcmdhd/bcmutils.c:145-170 | nothing for a missing or empty name; otherwise a pointer to the value of the first record of the name, and exactly when there is none, or no table, what the nvram says |
| `VarBuf.CompareName` | kernel-extra/drivers/net/wireless/rockchip_wlan/rkwifi/bcmdhd/bcmutils.c:156-157 | comparing as many bytes as the name has tells whether the record has it, also where this reads beyond the record |
| `VarBuf.ReplacedKeeps` | kernel-extra/drivers/net/wireless/rockchip_wlan/rkwifi/bcmdhd/bcmutils.c:6101-6117 | an append keeps one record per name |
| `VarBuf.ReplacedLookup` | kernel-extra/drivers/net/wireless/rockchip_wlan/rkwifi/bcmdhd/bcmutils.c:6074-6124 | an append sets its variable and no other |
| `VarBuf.RunLookup` | kernel-extra/drivers/net/wireless/rockchip_wlan/rkwifi/bcmdhd/bcmutils.c:6074-6124 | after any run of appends a lookup gives the value last appended for the name before the first append that did not fit, and after that one nothing changes any more |
| `VarBuf.AppendAndGet` | kernel-extra/drivers/net/wireless/rockchip_wlan/rkwifi/bcmdhd/bcmutils.c:145-170 | a buffer led through any run of appends and closed with a zero is searched by getvar: a pointer to the value last accepted for the name, and exactly when there is none what the nvram says |
| `VarBuf.RefusedReplacement` | kernel-extra/drivers/net/wireless/rockchip_wlan/rkwifi/bcmdhd/bcmutils.c:6094-6098 | seven bytes in which a=2 is refused behind a=1, though it would fit in its place |
| `VarBuf.CompareTells` | kernel-extra/drivers/net/wireless/rockchip_wlan/rkwifi/bcmdhd/bcmutils.c:6104-6104 | comparing beyond the end of a record never gives a false match |
| `VarBuf.RoomForEnd` | kernel-extra/drivers/net/wireless/rockchip_wlan/rkwifi/bcmdhd/bcmutils.c:6090-6098 | room for the zero behind the table is always kept |
| `SeqLog.SeqLog.constructor` | kernel-extra/drivers/net/wireless/rockchip_wlan/rkwifi/bcmdhd/bcmutils.c:6237-6240 | an empty ring |
| `SeqLog.SeqLog.LogSeq` | kernel-extra/drivers/net/wireless/rockchip_wlan/rkwifi/bcmdhd/bcmutils.c:6252-6284 | the ring holds the latest entries of the compressed log, before and after it wraps; a number that continues the open run takes no room |
| `SeqLog.SeqLog.IncUpdate` | kernel-extra/drivers/net/wireless/rockchip_wlan/rkwifi/bcmdhd/bcmutils.c:6230-6235 | the next entry overwrites the oldest one only |
| `SeqLog.SeqLog.CloseOpen` | kernel-extra/drivers/net/wireless/rockchip_wlan/rkwifi/bcmdhd/bcmutils.c:6263-6274 | a run is closed in place when it has one number and with an end entry otherwise |
| `SeqLog.SeqLog.ReadBack` | kernel-extra/drivers/net/wireless/rockchip_wlan/rkwifi/bcmdhd/bcmutils.c:6223-6284 | with fewer than 10000 entries, decoding the ring and closing the open run with the last number gives exactly the numbers logged |
| `SeqLog.SeqLog.ReadLatest` | kernel-extra/drivers/net/wireless/rockchip_wlan/rkwifi/bcmdhd/bcmutils.c:6223-6284 | before and after the ring has wrapped, reading it from its oldest start entry on gives the latest of the numbers logged in order, at least as many as it has entries less one, and all of them while nothing was overwritten |
| `SeqLog.DecodeOfLog` | kernel-extra/drivers/net/wireless/rockchip_wlan/rkwifi/bcmdhd/bcmutils.c:6223-6284 | for every sequence of 12-bit numbers the compressed log decodes to that sequence; no run passes through zero, and an end entry always has a greater number than its start |
| `SeqLog.NeverLonger` | kernel-extra/drivers/net/wireless/rockchip_wlan/rkwifi/bcmdhd/bcmutils.c:6223-6284 | the compressed log never has more entries than numbers |
| `SeqLog.OneEntryPerRun` | kernel-extra/drivers/net/wireless/rockchip_wlan/rkwifi/bcmdhd/bcmutils.c:6256-6277 | one entry starts a run for each maximal run of consecutive numbers logged, with at most one other for each run but the last, and no run goes on where the one before it ended |
| `SeqLog.EntryValue` | kernel-extra/drivers/net/wireless/rockchip_wlan/rkwifi/bcmdhd/bcmutils.c:6225-6235 | an entry is its number with the start flag in bit 12 and the end flag in bit 13 |
| `SeqLog.CloseRun` | kernel-extra/drivers/net/wireless/rockchip_wlan/rkwifi/bcmdhd/bcmutils.c:6263-6274 | closing a run changes nothing of what the log decodes to |
| `Tlv.ParseTlvs` | kernel-extra/drivers/net/wireless/rockchip_wlan/rkwifi/bcmdhd/bcmutils.c:4256-4293 | the first element with the id or extended id, in any buffer |
| `Tlv.AdvanceTo` | kernel-extra/drivers/net/wireless/rockchip_wlan/rkwifi/bcmdhd/bcmutils.c:4156-4201 | the rest of the buffer from a valid element on, or nothing |
| `Tlv.AdvancePast` | kernel-extra/drivers/net/wireless/rockchip_wlan/rkwifi/bcmdhd/bcmutils.c:4219-4249 | the rest of the buffer behind the element if it begins with another one, or nothing |
| `Tlv.ParseTlvsAdvanceTo` | kernel-extra/drivers/net/wireless/rockchip_wlan/rkwifi/bcmdhd/bcmutils.c:4307-4334 | the element found and the buffer from it on; unchanged if none is found |
| `Tlv.FindIe` | kernel-extra/drivers/net/wireless/rockchip_wlan/rkwifi/bcmdhd/bcmutils.c:2622-2650 | the first element of the maximal well-formed prefix with the tag, the OUI and the type; ends on any buffer |
| `Tlv.NextTlv` | kernel-extra/drivers/net/wireless/rockchip_wlan/rkwifi/bcmdhd/bcmutils.c:4099-4140 | the next element, if both it and the current one fit |
| `Tlv.FindVendorIe` | kernel-extra/drivers/net/wireless/rockchip_wlan/rkwifi/bcmdhd/bcmutils.c:2653-2690 | the first vendor element of the maximal well-formed prefix with the OUI and type; ends on any buffer |
| `Tlv.SearchesAgree` | kernel-extra/drivers/net/wireless/rockchip_wlan/rkwifi/bcmdhd/bcmutils.c:2622-2690 | for the vendor id, a three-byte OUI and one type byte both searches find the same element in every buffer |
| `Tlv.FirstIsFirst` | kernel-extra/drivers/net/wireless/rockchip_wlan/rkwifi/bcmdhd/bcmutils.c:2622-2690 | what the searches return is the first match among the elements, and nothing exactly when none matches |
| `Tlv.SearchInBytes` | kernel-extra/drivers/net/wireless/rockchip_wlan/rkwifi/bcmdhd/bcmutils.c:4271-4288 | the step of each search told by bytes: ends when no element fits, stops at the id, at 255 with the extended id in its first byte, at id, OUI and type, or at the vendor's id with OUI and type, and goes on behind the element otherwise |
| `Tlv.StartsMaximal` | kernel-extra/drivers/net/wireless/rockchip_wlan/rkwifi/bcmdhd/bcmutils.c:4099-4140 | the elements lie end to end, and behind the last one none fits (IEEE 802.11-2016 section 9.4.2.1) |
| `Tlv.PlainKey` | kernel-extra/drivers/net/wireless/rockchip_wlan/rkwifi/bcmdhd/bcmutils.c:4278-4281 | for ids of one byte the clause for extended ids adds no match |
| `Ipv6.FindRun` | kernel-extra/drivers/net/wireless/rockchip_wlan/rkwifi/bcmdhd/bcmutils.c:2850-2866 | the leftmost longest run of at least two zero groups (RFC 5952 sections 4.2.2 and 4.2.3) |
| `Ipv6.BestIsUnique` | kernel-extra/drivers/net/wireless/rockchip_wlan/rkwifi/bcmdhd/bcmutils.c:2850-2866 | there is one such run at most |
| `Ipv6.Ntoa` | kernel-extra/drivers/net/wireless/rockchip_wlan/rkwifi/bcmdhd/bcmutils.c:2842-2892 | the characters in the buffer, ended by a zero, read back as the address; they have a :: exactly where the best run is left out; they end in four octets exactly for ::ffff:a.b.c.d and ::ffff:0:a.b.c.d, which are written so; digits are in lower case and no number has leading zeros; 40 characters always suffice |
| `Ipv6.RunLeftOut` | kernel-extra/drivers/net/wireless/rockchip_wlan/rkwifi/bcmdhd/bcmutils.c:2875-2885 | the text is cut at its :: into the groups before and behind the run, and has none when there is no run |
| `Ipv6.TextLooks` | kernel-extra/drivers/net/wireless/rockchip_wlan/rkwifi/bcmdhd/bcmutils.c:2868-2889 | a dotted quad exactly for the two kinds of addresses, digits in lower case, no leading zeros (RFC 5952 section 4) |
| `Ipv6.DottedAre` | kernel-extra/drivers/net/wireless/rockchip_wlan/rkwifi/bcmdhd/bcmutils.c:2868-2873 | the addresses printed with a dotted quad are those with five zero groups and ffff, or four, ffff and zero, in front |
| `Ipv6.ReadOfText` | kernel-extra/drivers/net/wireless/rockchip_wlan/rkwifi/bcmdhd/bcmutils.c:2842-2892 | reading the text by RFC 4291 section 2.2, down to characters and digits, gives back the address |
| `Ipv6.TextTellsApart` | kernel-extra/drivers/net/wireless/rockchip_wlan/rkwifi/bcmdhd/bcmutils.c:2842-2892 | distinct addresses never print alike |
| `Ipv6.NoLeadingZero` | kernel-extra/drivers/net/wireless/rockchip_wlan/rkwifi/bcmdhd/bcmutils.c:2887-2887 | groups are printed without leading zeros (RFC 5952 section 4.1) |
| `Ipv6.QuadRead` | kernel-extra/drivers/net/wireless/rockchip_wlan/rkwifi/bcmdhd/bcmutils.c:2876-2878 | the dotted quad reads back as the last two groups |
| `SdioRuns.RunSafety` | kernel-extra/drivers/net/wireless/rockchip_wlan/rkwifi/bcmdhd/bcmsdstd.c:1121-1221 | in every interleaving of requesters and handlers: at most one requester inside, the lock count says so, the client interrupt bit is set exactly when wanted with nobody inside, tuning and data transfer never overlap |
| `SdioHost.NextKeeps` | kernel-extra/drivers/net/wireless/rockchip_wlan/rkwifi/bcmdhd/bcmsdstd.c:1121-1221 | every single step, of whatever requester or handler, keeps the invariant |
| `SdioHost.StepKeeps` | kernel-extra/drivers/net/wireless/rockchip_wlan/rkwifi/bcmdhd/bcmsdstd.c:1121-1221 | a step of the lock holder, or the step that takes the lock |
| `SdioHost.HandleTuneKeeps` | kernel-extra/drivers/net/wireless/rockchip_wlan/rkwifi/bcmdhd/bcmsdstd.c:2839-2859 | a handler never begins a tuning, leaves a pending or running one alone, and asks for one after the data only while data moves; a request appears only when one of them asks for it |
| `SdioHost.MaskOneBit` | kernel-extra/drivers/net/wireless/rockchip_wlan/rkwifi/bcmdhd/bcmsdstd.c:1917-1945 | setting or clearing one bit of the mask leaves all others |
| `SdioHost.HandleLockKeeps` | kernel-extra/drivers/net/wireless/rockchip_wlan/rkwifi/bcmdhd/bcmsdstd_linux.c:302-335 | a handler keeps the lock count and the client interrupt bit in step |
| `SdioRuns.NobodyElseTunes` | kernel-extra/drivers/net/wireless/rockchip_wlan/rkwifi/bcmdhd/bcmsdstd.c:2807-2822 | the wait for somebody else's tuning is never entered |
| `SdioRuns.AskedIsRecorded` | kernel-extra/drivers/net/wireless/rockchip_wlan/rkwifi/bcmdhd/bcmsdstd_linux.c:92-108 | after any run, the timer, a re-tuning interrupt and a scheduled tasklet leave a request recorded when there was none, in the form the data state asks for |
| `SdioRuns.InterruptIsServed` | kernel-extra/drivers/net/wireless/rockchip_wlan/rkwifi/bcmdhd/bcmsdstd_linux.c:92-108 | after a re-tuning interrupt, and whatever runs later, a request is pending, a tuning was running, or a tuning has been begun since |
| `SdioRuns.NotTunedWhenOff` | kernel-extra/drivers/net/wireless/rockchip_wlan/rkwifi/bcmdhd/bcmsdstd.c:2802-2806 | a requester that takes the lock with tuning switched off, or a clock that does not need it, never tunes |
| `SdioRuns.PendingStep` | kernel-extra/drivers/net/wireless/rockchip_wlan/rkwifi/bcmdhd/bcmsdstd_linux.c:240-289 | a step leaves a pending request as it is or is the start of a tuning |
| `SdioRuns.NeverDropped` | kernel-extra/drivers/net/wireless/rockchip_wlan/rkwifi/bcmdhd/bcmsdstd_linux.c:240-289 | over any run a recorded tuning request is still recorded in the same form unless a tuning was begun since |
| `SdioRuns.ServedExactly` | kernel-extra/drivers/net/wireless/rockchip_wlan/rkwifi/bcmdhd/bcmsdstd.c:1121-1221 | when a requester takes the lock with a request pending and tuning is on, it has tuned by the time it lets go if and only if: for TUNING_START, it checks before its command; for TUNING_START_AFTER_DAT, it reached the check behind it |
| `SdioRuns.ServedBehindCommand` | kernel-extra/drivers/net/wireless/rockchip_wlan/rkwifi/bcmdhd/bcmsdstd.c:1121-1221 | a request recorded while a command is on its way is served by the requester inside if and only if this reaches the check behind its command; otherwise it stays recorded as it was |
| `SdioRuns.ServedByOutcome` | kernel-extra/drivers/net/wireless/rockchip_wlan/rkwifi/bcmdhd/bcmsdstd.c:1149-1192 | told by the outcome: it is served if and only if the request is no byte request or its command could be issued |
| `SdioRuns.ByteWritePassesBy` | kernel-extra/drivers/net/wireless/rockchip_wlan/rkwifi/bcmdhd/bcmsdstd.c:1129-1130 | a run in which a byte write goes all the way while a tuning asked for before it stays pending |
| `SdioRuns.NeverLeftBehind` | kernel-extra/drivers/net/wireless/rockchip_wlan/rkwifi/bcmdhd/bcmsdstd.c:1121-1221 | while byte commands can be issued and tuning stays on, a request recorded during a transfer never outlives the requester inside |
| `SdioRuns.FailedByteLeavesBehind` | kernel-extra/drivers/net/wireless/rockchip_wlan/rkwifi/bcmdhd/bcmsdstd.c:1149-1154 | a byte write that cannot be issued does leave such a request behind with the lock free |
| `SdioDriver.Sdioh.constructor` | kernel-extra/drivers/net/wireless/rockchip_wlan/rkwifi/bcmdhd/bcmsdstd.c:3861-3904 | the state after bring-up, which is an initial state of the machine: lock free, nothing pending, client interrupt off, re-tuning interrupt on if the clock needs tuning and the controller has re-tuning modes |
| `SdioDriver.Sdioh.DevintrOff` | kernel-extra/drivers/net/wireless/rockchip_wlan/rkwifi/bcmdhd/bcmsdstd.c:1917-1926 | clears the client interrupt bit and nothing else |
| `SdioDriver.Sdioh.DevintrOn` | kernel-extra/drivers/net/wireless/rockchip_wlan/rkwifi/bcmdhd/bcmsdstd.c:1929-1945 | sets the client interrupt bit and nothing else; called with the lock count at zero only |
| `SdioDriver.Sdioh.TryLock` | kernel-extra/drivers/net/wireless/rockchip_wlan/rkwifi/bcmdhd/bcmsdstd_linux.c:338-370 | takes the lock exactly when the count is zero, with the client interrupt off |
| `SdioDriver.Sdioh.Unlock` | kernel-extra/drivers/net/wireless/rockchip_wlan/rkwifi/bcmdhd/bcmsdstd_linux.c:373-396 | gives the lock back and lets the client interrupt through again if it is wanted |
| `SdioDriver.Sdioh.InterruptSet` | kernel-extra/drivers/net/wireless/rockchip_wlan/rkwifi/bcmdhd/bcmsdstd_linux.c:302-335 | fails exactly before initialisation or without a handler; otherwise sets the mask by the lock count, and remembers what the client wants |
| `SdioDriver.Sdioh.InterruptRegister` | kernel-extra/drivers/net/wireless/rockchip_wlan/rkwifi/bcmdhd/bcmsdstd.c:461-470 | a handler is there, and nothing else changes |
| `SdioDriver.Sdioh.InterruptDeregister` | kernel-extra/drivers/net/wireless/rockchip_wlan/rkwifi/bcmdhd/bcmsdstd.c:472-480 | no handler is there, and nothing else changes |
| `SdioDriver.Sdioh.CheckAndSetRetuning` | kernel-extra/drivers/net/wireless/rockchip_wlan/rkwifi/bcmdhd/bcmsdstd.c:2839-2859 | records a request by the data state unless one is recorded or running, and says when to schedule the tasklet |
| `SdioDriver.Sdioh.Timer` | kernel-extra/drivers/net/wireless/rockchip_wlan/rkwifi/bcmdhd/bcmsdstd_linux.c:222-238 | the timer records a request and schedules the tasklet |
| `SdioDriver.Sdioh.InterruptHandler` | kernel-extra/drivers/net/wireless/rockchip_wlan/rkwifi/bcmdhd/bcmsdstd_linux.c:71-118 | with the card initialised, a re-tuning interrupt records a request when none is recorded or running: for now, with the tasklet scheduled, when no data moves, and for after the data otherwise; it clears bit 12 of the mask and no other; in all other cases nothing changes |
| `SdioDriver.Sdioh.RunTasklet` | kernel-extra/drivers/net/wireless/rockchip_wlan/rkwifi/bcmdhd/bcmsdstd_linux.c:206-220 | the tasklet records a request only when none is recorded or running; by the data state, for now or for after the data |
| `SdioDriver.Sdioh.StartTuning` | kernel-extra/drivers/net/wireless/rockchip_wlan/rkwifi/bcmdhd/bcmsdstd_linux.c:240-289 | from the state to TUNING_ONGOING and back to TUNING_IDLE, with handlers running during the tuning |
| `SdioDriver.Sdioh.CheckAndDoTuning` | kernel-extra/drivers/net/wireless/rockchip_wlan/rkwifi/bcmdhd/bcmsdstd.c:2801-2837 | the check before and behind the data follows the requester's steps, whatever handlers run in between |
| `SdioDriver.Sdioh.RequestByte` | kernel-extra/drivers/net/wireless/rockchip_wlan/rkwifi/bcmdhd/bcmsdstd.c:1121-1192 | a whole byte request is a run of the state machine from its beginning to its end, its command having the given outcome, with any handlers between any two steps; its status and the free lock at its end |
| `SdioDriver.Sdioh.RequestData` | kernel-extra/drivers/net/wireless/rockchip_wlan/rkwifi/bcmdhd/bcmsdstd.c:1194-1221 | the same for a word request, and for the frame of a buffer request |
| `PacketChain.RequestPacketChain` | kernel-extra/drivers/net/wireless/rockchip_wlan/rkwifi/bcmdhd/bcmsdh_sdmmc.c:1280-1383 | ends for every chain; what is handed over is always a beginning of the packets' bytes in order, all of them on success, and its entries leave no packet out; no request exceeds the host's limits of bytes and blocks, 511 blocks or 64 entries, and every one but the last has reached one of the first three; every request is right; success, alignment error, bus error and a full list are told apart by conditions on the chain and the host's limits; the last request has no blocks if and only if the last packet is empty and the bytes are a multiple of the largest command |
| `PacketChain.LimitsMet` | kernel-extra/drivers/net/wireless/rockchip_wlan/rkwifi/bcmdhd/bcmsdh_sdmmc.c:1281-1282 | no command exceeds the limits of the host, and one that is full has reached one of them exactly |
| `PacketChain.AlignedMeans` | kernel-extra/drivers/net/wireless/rockchip_wlan/rkwifi/bcmdhd/bcmsdh_sdmmc.c:1344-1348 | when every command is a whole number of blocks, told by the length of the chain and the limits of the host |
| `PacketChain.CrowdedMeans` | kernel-extra/drivers/net/wireless/rockchip_wlan/rkwifi/bcmdhd/bcmsdh_sdmmc.c:1311-1321 | the list is never too short unless packets and full segments of one command outnumber its 64 entries |
| `PacketChain.InOrderMore` | kernel-extra/drivers/net/wireless/rockchip_wlan/rkwifi/bcmdhd/bcmsdh_sdmmc.c:1322-1341 | entries that run through the packets without leaving one out still do so when more are put behind them |
| `PacketChain.EmptyCommands` | kernel-extra/drivers/net/wireless/rockchip_wlan/rkwifi/bcmdhd/bcmsdh_sdmmc.c:1348-1352 | two chains whose last command has no blocks: one empty packet, and an empty one behind a packet that fills its command |
| `PacketChain.CrowdedWindows` | kernel-extra/drivers/net/wireless/rockchip_wlan/rkwifi/bcmdhd/bcmsdh_sdmmc.c:1304-1321 | the list is too short for some command if and only if some stretch of max_req_size bytes of the stream needs more than 64 entries, counted packet by packet |
| `PacketChain.TooManyPackets` | kernel-extra/drivers/net/wireless/rockchip_wlan/rkwifi/bcmdhd/bcmsdh_sdmmc.c:1304-1324 | a chain of 65 packets of one byte for which the list is too short |
| `PacketChain.Plan` | kernel-extra/drivers/net/wireless/rockchip_wlan/rkwifi/bcmdhd/bcmsdh_sdmmc.c:1291-1371 | one round of the outer loop: one list and one command, or the exact error |
| `PacketChain.Fill` | kernel-extra/drivers/net/wireless/rockchip_wlan/rkwifi/bcmdhd/bcmsdh_sdmmc.c:1304-1342 | one list: its entries are the next bytes of the stream, each at most the segment limit, together as many as the command may carry or as are left; the list is too short exactly when the chain is crowded here; they run through the packets without a gap, and none but the last is cut shorter than it must be |
| `PacketChain.RequestReadBack` | kernel-extra/drivers/net/wireless/rockchip_wlan/rkwifi/bcmdhd/bcmsdh_sdmmc.c:1344-1361 | the controller reads back the same direction, function, address modulo 2^17 and block count; the count times the block size is the length of the data, from 1 to 511 blocks when no packet is empty, and zero exactly when nothing was left to send |
| `PacketChain.ArgumentFields` | kernel-extra/drivers/net/wireless/rockchip_wlan/rkwifi/bcmdhd/bcmsdh_sdmmc.c:1355-1361 | no field of the CMD53 argument runs into another, and a count of at most 511 loses nothing (section 5.3 of the SDIO Simplified Specification) |
| `PacketChain.RequestFits` | kernel-extra/drivers/net/wireless/rockchip_wlan/rkwifi/bcmdhd/bcmsdh_sdmmc.c:1281-1282 | a command of at most max_req_size bytes has at most 511 blocks |
| `PacketChain.OverfullIsLong` | kernel-extra/drivers/net/wireless/rockchip_wlan/rkwifi/bcmdhd/bcmsdh_sdmmc.c:1304-1342 | the list can only be too short if the packets and the full segments of one command outnumber it together |
| `PacketChain.NotCrowded` | kernel-extra/drivers/net/wireless/rockchip_wlan/rkwifi/bcmdhd/bcmsdh_sdmmc.c:1311-1321 | a sufficient size of the chain for the list never to be too short |
| `PacketChain.BytesAhead` | kernel-extra/drivers/net/wireless/rockchip_wlan/rkwifi/bcmdhd/bcmsdh_sdmmc.c:1304-1342 | without empty packets a further command always carries at least one byte |
| `Xtlv.SizeForData` | kernel-extra/drivers/net/wireless/rockchip_wlan/rkwifi/bcmdhd/bcmxtlv.c:60-68 | header and data, exactly, or with the padding to the next multiple of four when asked for |
| `Xtlv.HeaderReadBack` | kernel-extra/drivers/net/wireless/rockchip_wlan/rkwifi/bcmdhd/bcmxtlv.c:81-116 | what id and length read back as, cut to a byte where the option says so; the low byte of both comes first |
| `Xtlv.PackXtlv` | kernel-extra/drivers/net/wireless/rockchip_wlan/rkwifi/bcmdhd/bcmxtlv.c:209-253 | header and data are in place and every other byte is unchanged, for each of the four header layouts; without data only the header is written, and the bytes behind it are the record |
| `Xtlv.RecordReadBack` | kernel-extra/drivers/net/wireless/rockchip_wlan/rkwifi/bcmdhd/bcmxtlv.c:52-116 | a record that fits is valid and reads back |
| `Xtlv.RoundTrip` | kernel-extra/drivers/net/wireless/rockchip_wlan/rkwifi/bcmdhd/bcmxtlv.c:423-458 | for every list of records that fit and all options, unpacking what was packed gives back the list |
| `Xtlv.ExactRoundTrip` | kernel-extra/drivers/net/wireless/rockchip_wlan/rkwifi/bcmdhd/bcmxtlv.c:423-458 | in a buffer of exactly their size nothing follows |
| `Xtlv.Buf.constructor` | kernel-extra/drivers/net/wireless/rockchip_wlan/rkwifi/bcmdhd/bcmxtlv.c:159-170 | an empty buffer |
| `Xtlv.Buf.Init` | kernel-extra/drivers/net/wireless/rockchip_wlan/rkwifi/bcmdhd/bcmxtlv.c:159-170 | bad argument exactly for a missing or empty buffer, otherwise an empty table over it |
| `Xtlv.Buf.PutData` | kernel-extra/drivers/net/wireless/rockchip_wlan/rkwifi/bcmdhd/bcmxtlv.c:268-285 | appends the record when it fits, its id cut to what the field holds, and otherwise changes nothing; without data it reserves the space; bytes before and behind stay |
| `Xtlv.PackFromMem` | kernel-extra/drivers/net/wireless/rockchip_wlan/rkwifi/bcmdhd/bcmxtlv.c:509-528 | packs the entries with data up to the end of the table, ids cut to what the field holds, or as many as fit, and touches nothing else |
| `Xtlv.SelectedMore` | kernel-extra/drivers/net/wireless/rockchip_wlan/rkwifi/bcmdhd/bcmxtlv.c:509-528 | an entry gives a record exactly when it has data and a pointer and no end of the table is before it, with the low byte of its id if the field has room for that only |
| `Xtlv.UnpackBuf` | kernel-extra/drivers/net/wireless/rockchip_wlan/rkwifi/bcmdhd/bcmxtlv.c:423-458 | on any bytes stays inside the buffer, ends, and hands over the records in order up to the first one refused |
| `Xtlv.NextXtlv` | kernel-extra/drivers/net/wireless/rockchip_wlan/rkwifi/bcmdhd/bcmxtlv.c:118-157 | the next record, if both it and the current one fit |
| `Xtlv.GetData` | kernel-extra/drivers/net/wireless/rockchip_wlan/rkwifi/bcmdhd/bcmxtlv.c:579-622 | the data of the first record with the id, inside the buffer; none exactly when no record has it |
| `Xtlv.LookupOfPacked` | kernel-extra/drivers/net/wireless/rockchip_wlan/rkwifi/bcmdhd/bcmxtlv.c:579-622 | lookup in packed bytes is lookup in the list |
| `Xtlv.StoreRecord` | kernel-extra/drivers/net/wireless/rockchip_wlan/rkwifi/bcmdhd/bcmxtlv.c:548-566 | one record goes to the first entry of its id, if the length is the one expected |
| `Xtlv.StoredFirst` | kernel-extra/drivers/net/wireless/rockchip_wlan/rkwifi/bcmdhd/bcmxtlv.c:548-566 | the first entry of the id before the end of the table takes the data of the expected length and refuses any other; without such an entry nothing happens |
| `Xtlv.LeftoverIs` | kernel-extra/drivers/net/wireless/rockchip_wlan/rkwifi/bcmdhd/bcmxtlv.c:568-571 | what is left over is what the records do not take |
| `Xtlv.UnpackBufToMem` | kernel-extra/drivers/net/wireless/rockchip_wlan/rkwifi/bcmdhd/bcmxtlv.c:534-572 | records are stored up to the first of a wrong length; each result code exactly when it is due |
| `Xtlv.MemRoundTrip` | kernel-extra/drivers/net/wireless/rockchip_wlan/rkwifi/bcmdhd/bcmxtlv.c:505-572 | packing a table with distinct ids and unpacking into one of the same shape restores every packed entry, changes no other, and leaves no byte over, if no packed id is cut by its field |
| `Xtlv.MemRoundTripExactly` | kernel-extra/drivers/net/wireless/rockchip_wlan/rkwifi/bcmdhd/bcmxtlv.c:505-572 | into entries that do not hold the data yet, everything is restored if and only if no packed id is cut by its field |
| `Xtlv.CutIdLost` | kernel-extra/drivers/net/wireless/rockchip_wlan/rkwifi/bcmdhd/bcmxtlv.c:227-233 | in any table, an entry whose id is cut by its field is never restored |
| `Xtlv.CutIdGoes` | kernel-extra/drivers/net/wireless/rockchip_wlan/rkwifi/bcmdhd/bcmxtlv.c:534-566 | the record with the cut id goes to the entry that has this id, or stops the unpacking if that one has another length |
| `Xtlv.TwoIdsMixedUp` | kernel-extra/drivers/net/wireless/rockchip_wlan/rkwifi/bcmdhd/bcmxtlv.c:505-572 | a table with the ids 0x05 and 0x105, packed and unpacked: the data of the second is in the entry of the first |
| `Radiotap.Parser.constructor` | kernel-extra/drivers/net/wireless/rockchip_wlan/rkwifi/bcmdhd/bcmwifi_radiotap.c:236-264 | the field area begins behind the presence words; it ends with the header if and only if the length field covers the fixed part, and 2^32 bytes later below that, where the remaining length wraps; no word outside the readable bytes is read |
| `Radiotap.WrappedLength` | kernel-extra/drivers/net/wireless/rockchip_wlan/rkwifi/bcmdhd/bcmwifi_radiotap.c:249-264 | a header with the length field 4, whose field area has nearly 2^32 bytes |
| `Radiotap.EndsSmall` | kernel-extra/drivers/net/wireless/rockchip_wlan/rkwifi/bcmdhd/bcmwifi_radiotap.c:118-137 | in an area of any size, wrapped lengths included, the fields before number i end within 20 i bytes, so the 32-bit cursor never overflows |
| `Radiotap.Parser.FindField` | kernel-extra/drivers/net/wireless/rockchip_wlan/rkwifi/bcmdhd/bcmwifi_radiotap.c:89-146 | wherever earlier searches left the cursor, the answer is that of a search from the start |
| `Radiotap.FoundInside` | kernel-extra/drivers/net/wireless/rockchip_wlan/rkwifi/bcmdhd/bcmwifi_radiotap.c:118-134 | a field found is aligned and lies inside the field area |
| `Radiotap.FoundApart` | kernel-extra/drivers/net/wireless/rockchip_wlan/rkwifi/bcmdhd/bcmwifi_radiotap.c:118-137 | fields found do not overlap and come in the order of their numbers |
| `Radiotap.FoundUnlessBlocked` | kernel-extra/drivers/net/wireless/rockchip_wlan/rkwifi/bcmdhd/bcmwifi_radiotap.c:108-143 | a present field is missed if and only if an unknown or oversized one is in the way |
| `Radiotap.PlacedBehind` | kernel-extra/drivers/net/wireless/rockchip_wlan/rkwifi/bcmdhd/bcmwifi_radiotap.c:118-137 | a present field is at the first multiple of its alignment not before the end of the present field before it, or at the start if there is none, exactly when it is known and ends inside the area there |
| `Radiotap.OnlyBehindFound` | kernel-extra/drivers/net/wireless/rockchip_wlan/rkwifi/bcmdhd/bcmwifi_radiotap.c:99-131 | only a field that is present, of the first presence word, and with every present field before it found, is found |
| `Radiotap.AllPresent` | kernel-extra/drivers/net/wireless/rockchip_wlan/rkwifi/bcmdhd/bcmwifi_radiotap.c:32-65 | the places of all known fields when all of them are present |
| `Radiotap.RateBehindFlags` | kernel-extra/drivers/net/wireless/rockchip_wlan/rkwifi/bcmdhd/bcmwifi_radiotap.c:118-137 | a header of ten bytes whose rate is found at byte 9 |
| `Radiotap.AlignedInHeader` | kernel-extra/drivers/net/wireless/rockchip_wlan/rkwifi/bcmdhd/bcmwifi_radiotap.c:118-134 | counted from the start of the header a field is aligned too, if and only if it does not need eight bytes or the number of additional presence words is even |
| `Radiotap.MisalignedTimestamp` | kernel-extra/drivers/net/wireless/rockchip_wlan/rkwifi/bcmdhd/bcmwifi_radiotap.c:118-134 | a header with one additional presence word whose timestamp, which needs eight bytes of alignment, is found at byte 12 |
| `Radiotap.RoundUpLeast` | kernel-extra/drivers/net/wireless/rockchip_wlan/rkwifi/bcmdhd/bcmwifi_radiotap.c:121-122 | rounding up gives the least multiple not below the offset |

## Left out

- Tlv.FindIe: OUI and type are values, so a null OUI pointer is not modelled.
- Xtlv.PackXtlv: a length that does not fit its one-byte field is excluded, as the assertion in the code excludes it; likewise in PutData and PackFromMem.
- Mwbmap.Allocator.Force: requires a free id, as the assertion in the code does, likewise Free an id in use; the bound of an id by the total is not asserted there, as with 64K ids no id meets it (`Mwbmap.Allocator.TotalWraps`).
- SdioDriver.Sdioh.StartTuning: does not model the re-enabling of the re-tuning interrupt in the controller's registers, which leaves intmask as it is, nor the re-arming of the timer (bcmsdstd_linux.c:276-285).
- SdioDriver.Sdioh.RequestByte: takes a free lock; the wait for the lock is the state `Waiting` of the state machine.
- SdioDriver.Sdioh.RequestData: the transfer loop of a buffer request is one step; its chunking, with a buffer that is not copied back for odd lengths (bcmsdstd.c:1336-1366), is not modelled.
- SdioRuns.RunSafety: the bring-up path that tunes without the lock (bcmsdstd.c:2786-2795), the settings that write the interrupt mask directly (bcmsdstd.c:732-738) and those that change the clock mode are not steps of the machine. Each handler is one step.
- SeqLog.SeqLog.LogSeq: one module id; the uncompressed format only stores numbers and is left out.
- ObjTrace.Trace.Add: caller, line, flag and packet serial number of an entry are not modelled; the build does not merge entries of the same object.
- Arithmetic on sizes in the packet planner and the XTLV code is on unbounded numbers; the products and sums involved stay far below 2^32 for the block sizes and buffer lengths of the devices.
- Registers, delays, registration with the kernel's interrupt layer, DMA, the MMC core and printing: a bus command is an outcome given from outside.
- The copy mode of the packet chain, which adds up lengths and makes one transfer.
- `replace_nvram_variable`: it steps over the record behind the one it removed (bcmutils.c:6018-6025), and there is no reader besides the one modelled.
- XTLV with big-endian ids or lengths: the packer always writes little-endian.
- CRC-32: the same construction as CRC-16 with a longer table.
- `bcm_strtoull`, channel and chanspec arithmetic, the Bloom filter, the id stack, the power tables and the configuration files: easy next to the above, or settled by enumeration.
