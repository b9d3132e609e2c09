# Verification of the client firmware

The client firmware runs on an AVR with an ENC28J60 network chip. This project models its library code
and proves what the library promises:

- the **stash**, a byte store of linked 64-byte pages in the chip's spare RAM, accessed through a
  write-back slot and a read slot, with a page bitmap and a lazily expanded format record on page 0;
- the **packet code**: checksums, in-place replies, TCP sequence arithmetic, the single-connection TCP
  client, the gateway's address resolution, and `packetLoop` over both;
- the **DHCP client**: its messages, its option walks, its timed state machine;
- the **EEPROM record** of the house state with its CRC;
- the **DNS client** and the **URL codec**.

Code that changes things in place is modelled by classes and array methods. Each method is tied by its
`ensures` to a function of the old contents, and the properties are lemmas about those functions and about
whole runs of them.

| files | subject |
|---|---|
| `StashStore`, `StashObjects` | the stash operations as functions, and in place on arrays |
| `StashWorld`, `StashReads`, `StashPages`, `StashRuns` | the invariant over all stashes, reading, page accounting, runs |
| `StashText`, `StashFormat`, `StashCleanup`, `StashPieces`, `StashLimits` | format records and what their letters mean; where callers must take care |
| `Checksum`, `Packet`, `TcpSegment`, `HttpReply`, `Udp` | checksums and frames |
| `Gateway`, `TcpClient`, `TcpServer`, `PacketLoop`, `Sessions` | the machines inside the packet loop, the loop, and exchanges between two hosts |
| `DhcpOptions`, `DhcpClient`, `DhcpTiming`, `DhcpMachine` | DHCP |
| `Dns`, `DnsClient`, `Url`, `Eeprom`, `EepromStore` | the other codecs and records |
| `Bytes`, `Slices` | integer widths, byte strings in memory |

Every buffer stands for RAM from the buffer's first byte on. Where the code reads or writes past the end of
a frame, the array must reach that far; no frame shorter than the code accepts is excluded.

## What the proofs brought to light

- **Slot 1 of the stash keeps an old copy** of a page exactly when a byte is put while both slots hold that
  page (`PutKeeps`), as they do after `create`, and after an `open` or `get` that copies the page in slot 0.
  `save` takes only the first page out of slot 1 (`SaveKeeps`). An old copy of a later page survives it: after
  create, 60 puts, save, put, 61 gets, put, save the stash is saved, but `size()` does not count its last byte
  and `get` on that object does not return it (`SaveLeavesOldCopy`). `size()` is right exactly unless slot 0 has
  left the last page and slot 1 holds an old copy of it (`SizeIsLength`). Reading a page, saved or not, leads to
  its end exactly if slot 1 holds no old copy of it (`PageReadIff`). An object newly opened for a saved stash is
  safe after every run at all, because `open` takes slot 1 to the first page: it reads back everything put and
  its `size()` is right, also when other calls short of writing to the stash or releasing it go on in between
  (`RunReadsBack`, `InterleavedReads`).
- **`create` trusts both slots.** If a page was released while both slots held it, `create` can return a
  handle with an old header (`CreateNeedsCleanSlots`); create, 60 puts, save, open, release, create gets
  there from the start (`CreateTakesOldHeader`). `release` follows links on the chip, so an unflushed link
  breaks it (`ReleaseNeedsFlush`, `ReleaseUnflushed`); `load(0, 0)` flushes, and `cleanup` begins with it.
- **`extract`** adds offset and count in 16 bits and yields nothing when the sum wraps.
- **The echo reply** drops a second carry: a request that verifies gets a reply that does not exactly when
  the checksum's high byte is above 0xF7 and its low byte is 0xFF (`EchoReplyVerifiesIff`; `EchoCarryLost` has
  such a request).
- **`step_seq`** loses 2^16 exactly when `rel` plus the lowest sequence byte exceeds 16 bits, which cannot
  happen up to 0xFF00 (`SteppedIff`).
- **An ARP request is answered inside the buffer** before the sender is read back from it, so a gateway with
  our own address would be "found" at our own MAC (`OwnAnswerTakenIff`). All other runs in which the gateway
  address changes only through `setGwIp` are safe, also when our address changes on the way. (A DHCP offer's
  router option writes the gateway address before `setGwIp` is called for it; until then the old gateway's MAC
  is used for the new address, and those runs are not covered.)
- **A DHCP frame** of 70 bytes is read from byte 282 on, beyond its end (`FirstOptionFound`). A client waits out
  10000 ms from the last message it sent, whatever arrives (`SentThenWaits`).
- **The DHCP table** in the comments of `dhcp.cpp` calls the renewal unicast. Its IP destination is the
  server, but the frame always goes to the broadcast MAC; the model follows the code. An offer without option
  54 leaves the server of an earlier offer in place (`ServerOfOffer`).
- **A pad byte** in a DHCP message is taken for an option with a length; the types before it are found, those
  behind it exactly if the walk meets them from where it lands (`PadIff`). A lease end that wraps 32 bits
  renews at the wrapped time.
- **An interrupted EEPROM save** can leave a mixture that still checks: three changed bytes suffice
  (`MixtureExample`). One byte or two adjacent ones never do, and the exact condition is `TornSafeIff`.
- **The DNS walk** compares the low bytes of type and data length only, ignores sections, steps too
  far over a bare root name, and skips labels that end in a pointer exactly if the pointer's low byte is zero
  (`TakesFirstAIff`, `BareRootIff`, `MixedNameIff`).
- **The TCP client** never sends a SYN again by itself: once it is out, only an answer of the peer changes
  anything (`NothingHappens`, `NextState`). Data of 32768 bytes or more count as none (`DataLengthIs`). Data are
  handed over unshifted exactly when they lie inside the frame and start at least eight bytes before its end
  (`DataInside`).
- **`urlDecode`** runs past the terminator exactly when an escape is cut short (`StopsAtTerminatorIff`).

## Model

| member | source | states |
|---|---|---|
| StashObjects.StashMemory.CopyOut | client_firmware/libraries/ethercard/enc28j60.cpp:464-470 | the page is replaced in chip memory, all other pages stay; pages past the scratch area are ignored |
| StashObjects.StashMemory.CopyIn | client_firmware/libraries/ethercard/enc28j60.cpp:472-478 | the buffer becomes the page, or stays when the page is out of range |
| StashObjects.StashMemory.PeekIn | client_firmware/libraries/ethercard/enc28j60.cpp:480-488 | one byte of chip memory at page and offset, 0 past the scratch area |
| StashStore.LowestFree | client_firmware/libraries/ethercard/EtherCard.cpp:21-30 | the page handed out is free and no lower page is; 0 only when none is |
| StashObjects.StashMemory.AllocBlock | client_firmware/libraries/ethercard/EtherCard.cpp:21-30 | takes exactly the lowest free page out of the bitmap |
| StashObjects.StashMemory.FreeBlock | client_firmware/libraries/ethercard/EtherCard.cpp:32-34 | sets one bit of the bitmap and changes nothing else |
| StashObjects.StashMemory.FetchByte | client_firmware/libraries/ethercard/EtherCard.cpp:36-40 | slot 0, then slot 1, then the chip |
| StashStore.FetchByteReadsLogical | client_firmware/libraries/ethercard/EtherCard.cpp:36-40 | the byte read is that of logical memory exactly unless slot 1 holds a stale copy of it |
| StashObjects.StashMemory.InitMap | client_firmware/libraries/ethercard/EtherCard.cpp:42-45 | frees pages 1 to last - 1, and 1 to 255 for last 0; from a cleared map `initMap(56)` frees 1 to 55 |
| StashObjects.StashMemory.Load | client_firmware/libraries/ethercard/EtherCard.cpp:47-61 | both slots with write-back, forgetting slot 1, and the copy from slot 0 |
| StashStore.Load0KeepsPages | client_firmware/libraries/ethercard/EtherCard.cpp:47-61 | moving slot 0 changes no logical page and keeps slot 1 fresh |
| StashStore.Load1KeepsPages | client_firmware/libraries/ethercard/EtherCard.cpp:47-61 | moving slot 1 changes no logical page and gives the page's current contents |
| StashObjects.StashMemory.FreeCount | client_firmware/libraries/ethercard/EtherCard.cpp:63-70 | the number of free pages, in one byte |
| StashObjects.Stash.Create | client_firmware/libraries/ethercard/EtherCard.cpp:72-80 | in place, the whole new store and handle |
| StashWorld.CreateKeeps | client_firmware/libraries/ethercard/EtherCard.cpp:72-80 | from any state of the invariant with a free page: an empty saved stash on a page that was free, invariant kept, no other page touched |
| StashObjects.Stash.Open | client_firmware/libraries/ethercard/EtherCard.cpp:82-88 | in place, the whole new store and handle |
| StashWorld.OpenKeeps | client_firmware/libraries/ethercard/EtherCard.cpp:82-88 | on a saved stash, whatever slot 1 held: the object knows count, first and last page and stands at the first byte, and slot 1 holds the first page as it is |
| StashObjects.Stash.Save | client_firmware/libraries/ethercard/EtherCard.cpp:90-95 | in place, the whole new store |
| StashWorld.SaveKeeps | client_firmware/libraries/ethercard/EtherCard.cpp:90-95 | the stash becomes readable, data and other pages unchanged; afterwards slot 1 holds no old copy of it exactly if it held the first page or no old copy before |
| StashObjects.Stash.Release | client_firmware/libraries/ethercard/EtherCard.cpp:97-102 | follows the links on the chip and frees exactly the pages of the chain |
| StashWorld.ReleaseKeeps | client_firmware/libraries/ethercard/EtherCard.cpp:97-102 | freeing a whole flushed chain keeps the invariant for all other stashes |
| StashObjects.Stash.Put | client_firmware/libraries/ethercard/EtherCard.cpp:104-117 | in place, the whole new store and handle |
| StashWorld.PutKeeps | client_firmware/libraries/ethercard/EtherCard.cpp:104-117 | appends exactly one byte; when it fills the page it goes to offset 62 and the lowest free page is linked; every page outside the stash is unchanged; slot 1 is left with an old copy exactly if both slots held the last page, or it held an old copy of another page |
| StashObjects.Stash.Get | client_firmware/libraries/ethercard/EtherCard.cpp:119-129 | in place, the whole new store, handle and byte |
| StashWorld.GetKeeps | client_firmware/libraries/ethercard/EtherCard.cpp:119-129 | one get on a stash saved or not: invariant kept, and the next byte, or NUL at the end; with an old copy in slot 1 the byte is right below the copy's fill level, from there NUL on the last page, else slot 1's bytes and then page 0 |
| StashReads.GetSafe | client_firmware/libraries/ethercard/EtherCard.cpp:119-129 | a get through any object that knows the last page, wherever it stands, reads inside its page and keeps the invariant |
| StashReads.PageReadIff | client_firmware/libraries/ethercard/EtherCard.cpp:119-129 | reading to the end of a page returns its bytes and leads to the next page exactly if slot 1 held no old copy of it, or nothing was left |
| StashObjects.Stash.Size | client_firmware/libraries/ethercard/EtherCard.cpp:131-133 | the formula over count and the last page's fill level, in 16 bits |
| StashWorld.SizeIsLength | client_firmware/libraries/ethercard/EtherCard.cpp:131-133 | equals the number of bytes put exactly unless slot 0 has left the last page and slot 1 holds an old copy of it |
| StashWorld.AtMost55Pages | client_firmware/libraries/ethercard/EtherCard.h:61-65 | a chain has at most 55 pages, so the one-byte page count never wraps |
| StashWorld.BootInv | client_firmware/libraries/ethercard/EtherCard.cpp:42-45 | the invariant holds after `initMap(56)` whatever the chip holds |
| StashRuns.StepKeeps | client_firmware/libraries/ethercard/EtherCard.cpp:72-133 | every operation through any object, a get on a stash not yet saved included, keeps the invariant, the data of every other stash and the fact that slot 1 holds no old copy of it |
| StashRuns.RunTheorem | client_firmware/libraries/ethercard/EtherCard.cpp:72-133 | after any interleaving of calls through any number of objects, a stash in use holds exactly the bytes put to it, in order |
| StashReads.GetManyReads | client_firmware/libraries/ethercard/EtherCard.cpp:119-129 | from a page of which slot 1 holds no old copy, n gets return the rest of the data, then NULs |
| StashRuns.HandleKept | client_firmware/libraries/ethercard/EtherCard.cpp:104-117 | the header cached in an object stays current exactly unless a put through another object links a new page |
| StashRuns.InterleavedReads | client_firmware/libraries/ethercard/EtherCard.cpp:119-133 | an object kept open gets the data in order, then NULs, and `size` stays right, whatever other calls go on in between short of writing to or releasing its stash |
| StashRuns.RunReadsBack | client_firmware/libraries/ethercard/EtherCard.cpp:72-133 | after any run at all a saved stash reads back all bytes put to it through an object newly opened for it, other calls between the reads included, and `size` is their number |
| StashRuns.PutsEnabled | client_firmware/libraries/ethercard/EtherCard.cpp:104-117 | a series of puts goes through exactly when the free pages cover it |
| StashRuns.RoundTrip | client_firmware/libraries/ethercard/EtherCard.cpp:72-133 | create, puts, save succeeds exactly with one free page per 63 bytes of header and data plus one; then `size` is right and the stash opens and reads back as the same bytes, then NULs |
| StashPages.PagesConserved | client_firmware/libraries/ethercard/EtherCard.cpp:63-70 | free pages plus chain pages are always 55; page 0 is never free nor owned |
| StashRuns.RunConservesPages | client_firmware/libraries/ethercard/EtherCard.cpp:21-45 | the same in every run from the start, with chains disjoint from each other and from the bitmap |
| StashPages.FreeCountPositive | client_firmware/libraries/ethercard/EtherCard.cpp:63-70 | the count is positive exactly when an allocation can succeed |
| StashLimits.CreateNeedsCleanSlots | client_firmware/libraries/ethercard/EtherCard.cpp:72-86 | when `create` returns a handle on its new page: exactly unless both slots held that page with another header |
| StashLimits.CreateTakesOldHeader | client_firmware/libraries/ethercard/EtherCard.cpp:72-102 | from the start: create, 60 puts, save, open, a release that frees just the two pages, and the next `create` returns the old header |
| StashLimits.ReadBeforeSave | client_firmware/libraries/ethercard/EtherCard.cpp:119-121 | a case for `GetKeeps`: right after create, a byte put cannot be read |
| StashLimits.SaveLeavesOldCopy | client_firmware/libraries/ethercard/EtherCard.cpp:90-133 | from the start: create, 60 puts, save, put, 61 gets, put, save leaves an old copy of the last page; size is 61 of 62 and get returns NUL |
| StashLimits.OldCopySaved | client_firmware/libraries/ethercard/EtherCard.cpp:90-133 | the same from any state in which an object has read all that was put on several pages |
| StashLimits.ReleaseNeedsFlush | client_firmware/libraries/ethercard/EtherCard.cpp:97-102 | the links on the chip are the chain's exactly when slot 0 holds no page of it with a changed link |
| StashLimits.ReleaseUnflushed | client_firmware/libraries/ethercard/EtherCard.cpp:97-102 | from the start: a stash just created has its link on the chip exactly if the chip held a 0 there |
| StashLimits.SizeBeforeSave | client_firmware/libraries/ethercard/EtherCard.cpp:131-133 | a case for `SizeIsLength`: after one put to a new stash and a flush, size is still 0 |
| StashLimits.SavedAndOpened | client_firmware/libraries/ethercard/EtherCard.cpp:82-95 | saving and opening leaves the first page in both slots and all links on the chip |
| StashFormat.Wtoa | client_firmware/libraries/ethercard/EtherCard.cpp:135-141 | writes the decimal digits and a terminator, nothing before them |
| StashText.DecimalParses | client_firmware/libraries/ethercard/EtherCard.cpp:135-141 | the digits read back as the number and have no leading zero |
| StashFormat.Prepare | client_firmware/libraries/ethercard/EtherCard.cpp:143-187 | page 0 holds length, format and arguments from which the expanded text is determined; no stash page changes |
| StashFormat.ArgLength | client_firmware/libraries/ethercard/EtherCard.cpp:155-181 | the counted length of each kind of argument |
| StashFormat.TakeArg | client_firmware/libraries/ethercard/EtherCard.cpp:154-184 | one argument measured, stored and counted |
| StashText.DeclaredIsLength | client_firmware/libraries/ethercard/EtherCard.cpp:143-187 | the length counted is at least that of the expansion, and equal exactly when no stash in it holds a NUL |
| StashFormat.LengthExactIff | client_firmware/libraries/ethercard/EtherCard.cpp:189-192 | the length on record is that of the text that `extract` writes, under the same condition |
| StashFormat.Length | client_firmware/libraries/ethercard/EtherCard.cpp:189-192 | the first word of the record, wherever page 0 is cached |
| StashFormat.Extract | client_firmware/libraries/ethercard/EtherCard.cpp:194-250 | terminates and writes exactly the requested slice of the expanded text, nothing behind it; no stash page changes |
| StashFormat.Advance | client_firmware/libraries/ethercard/EtherCard.cpp:200-249 | one round: the next byte of the text, or a step closer to one |
| StashFormat.NextByte | client_firmware/libraries/ethercard/EtherCard.cpp:228-241 | the next byte of a segment, or NUL at its end |
| StashFormat.ExtractAll | client_firmware/libraries/ethercard/EtherCard.cpp:194-250 | calls of `extract` one after the other with buffers of any sizes write the text as far as they go, all of it once they cover `length` |
| StashCleanup.Cleanup | client_firmware/libraries/ethercard/EtherCard.cpp:252-268 | releases exactly the stashes named in the record; the invariant holds for the rest |
| StashCleanup.ReleaseAll | client_firmware/libraries/ethercard/EtherCard.cpp:252-268 | releasing any list of saved stashes, even one named twice, keeps the invariant |
| StashCleanup.ReleaseArg | client_firmware/libraries/ethercard/EtherCard.cpp:262-265 | one named stash is opened and released, whatever was released before it |
| StashPieces.LetterMeaning | client_firmware/libraries/ethercard/EtherCard.cpp:155-181 | after a 36, 68 gives the digits of the argument, 83 the string in RAM, 70 in flash, 69 in EEPROM, 72 the bytes of the stash up to a NUL and any other letter nothing; the count is the length, for a stash that of all its bytes |
| StashPieces.FormatMeaning | client_firmware/libraries/ethercard/EtherCard.cpp:143-268 | for every list of pieces and its arguments: what the format expands to, the length counted, and the stashes named, which are the arguments after 36, 72 |
| StashPieces.FormatServed | client_firmware/libraries/ethercard/EtherCard.cpp:150-184 | each 36 takes one argument, and what is asked of it depends on the letter alone |
| StashPieces.EveryFormat | client_firmware/libraries/ethercard/EtherCard.cpp:150-154 | every format in which no 36 stands last is one of these |
| StashPieces.OneReading | client_firmware/libraries/ethercard/EtherCard.cpp:150-154 | and of exactly one list of pieces |
| StashPieces.WritePage | client_firmware/libraries/ethercard/EtherCard.cpp:143-268 | prepare, length, extract and cleanup in turn, for any pieces: the text is their meaning, the length their count, and exactly the stashes named are gone |
| StashPieces.WriteSample | client_firmware/libraries/ethercard/EtherCard.cpp:143-268 | the same for the format `a $S b $F c $D d $H e`, byte by byte |
| StashPieces.DecimalDigits | client_firmware/libraries/ethercard/EtherCard.cpp:135-141 | only digits are written |
| Checksum.FoldModulo | client_firmware/libraries/ethercard/tcpip.cpp:84-85 | folding keeps the value modulo 65535 and is zero only for zero |
| Checksum.SumFits | client_firmware/libraries/ethercard/tcpip.cpp:74-83 | the sum of up to 65535 bytes fits 32 bits |
| Checksum.FilledVerifies | client_firmware/libraries/ethercard/tcpip.cpp:72-88 | storing the complement in a zeroed field at an even offset makes pseudo-header plus region all ones, for any length |
| Checksum.PaddedSum | client_firmware/libraries/ethercard/tcpip.cpp:74-83 | an odd last byte counts as if a zero followed it, two bytes as one number with the high byte first |
| Checksum.PseudoExact | client_firmware/libraries/ethercard/tcpip.cpp:74-76 | the pseudo-header sum is protocol plus segment length exactly when the 16-bit arithmetic does not wrap |
| Packet.FillChecksum | client_firmware/libraries/ethercard/tcpip.cpp:72-88 | in place: the complement of the folded sum, big-endian, nothing else changed |
| Packet.RegionVerifies | client_firmware/libraries/ethercard/tcpip.cpp:72-88 | a region of the buffer verifies after `FillChecksum` on a zeroed field in it |
| Packet.SetMacAndIps | client_firmware/libraries/ethercard/tcpip.cpp:90-99 | the four addresses of a frame, nothing else changed |
| Packet.FillIpHdrChecksum | client_firmware/libraries/ethercard/tcpip.cpp:132-139 | the IP header verifies; addresses, lengths and payload unchanged |
| Packet.MakeEthIp | client_firmware/libraries/ethercard/tcpip.cpp:141-146 | the frame goes back to its sender from us, IP header verifying |
| Packet.MakeEchoReplyFromRequest | client_firmware/libraries/ethercard/tcpip.cpp:189-196 | the whole reply in place, and when its checksum verifies |
| Checksum.EchoReplyVerifiesIff | client_firmware/libraries/ethercard/tcpip.cpp:189-196 | for a request of any length that verifies, the reply verifies exactly unless high byte > 0xF7 and low byte 0xFF |
| Checksum.EchoCarryLost | client_firmware/libraries/ethercard/tcpip.cpp:189-196 | an eight-byte request that verifies and whose reply does not |
| TcpSegment.StepSeq | client_firmware/libraries/ethercard/tcpip.cpp:148-163 | byte by byte: acknowledgement from sequence number plus `rel`, sequence number from the old acknowledgement or 0 |
| TcpSegment.SteppedIff | client_firmware/libraries/ethercard/tcpip.cpp:148-163 | that is addition modulo 2^32 exactly when `rel` plus the lowest byte fits 16 bits, always up to 0xFF00 |
| TcpSegment.DataLengthIs | client_firmware/libraries/ethercard/tcpip.cpp:239-246 | the data length is the IP total length less 20 and the TCP header's length, and 0 if that is negative or from 32768 on; the data start behind the TCP header |
| TcpSegment.FlagBits | client_firmware/libraries/ethercard/tcpip.cpp:769-826 | which bit of the flag byte each test looks at |
| TcpSegment.BuiltLength | client_firmware/libraries/ethercard/tcpip.cpp:263-272 | a segment built with a plain header reads back with the length it was built for, up to 32767 |
| TcpSegment.AckIsEmpty | client_firmware/libraries/ethercard/tcpip.cpp:248-261 | a bare acknowledgement reads back as no data; its flags and window |
| TcpSegment.MakeTcphead | client_firmware/libraries/ethercard/tcpip.cpp:165-176 | ports swapped, numbers stepped, checksum zeroed, rest unchanged |
| TcpSegment.MakeTcpAckFromAny | client_firmware/libraries/ethercard/tcpip.cpp:248-261 | the frame acknowledges the received one: addresses and ports turned round, numbers, flags, both checksums |
| TcpSegment.MakeTcpAckWithDataNoflags | client_firmware/libraries/ethercard/tcpip.cpp:263-272 | lengths and both checksums for the data in place; with a plain header `get_tcp_data_len` gives that length back |
| HttpReply.HttpServer.HttpServerReplyAck | client_firmware/libraries/ethercard/tcpip.cpp:280-294 | acknowledges the length last seen, and the number kept for the reply is the one the peer expects |
| HttpReply.HttpServer.SetSeq | client_firmware/libraries/ethercard/tcpip.cpp:284-289 | the sequence number field holds that number, big-endian, nothing else changed |
| HttpReply.HttpServer.HttpServerReplyWithFlags | client_firmware/libraries/ethercard/tcpip.cpp:284-301 | sends the data from that number on and advances it by their length modulo 2^32 |
| HttpReply.HttpServer.Respond | client_firmware/libraries/ethercard/tcpip.cpp:291-301 | one acknowledgement of the length last seen, then over any list of replies segment k starts at the peer's number plus the lengths before it; all go to the same peer and ports |
| HttpReply.RequestCovered | client_firmware/libraries/ethercard/tcpip.cpp:148-163 | the acknowledgement counts the request's bytes exactly unless `step_seq` loses a carry |
| HttpReply.StreamContiguous | client_firmware/libraries/ethercard/tcpip.cpp:284-301 | each segment starts where the one before ended: no gap, no overlap |
| Udp.UdpPrepare | client_firmware/libraries/ethercard/tcpip.cpp:363-384 | next hop, addresses and ports; broadcast and multicast go to the broadcast MAC |
| Udp.NextHopIs | client_firmware/libraries/ethercard/tcpip.cpp:363-384 | whose MAC a datagram goes to: everybody's for 224.0.0.0 to 239.255.255.255 and 255.255.255.255, the peer's on the LAN, else the gateway's |
| Udp.UdpTransmit | client_firmware/libraries/ethercard/tcpip.cpp:386-394 | lengths set, both checksums verify, data untouched |
| Gateway.GatewaySolicited | client_firmware/libraries/ethercard/tcpip.cpp:697-742 | in every run, our address changing or not, in which no answer of our own comes from the gateway's address: a gateway MAC in use is the sender of a reply from the gateway, after a who-has, since the last `setGwIp`; has and waiting flags are never both set |
| Gateway.OwnAnswerTakenIff | client_firmware/libraries/ethercard/tcpip.cpp:728-734 | answering a request stores our own MAC as the gateway's exactly when the gateway has our address |
| Gateway.AsksExactly | client_firmware/libraries/ethercard/tcpip.cpp:697-704 | after `setGwIp` and until it has answered the gateway is asked for in the first round with the link up and then in exactly every 65536th, never otherwise |
| Gateway.GatewayLearnt | client_firmware/libraries/ethercard/tcpip.cpp:697-734 | once asked for, the gateway's first answer gives its MAC, whatever went on in between |
| Gateway.AwaitsAnswer | client_firmware/libraries/ethercard/tcpip.cpp:699-734 | from the first round on an answer is accepted until one has come |
| Gateway.LearnsIff | client_firmware/libraries/ethercard/tcpip.cpp:728-741 | what an ARP frame teaches about gateway, name server and peer, exactly |
| Gateway.PeerLearnt | client_firmware/libraries/ethercard/tcpip.cpp:712-741 | a LAN peer is asked for in the next round and its answer gives its MAC |
| Gateway.NotAskedAgain | client_firmware/libraries/ethercard/tcpip.cpp:712-720 | a peer asked for or known is not asked for again |
| Gateway.LanIff | client_firmware/libraries/ethercard/tcpip.cpp:105-115 | an address is on the LAN exactly if neither begins with 0 and they differ in no bit under the mask |
| TcpClient.RequestServedOnce | client_firmware/libraries/ethercard/tcpip.cpp:764-835 | for all packet and idle sequences after one request the fill callback runs at most once, data is delivered at most once and only after it |
| TcpClient.RequestAnswered | client_firmware/libraries/ethercard/tcpip.cpp:705-820 | a request sent, accepted and answered: SYN, acknowledgement, fill callback, data segment, result with status 0 at the data's place, acknowledgement with FIN, whatever other peers send and however many rounds pass in between |
| TcpClient.NeverRetried | client_firmware/libraries/ethercard/tcpip.cpp:764-835 | states 3, 5 and 6 never lead back to 1 or 2 |
| TcpClient.FdEchoed | client_firmware/libraries/ethercard/tcpip.cpp:704-710 | the fd in the top bits of the source port comes back from the echoed port |
| TcpClient.CallbacksGetFd | client_firmware/libraries/ethercard/tcpip.cpp:764-815 | if peers echo the port, every callback gets the fd that `clientTcpReq` returned |
| TcpClient.DataInside | client_firmware/libraries/ethercard/tcpip.cpp:799-808 | the data handed to the callback lies inside the frame, and is the segment's own exactly when it ends inside the frame and starts at least eight bytes before its end |
| PacketLoop.NetStack.SetGwIp | client_firmware/libraries/ethercard/tcpip.cpp:500-504 | the gateway record after the call |
| PacketLoop.NetStack.ClientTcpReq | client_firmware/libraries/ethercard/tcpip.cpp:547-556 | the connection record after the call and the fd returned |
| PacketLoop.NetStack.ClientArpWhohas | client_firmware/libraries/ethercard/tcpip.cpp:432-442 | the who-has frame: broadcast, our addresses, the address sought |
| PacketLoop.NetStack.MakeArpAnswerFromRequest | client_firmware/libraries/ethercard/tcpip.cpp:178-187 | the answer in place of the request |
| PacketLoop.NetStack.AnswerArp | client_firmware/libraries/ethercard/tcpip.cpp:730-731 | requests, and only requests, are answered; what opcode and sender the buffer then shows |
| PacketLoop.NetStack.Learn | client_firmware/libraries/ethercard/tcpip.cpp:732-741 | gateway, name server and peer MAC taken only while waited for and only from that address |
| PacketLoop.NetStack.OnArp | client_firmware/libraries/ethercard/tcpip.cpp:728-743 | what is learnt, from what the buffer shows after the answer |
| PacketLoop.NetStack.ClientSyn | client_firmware/libraries/ethercard/tcpip.cpp:512-545 | the SYN: ports, number, addresses, next hop, both checksums |
| PacketLoop.NetStack.AskForGateway | client_firmware/libraries/ethercard/tcpip.cpp:699-704 | the who-has frame for the gateway is sent when the counter comes round and the link is up, else none |
| PacketLoop.NetStack.SendPendingSyn | client_firmware/libraries/ethercard/tcpip.cpp:705-710 | a pending request becomes a SYN frame on a new port once the gateway is known, and our number steps by 3 |
| PacketLoop.NetStack.AskForPeers | client_firmware/libraries/ethercard/tcpip.cpp:712-720 | one who-has frame for each LAN peer not asked for yet, and no other |
| PacketLoop.NetStack.OnIdle | client_firmware/libraries/ethercard/tcpip.cpp:697-723 | a round without a packet: the steps of gateway, connection and LAN peers, and exactly the frames it sends, in order |
| PacketLoop.NetStack.OnSynAck | client_firmware/libraries/ethercard/tcpip.cpp:780-787 | acknowledgement, fill callback, then the data segment: numbers, data, checksums |
| PacketLoop.NetStack.OnData | client_firmware/libraries/ethercard/tcpip.cpp:801-820 | the callback gets what lies inside the frame; all of it is acknowledged |
| PacketLoop.NetStack.SendAck | client_firmware/libraries/ethercard/tcpip.cpp:248-261 | one acknowledgement of the frame in the buffer |
| PacketLoop.NetStack.OnClientSegment | client_firmware/libraries/ethercard/tcpip.cpp:764-835 | the step of the connection for the segment in the buffer, and the frame it leaves there: an acknowledgement, the data segment, or the segment itself |
| PacketLoop.NetStack.PacketLoop | client_firmware/libraries/ethercard/tcpip.cpp:697-839 | each call takes exactly the branch of `Classify` and the steps of the machines, sends or leaves in the buffer the frames of that branch, steps our number for a SYN or SYN-ACK only, and returns where a request to the web server starts |
| PacketLoop.NetStack.Serve | client_firmware/libraries/ethercard/tcpip.cpp:280-301 | the reply to a request that `packetLoop` returned: its acknowledgement covers exactly the bytes that the lengths of the frame leave, its segments follow on the peer's number; without a request nothing is sent |
| PacketLoop.NetStack.Poll | client_firmware/libraries/ethercard/tcpip.cpp:697-839 | every call in a run keeps: gateway MAC solicited, last request served at most once |
| Sessions.NextState | client_firmware/libraries/ethercard/tcpip.cpp:764-835 | the state after each segment, as an equivalence on sender, flag bits and data length: from 2 a SYN with ACK leads to 3, anything else to 1; from 3 data with a callback lead to 6; RST to 5; FIN to 6 |
| Sessions.Answers | client_firmware/libraries/ethercard/tcpip.cpp:764-835 | what is sent and called back for each segment of the peer |
| Sessions.FrameKinds | client_firmware/libraries/ethercard/tcpip.cpp:117-130 | which frames are whose, by their bytes |
| Sessions.ArpExchange | client_firmware/libraries/ethercard/tcpip.cpp:178-187 | one host asks, the other answers, the first learns its MAC |
| Sessions.DatagramArrives | client_firmware/libraries/ethercard/tcpip.cpp:363-394 | a datagram is taken for one by the host it is addressed to, with addresses, ports and lengths |
| Sessions.SynArrives | client_firmware/libraries/ethercard/tcpip.cpp:512-545 | the SYN of a client is a SYN for the server on that port |
| Sessions.SynAckArrives | client_firmware/libraries/ethercard/tcpip.cpp:217-237 | the server's SYN-ACK takes the client from state 2 to 3 with the callbacks of its request |
| Sessions.RequestArrives | client_firmware/libraries/ethercard/tcpip.cpp:780-787 | the client's data reach the server whole, at byte 54, next in both streams |
| Sessions.AckArrives | client_firmware/libraries/ethercard/tcpip.cpp:280-294 | the server's bare acknowledgement leaves the client waiting |
| Sessions.ResponseArrives | client_firmware/libraries/ethercard/tcpip.cpp:296-301 | the first data segment of the response reaches the result callback whole, and the client closes |
| Sessions.PendingSynSent | client_firmware/libraries/ethercard/tcpip.cpp:705-710 | with the gateway's MAC known the next round sends the SYN of a pending request |
| TcpServer.Accept | client_firmware/libraries/ethercard/tcpip.cpp:667-689 | position of the request data, the length remembered for the reply, which is what the frame's lengths leave and not 0 if a position is returned, and the frame left: SYN-ACK, closing acknowledgement or none |
| TcpServer.AnswersIff | client_firmware/libraries/ethercard/tcpip.cpp:667-689 | which segments are a SYN, a request, a close, by flag bits, lengths and port |
| TcpServer.BareAckSilent | client_firmware/libraries/ethercard/tcpip.cpp:667-689 | a bare acknowledgement is no request |
| TcpServer.MakeTcpSynackFromSyn | client_firmware/libraries/ethercard/tcpip.cpp:217-237 | the whole SYN-ACK: turned round, numbers, option, window, both checksums |
| PacketLoop.LoopKeepsGateway | client_firmware/libraries/ethercard/tcpip.cpp:697-743 | whatever frame arrives, the gateway MAC stays a solicited one |
| PacketLoop.LoopServesOnce | client_firmware/libraries/ethercard/tcpip.cpp:697-835 | whatever frame arrives, a pending request stays served at most once |
| DhcpOptions.WalkIsFold | client_firmware/libraries/ethercard/dhcp.cpp:227-257 | on every well-formed list without pads the in-place walk is the left fold over the options |
| DhcpOptions.LastAddressWins | client_firmware/libraries/ethercard/dhcp.cpp:232-246 | of repeated netmask, router, name server and server options the last one counts |
| DhcpOptions.LastLeaseWins | client_firmware/libraries/ethercard/dhcp.cpp:239-244 | the last of options 51 and 58 sets the lease: big-endian seconds times 1000 modulo 2^32 |
| DhcpOptions.FindTypeInPrefix | client_firmware/libraries/ethercard/dhcp.cpp:267-276 | whatever follows a list, a type is found exactly when an option 53 in it holds it or the walk finds it behind the list |
| DhcpOptions.FindTypeInList | client_firmware/libraries/ethercard/dhcp.cpp:267-276 | in a list with only zero padding behind its end option the type is found exactly when some option 53 holds it |
| DhcpOptions.ListHead | client_firmware/libraries/ethercard/dhcp.cpp:229-257 | in a buffer that holds a list the loop sees its first option and goes on to the rest |
| DhcpOptions.PadIff | client_firmware/libraries/ethercard/dhcp.cpp:267-276 | at a pad the walk goes on behind as many bytes as the next byte says, and a type is found exactly if it stands before the pad or is found from there |
| DhcpOptions.PadHidesType | client_firmware/libraries/ethercard/dhcp.cpp:267-276 | a case: a pad right before option 53 that hides the type |
| DhcpClient.OptionBytes | client_firmware/libraries/ethercard/dhcp.cpp:174-215 | the bytes appended are the encoding of the option list |
| DhcpClient.Payload | client_firmware/libraries/ethercard/dhcp.cpp:163-218 | the exact message length, below 300 |
| DhcpClient.SentTypeFound | client_firmware/libraries/ethercard/dhcp.cpp:148-279 | a message built by the sender is recognised as exactly the type sent |
| DhcpClient.StepKeepsHistory | client_firmware/libraries/ethercard/dhcp.cpp:342-389 | each step keeps what every state knows about its own past |
| DhcpClient.RunHistory | client_firmware/libraries/ethercard/dhcp.cpp:342-389 | in every reachable state: SELECTING has address 0.0.0.0 and an open DISCOVER with the current xid; later states hold address and server of the one accepted OFFER with that xid, BOUND and RENEWING after an ACK with it; all messages sent follow the table, a request naming address and server of the offer just taken in options 50 and 54, a renewal going to the server, from the address, of the last offer taken |
| DhcpClient.ServerOfOffer | client_firmware/libraries/ethercard/dhcp.cpp:221-258 | the server of an offer is that of its last option 54, or the one from before if it has none |
| DhcpClient.BoundBeforeLeaseEnds | client_firmware/libraries/ethercard/dhcp.cpp:344-351 | a step ends BOUND only before the end of the lease, exactly unless a zero lease has just begun; clock not wrapping |
| DhcpClient.TimeoutStartsOver | client_firmware/libraries/ethercard/dhcp.cpp:353-387 | a waiting state gives up exactly after 10000 ms without its message, and the next step sends a DISCOVER with the clock as xid |
| DhcpTiming.TimerIsLastSent | client_firmware/libraries/ethercard/dhcp.cpp:342-389 | in every run: the timer of a waiting state is the clock reading of the call that sent the last message |
| DhcpTiming.SentThenWaits | client_firmware/libraries/ethercard/dhcp.cpp:342-389 | after a message sent at clock t nothing happens in any call up to t + 10000 without the message waited for, and the first one after that starts over |
| DhcpTiming.AnswerLeadsOn | client_firmware/libraries/ethercard/dhcp.cpp:364-389 | an OFFER leads to REQUESTING with the address in bytes 58 to 61, an ACK to BOUND, setting the gateway exactly if its first byte is not 0 |
| DhcpTiming.GetsLease | client_firmware/libraries/ethercard/dhcp.cpp:342-389 | a run from INIT to BOUND with exactly the messages sent, whatever else arrives |
| DhcpTiming.BoundToTheEnd | client_firmware/libraries/ethercard/dhcp.cpp:344-351 | a lease is kept to its end and renewed by the first call after it, from the server |
| DhcpTiming.LeaseInMillis | client_firmware/libraries/ethercard/dhcp.cpp:239-244 | options 51 and 58 are seconds, most significant byte first, kept as milliseconds in 32 bits |
| DhcpTiming.CustomCalls | client_firmware/libraries/ethercard/dhcp.cpp:250-255 | the callback gets the data of every option of its code, in order, unless that is a code the client takes itself |
| DhcpTiming.AnswerReceived | client_firmware/libraries/ethercard/dhcp.cpp:260-279 | a frame from port 67 with the xid at byte 46 and options at byte 282 is received as the type it names |
| DhcpTiming.OthersIgnored | client_firmware/libraries/ethercard/dhcp.cpp:260-279 | frames shorter than 70 bytes, from other ports or with another xid are not |
| DhcpTiming.FirstOptionFound | client_firmware/libraries/ethercard/dhcp.cpp:260-279 | from 70 bytes on the first option is read at byte 282, inside the frame or not |
| DhcpTiming.MessageLayout | client_firmware/libraries/ethercard/dhcp.cpp:163-215 | the message sent, field by field |
| DhcpTiming.OptionLayout | client_firmware/libraries/ethercard/dhcp.cpp:174-215 | its options, byte by byte |
| DhcpMachine.DhcpMachine.AddOptions | client_firmware/libraries/ethercard/dhcp.cpp:174-215 | appended through the pointer: cookie, encoded options, end |
| DhcpMachine.DhcpMachine.PrepareFrame | client_firmware/libraries/ethercard/dhcp.cpp:150-161 | zeroed buffer, headers for the state, broadcast MAC |
| DhcpMachine.DhcpMachine.FillFixed | client_firmware/libraries/ethercard/dhcp.cpp:163-172 | the 236 fixed bytes of the message |
| DhcpMachine.DhcpMachine.TakeOption | client_firmware/libraries/ethercard/dhcp.cpp:232-255 | the switch on one option changes what `Apply` says and no more |
| DhcpMachine.DhcpMachine.SendDhcpMessage | client_firmware/libraries/ethercard/dhcp.cpp:148-219 | the frame in the buffer: the message for the state, broadcast MAC, ports 68 to 67, both checksums |
| DhcpMachine.DhcpMachine.DhcpReceivedMessageType | client_firmware/libraries/ethercard/dhcp.cpp:260-279 | the loop finds what `Received` says |
| DhcpMachine.DhcpMachine.TakeLeaseTime | client_firmware/libraries/ethercard/dhcp.cpp:239-244 | four bytes big-endian, times 1000, in 32 bits |
| DhcpMachine.DhcpMachine.ProcessDhcpOffer | client_firmware/libraries/ethercard/dhcp.cpp:221-258 | address and lease after the loop are those of the walk |
| DhcpMachine.DhcpMachine.DhcpStateMachine | client_firmware/libraries/ethercard/dhcp.cpp:319-390 | exactly one step, with its messages in the buffer |
| DhcpMachine.DhcpMachine.Poll | client_firmware/libraries/ethercard/dhcp.cpp:319-390 | every call of a running client keeps its history |
| Eeprom.UpdateLinear | client_firmware/rw_helpers.ino:16-25 | a CRC update is linear over exclusive or |
| Eeprom.CrcConcat | client_firmware/rw_helpers.ino:16-25 | the CRC of a whole goes on from that of its start |
| Eeprom.CheckValue | client_firmware/rw_helpers.ino:16-25 | the check value of CRC-16/ARC: the digits 1 to 9 give 0xBB3D |
| EepromStore.Crc16Update | client_firmware/rw_helpers.ino:21-22 | eight shifts of the register, as avr-libc documents `_crc16_update` |
| Eeprom.SealedIff | client_firmware/rw_helpers.ino:27-43 | data of any length followed by two bytes checks to zero exactly when they are its CRC, low byte first |
| Eeprom.BurstDetected | client_firmware/rw_helpers.ino:16-25 | changing one byte or two adjacent bytes always changes the CRC |
| Eeprom.SealValid | client_firmware/rw_helpers.ino:27-43 | a sealed record always checks |
| Eeprom.TornValid | client_firmware/rw_helpers.ino:105-109 | a record torn inside its data checks exactly when the written part differs by something with CRC zero |
| Eeprom.TornInChecksum | client_firmware/rw_helpers.ino:105-109 | torn between the checksum bytes it is the new record or invalid |
| Eeprom.SaveThenRead | client_firmware/rw_helpers.ino:72-139 | a saved record reads back as the state and address saved, the state in cell 0 and the address in cells 1 to 4 |
| Eeprom.CorruptionLoadsDefaults | client_firmware/rw_helpers.ino:127-138 | one byte or two adjacent bytes changed load state 0 and address 255.255.255.255 |
| Eeprom.TornSafeIff | client_firmware/rw_helpers.ino:105-109 | exactly when a save cut short at any point leaves old, new or invalid |
| Eeprom.TornSafe | client_firmware/rw_helpers.ino:105-109 | if the data differ in one byte or two adjacent ones a cut save never leaves a mixture |
| Eeprom.MixtureExample | client_firmware/rw_helpers.ino:105-109 | three differing bytes can leave a mixture that checks |
| EepromStore.CrcCalc | client_firmware/rw_helpers.ino:16-25 | the loop computes the CRC of the first bytes |
| EepromStore.CrcWrite | client_firmware/rw_helpers.ino:27-43 | the data become sealed, the rest of the array unchanged |
| EepromStore.House.SaveStateToEeprom | client_firmware/rw_helpers.ino:72-111 | after any number of rounds of the write loop the cells are the torn record; after all, the new one |
| EepromStore.House.ReadStateFromEeprom | client_firmware/rw_helpers.ino:113-147 | state and target address are those of the record, or the defaults |
| Dns.QueryNamesHost | client_firmware/libraries/ethercard/dns.cpp:22-46 | the encoded name decodes to the host name split on dots exactly when no label is empty or longer than 63 bytes; splitting loses nothing; the header and question around it |
| Dns.QueryLength | client_firmware/libraries/ethercard/dns.cpp:42-43 | the query is 18 bytes longer than the name, and byte 0 says so exactly up to 237 characters |
| Dns.LabelsRoundTrip | client_firmware/libraries/ethercard/dns.cpp:24-37 | encoded labels decode to themselves exactly when each has 1 to 63 bytes |
| Dns.NameSkipped | client_firmware/libraries/ethercard/dns.cpp:67-75 | a pointer, and a non-empty list of labels, is skipped to its exact end |
| Dns.NameKinds | client_firmware/libraries/ethercard/dns.cpp:67-75 | a first byte from 64 on makes a name of two bytes; otherwise it ends with the first zero byte or the frame |
| Dns.WalkFindsFirst | client_firmware/libraries/ethercard/dns.cpp:65-84 | on every well-formed record list the walk terminates and takes the data of the first record that looks like an address, or nothing |
| Dns.AnswerFound | client_firmware/libraries/ethercard/dns.cpp:65-84 | for a response echoing the query the walk starts behind the question and finds that record |
| Dns.TakesFirstAIff | client_firmware/libraries/ethercard/dns.cpp:78-81 | that is the first type-1 record with four bytes exactly unless a type from 256 on with low byte 1 and four bytes precedes it |
| Dns.BareRootIff | client_firmware/libraries/ethercard/dns.cpp:67-75 | a bare root name is skipped exactly only at the end of the frame |
| Dns.MixedNameIff | client_firmware/libraries/ethercard/dns.cpp:67-75 | labels that end in a pointer, with more of the frame behind them, are skipped exactly if and only if the pointer's low byte is 0 |
| DnsClient.DnsClient.CopyLabel | client_firmware/libraries/ethercard/dns.cpp:25-32 | the label behind its length byte, with the one-byte counter |
| DnsClient.DnsClient.EncodeHost | client_firmware/libraries/ethercard/dns.cpp:24-35 | the loops write the encoding of the labels, nothing before it |
| DnsClient.LabelTaken | client_firmware/libraries/ethercard/dns.cpp:24-35 | one round of the outer loop encodes the first label of what is left |
| DnsClient.DnsClient.BuildQuery | client_firmware/libraries/ethercard/dns.cpp:20-46 | the message bytes behind the UDP header and the length byte, truncated to eight bits |
| DnsClient.DnsClient.DnsRequest | client_firmware/libraries/ethercard/dns.cpp:15-48 | the query in the buffer, new transaction number, default server, both checksums |
| DnsClient.DnsClient.SkipNameAt | client_firmware/libraries/ethercard/dns.cpp:67-75 | the two ways a name is skipped |
| DnsClient.DnsClient.WalkRecords | client_firmware/libraries/ethercard/dns.cpp:66-83 | the address stored is the one the walk finds, otherwise nothing changes |
| DnsClient.DnsClient.CheckForDnsAnswer | client_firmware/libraries/ethercard/dns.cpp:55-85 | error exactly on our answer with a response code; otherwise the address found by the walk, or no change |
| DnsClient.OurAnswerIff | client_firmware/libraries/ethercard/dns.cpp:55-62 | a response is taken for ours exactly if its ports are those of the query turned round (low byte of the server's), its number is the query's and it has 70 bytes |
| DnsClient.AskedFrom | client_firmware/libraries/ethercard/dns.cpp:15-46 | the query's ports and number |
| DnsClient.HasErrorIff | client_firmware/libraries/ethercard/dns.cpp:61-62 | the response code is the low four bits of byte 45 |
| Url.EncodedLength | client_firmware/libraries/ethercard/webutil.cpp:126-149 | length plus twice the number of escaped characters, at most three times the length |
| Url.EncodedAs | client_firmware/libraries/ethercard/webutil.cpp:126-149 | which bytes stand for themselves, what a space becomes, and the escape of every other byte |
| Url.RoundTrip | client_firmware/libraries/ethercard/webutil.cpp:79-149 | decoding the encoding of any C string gives it back and stops at its terminator, whatever lies behind |
| Url.StopsAtTerminatorIff | client_firmware/libraries/ethercard/webutil.cpp:94-108 | decoding stays inside the string exactly when no escape is cut short |
| Url.HexValue | client_firmware/libraries/ethercard/webutil.cpp:79-91 | a hexadecimal digit of either case gives its value, every other character 0 |
| Url.Int2h | client_firmware/libraries/ethercard/webutil.cpp:112-124 | two lower-case digits and a terminator |
| Url.DecodeOne | client_firmware/libraries/ethercard/webutil.cpp:98-106 | one round of the loop, reading only what has not been overwritten |
| Url.UrlEncode | client_firmware/libraries/ethercard/webutil.cpp:128-149 | in place: the encoding, terminated, nothing behind it changed |
| Url.UrlDecode | client_firmware/libraries/ethercard/webutil.cpp:94-108 | in place over its own input: the decoded bytes, terminated, nothing behind them changed, never past the position already read |

## Left out

- Chip access: SPI, registers, receive ring and power modes; only the page copies remain, as an array.
- PacketLoop.NetStack.PacketLoop: does not contain the call of the DHCP machine at the head of `packetLoop` (lines 693-695 of tcpip.cpp), which is modelled as a call of its own, nor what sniffer, ping and UDP callbacks do; whether a UDP listener takes a frame is an input.
- Gateway.GatewaySolicited: does not cover runs in which an offer's router option changes the gateway address before `setGwIp` is called for it at the acknowledgement.
- Persistent mode of the TCP client and callbacks that start a new request: modelled in the step, outside the at-most-once claims.
- `$T` and `$L` of `emit_p`, and the `BufferFiller`: float and long formatting of the C library.
- Formats that end in a lone `$`, unterminated strings, more than 30 arguments, and `$H` on stashes not saved: preconditions of `Prepare` and `Extract`, which the code leaves to its caller.
- StashRuns.StepKeeps: does not contain `put` and `save` through an object whose cached header is out of date (`HandleKept` says exactly when that is so), `release` of a chain that is not on the chip (`ReleaseNeedsFlush`), and `get` at an offset past the block.
- Allocation failure: `create` and a page-crossing `put` require a free page; `PutsEnabled` and `RoundTrip` say exactly when there is one.
- The clock is an input of each step that does not run backwards inside a step; 32-bit wrap-around is written out only for the lease end.
- The bitmap is an array of 256 booleans and `waitgwmac` four named bits; `packetLoop`'s statics are grouped into two records; `XidOf` and the record words are little-endian as on the AVR.
- Strings in flash, RAM and EEPROM are three immutable memories; the library's `strlen` on them is a function.
- DNS responses whose record data are 256 bytes or longer: the code reads only the low byte of the length.
- `dnsLookup`, `dhcpSetup`, `selectAndArpDestAddr` and the main loop: blocking loops over time.
- `findKeyVal`, `parseIp`, `makeNetStr`, NTP, Wake-on-LAN, `makeUdpReply`: short searches or constant packet filling.
- Serial output, LEDs, watchdog and the HTTP API of the sketch: device effects.
