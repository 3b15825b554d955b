# A verified model of a DFU firmware updater

The repository updates firmware over USB DFU 1.1 and ST's DfuSe extension. It has a
command-line client, two small file tools, a download library and a handle-based
service on top of that library. This project models the parts of it that move
bytes and keep state, and proves what they are for: what ends up in the device,
which requests are sent on the way, what the file formats carry, and which handle
leads to which device.

`dafny verify dfyconfig.toml` verifies the project.

## How it is laid out

| file | what it holds |
|---|---|
| `Outcomes.dfy`, `Arithmetic.dfy`, `Bytes.dfy` | exits of the program as values, quotients, little-endian numbers |
| `Crc32.dfy` | the CRC of the DFU suffix: bit-by-bit register, the program's table, the writer |
| `DfuFile.dfy`, `FileRoundTrips.dfy`, `FileTools.dfy` | DFU files with prefix and suffix, load and store, the suffix and prefix tools |
| `DfuMachine.dfy`, `StatusPacket.dfy` | the device as a state machine (USB DFU 1.1, section 6.1 and Appendix A), its status packet |
| `DfuDownload.dfy`, `Recovery.dfy`, `DownloadLoops.dfy`, `FileDownload.dfy` | plain download: specification, recovery into dfuIDLE, the two loops, from file to device |
| `LibDfu.dfy`, `HandleTables.dfy`, `Responses.dfy`, `Service.dfy` | the library's handle table, the tables of the whole service, the pipe and the progress callback, the commands |
| `Pages.dfy`, `SegmentList.dfy`, `MemoryMap.dfy` | page arithmetic, the heap list of segments, the memory map string |
| `Flash.dfy`, `DfuDevice.dfy` | the memory behind a DfuSe device, the device object |
| `Programming.dfy` | what a chunk, an element and a list of elements are asked to erase and to program, as functions |
| `Strides.dfy`, `Elements.dfy`, `Coverage.dfy` | which pages the erases of a chunk reach, what an element leaves in memory, when its erases are enough |
| `Container.dfy`, `Overlay.dfy` | the container format, a whole file |
| `DfuSe.dfy`, `DfuSeFile.dfy`, `DfuSeLimits.dfy` | the client, from file bytes to flash, downloads that go wrong |

## The device

The environment of a device is a finite script, one entry per request: the request
is carried out, the pending operation needs more time, it has failed, or the transfer
itself is lost. After the script the device just works. A slow device is also busy at the
first poll after every block, and one that lingers at the first poll after the end of a
transfer. A lemma for every script is a lemma for every behaviour
of the device and the bus, and the length of the script is what makes the polling
loops terminate. The DfuSe client treats a device that is not busy at the first poll
as broken, so the devices it can succeed with are the slow ones, with any script that has
no faults, called obliging; what the client promises when it returns holds on every
device, and that it does return is stated for the obliging ones. The device records every request,
every block it carried out, what the last manifestation installed, and whether
any request came in a state that forbids it. A DfuSe device adds memory: NOR flash
that erases to 0xff by pages and can only clear bits, with a blank flag for every
byte and a flag that is set for good when a byte is programmed that was not blank.

## What the code does not do

These were found while proving. Each is a lemma with its exact condition, and where it
needs one, a concrete input.

- The suffix tool rewrites a prefix. Adding a suffix and deleting it gives the same
  file exactly when the prefix, if any, is the one the writer emits
  (`FileTools.SuffixAddThenDelete`, in bytes `FileTools.PrefixInBytes`; it fails on
  `FileTools.LmdfuLengthCorrected` and `FileTools.LpcMarkCorrected`). The prefix tool fills the length field of an LPC
  prefix from the payload alone (`lib_dfuutil/dfu_file.c:376-377` runs before the prefix
  exists, although its comment says that the prefix is counted), a later store counts
  the prefix too; the two agree exactly for payload lengths of 1 to 496 modulo 512
  (`FileTools.LpcSuffixRoundTrip`).
- Deleting an added prefix gives the file back exactly when the prefixed file has no valid
  suffix (`FileTools.PrefixAddThenDelete`). For any beginning of a file there are bytes to
  follow it and an address with which it does gain one (`FileTools.PrefixGainsSuffix`).
- A file stored without prefix comes back exactly when it does not happen to open
  like one (`FileRoundTrips.StoreThenLoadPlain`).
- The zero-length request is illegal in dfuIDLE, so an empty image makes an illegal run; so
  does a device that does not come back from manifestation, because the loop reads
  the status once more; so does a device still busy with an earlier download. The run
  is legal exactly otherwise (`Recovery.LibraryLegal`). A status that could not be read counts
  as dfuERROR, and an error is then cleared that the device need not have: under faults a
  non-empty image makes a legal run on a device that comes back exactly when the first four
  requests allow it (`Recovery.LibraryLegalExactly`); an idle device whose first status read is
  lost stalls (`Recovery.LostReadStalls`).
- The recovery reads the status twice at most on a device that reports OK outside dfuERROR, and
  three times at most on any (`Recovery.RecoverBounded`, `Recovery.RecoverBoundedAlways`);
  three it is in a transfer with another status (`Recovery.ThreeReads`).
- The count returned by a download is the bytes carried out, unless the last request was
  a poll for a block and was answered with a failure: then it is one block too high
  (`Downloads.TransmitHonest`). Without failing operations it is exact, whatever transfers
  are lost (`Downloads.CountIsExact`); a single failing block shows the other case
  (`Downloads.CountedTooHigh`).
- The loop after DfuSe's leave request does not stop at dfuIDLE: it is endless exactly on a
  device that comes back from manifestation, is done with it at the first poll, and on a
  bus that loses no later transfer (`DfuSeClient.LeavingNeverEnds`).
- A group of the memory map without multiplier sets no length, so the parser steps over it
  by the one set last: that of a group before it in the block, or of the block's address. A
  printed map is read as what it denotes exactly if each such length is the group's own, or
  at most that in the last group of the map (`MemoryMaps.MapReadBack`, for maps with the
  asterisk between sectors and size only; it fails on `MemoryMaps.StaleLength`).
- The erasing stride keeps the page size of the chunk's first address, and so does the mask
  of the last byte; a chunk that begins outside flash memory erases nothing. For every map,
  chunk and cache, `Strides.RequestedExactly` and `Strides.ReachedInNumbers` say which
  pages are erased, `Strides.CoverageExact` when all are, and
  `Coverage.WritesAnythingExactly` that an element is written over every memory exactly
  when they are for each of its chunks. `DfuSeLimits.MixedPageSizes` is a download that
  fails.
- The same stride can ask for a page more than once. `Strides.ChunkClimbs` says exactly when it
  does not: no two of its stops lie in one flash page, nor the last byte with the last stop.
  `DfuSeLimits.GrowingPagesRepeat` is a chunk from a small page into a large one.
- An element that comes back to a flash page erases what an earlier one put there, unless the
  page is its first one and the page of the last flash byte written. Elements that lie
  apart are overlaid on the memory, in whatever order, exactly when this hits no byte but
  0xff (`Overlays.OverlayExact`). `DfuSeLimits.OutOfOrder` is a container that fails;
  elements in address order never do (`Overlays.OrderedHarmless`).
- The service makes five attempts to open a device but reports success only for the
  first four; a device opened by the fifth stays open for good, and only then does a failed
  open change which devices are open (`HandleTables.LeaksExactly`,
  `HandleTables.LeakedForGood`).
- An open that succeeds without a device handle returns library handle 0, and two of
  them share it (`HandleTables.NullHandlesCollide`); over any history service handles share a
  library handle in this case only (`HandleTables.SharedExactly`).

## Model

| member | source | states |
|---|---|---|
| Crc32.TableEntry | lib_dfuutil/dfu_file.c:39-82 | every one of the 256 table entries is eight shifts of its index through the reflected polynomial 0xEDB88320 |
| Crc32.TableByteRefinesReference | lib_dfuutil/dfu_file.c:84-87 | the table step equals the bit-by-bit step for every register and byte |
| Crc32.ReferenceSplit | lib_dfuutil/dfu_file.c:160-173 | a buffer fed in several calls gives the register of one call over the whole |
| Crc32.ReferenceInjective | lib_dfuutil/dfu_file.c:84-87 | equal bytes never merge two different registers |
| Crc32.ReferenceWord | lib_dfuutil/dfu_file.c:84-87 | four bytes are one xor with their little-endian word and 32 shifts |
| Crc32.BurstDetected | lib_dfuutil/dfu_file.c:255-275 | two inputs of equal length that differ only inside four consecutive bytes have different CRCs |
| Crc32.Residue | lib_dfuutil/dfu_file.c:413-418 | four bytes bring the register to zero exactly when they are the register itself, low byte first |
| Crc32.CheckValue | lib_dfuutil/dfu_file.c:241-256 | from the initial register the digits 1 to 9 lead to 0x340bc6d9, the check value of CRC-32 before its bits are inverted |
| Crc32.WriteCrc | lib_dfuutil/dfu_file.c:160-173 | the file gains exactly the buffer, and the result is the reference register over it |
| DfuFiles.SuffixIsResidue | lib_dfuutil/dfu_file.c:240-275 | a file has a valid suffix exactly when it has the signature and its whole CRC is zero |
| DfuFiles.TamperDetected | lib_dfuutil/dfu_file.c:255-275 | changing a suffixed file inside any four consecutive bytes leaves no valid suffix, and a load that needs one exits |
| DfuFiles.SuffixedReadBack | lib_dfuutil/dfu_file.c:396-419 | what the writer appends is read as a valid suffix with the same identifiers and length 16 |
| DfuFiles.SuffixInBytes | lib_dfuutil/dfu_file.c:393-419 | the suffix byte by byte: release, product, vendor and version, low byte first, UFD, 16, and the CRC of all before it |
| DfuFiles.CrcOf | lib_dfuutil/dfu_file.c:255-256 | the loop computes the reference register of the leading bytes |
| DfuFiles.DfuFile.ProbePrefix | lib_dfuutil/dfu_file.c:89-108 | the fields after looking for a prefix, and when none fits |
| DfuFiles.DfuFile.ParseSuffix | lib_dfuutil/dfu_file.c:238-296 | missing exactly without valid suffix; exits exactly on a valid suffix with a wrong length field; otherwise its fields |
| DfuFiles.DfuFile.CheckPrefix | lib_dfuutil/dfu_file.c:313-317 | a needed prefix that is absent or overlaps, or an unwanted one, exits |
| DfuFiles.DfuFile.Load | lib_dfuutil/dfu_file.c:175-340 | the fields after a load, or the exit status, for every file and requirement |
| DfuFiles.DfuFile.Store | lib_dfuutil/dfu_file.c:342-421 | the file becomes prefix, payload and suffix, with the CRC of all before it |
| FileRoundTrips.PrefixReadBack | lib_dfuutil/dfu_file.c:355-389 | whatever follows a written prefix, the reader recognizes it, with type and carried address |
| FileRoundTrips.AddressReadBack | lib_dfuutil/dfu_file.c:358-367 | an LMDFU prefix carries 1024*((address/1024) mod 65536) |
| FileRoundTrips.LoadSuffixed | lib_dfuutil/dfu_file.c:278-317 | exactly what loading a file with a written suffix gives or why it exits, for every requirement on suffix and prefix |
| FileRoundTrips.StoreThenLoad | lib_dfuutil/dfu_file.c:342-421 | storing with prefix and suffix and loading gives back payload, identifiers, type, carried address and CRC |
| FileRoundTrips.StoreThenLoadPlain | lib_dfuutil/dfu_file.c:89-108 | without prefix the payload comes back if and only if the file does not open like a prefix |
| FileTools.PlainIdentifiers | lib_dfuutil/dfu_file.c:182-189 | a file without suffix is read with version 0 and identifiers 0xffff, whatever the fields were before |
| FileTools.SuffixAddThenDelete | lib_dfuutil/suffix.c:147-169 | add then delete keeps length and payload and is the identity if and only if the prefix is as the writer emits it; a second add exits |
| FileTools.SuffixAddCarries | lib_dfuutil/suffix.c:147-155 | what an add leaves is read back with the vendor, product, release and version it was given, each in its place |
| FileTools.SuffixToolAccepts | lib_dfuutil/suffix.c:139-175 | when each mode of the suffix tool succeeds, for every file; a check leaves the file as it is |
| FileTools.PrefixInBytes | lib_dfuutil/dfu_file.c:355-389 | which prefixes are as the writer emits them, byte by byte for each type |
| FileTools.LmdfuLengthCorrected | lib_dfuutil/dfu_file.c:358-371 | eight bytes with an LMDFU length one too high do not survive an added and deleted suffix |
| FileTools.LpcMarkCorrected | lib_dfuutil/dfu_file.c:102-106 | nor does any LPC file recognised by 0xda instead of 0x1a |
| FileTools.DeleteNeedsSuffix | lib_dfuutil/suffix.c:164-166 | delete without valid suffix exits |
| FileTools.PrefixAddThenDelete | lib_dfuutil/prefix.c:144-169 | without suffix, add then delete is the identity if and only if the prefixed file has no accidental suffix; a second add exits |
| FileTools.PrefixGainsSuffix | lib_dfuutil/prefix.c:144-169 | whatever a file begins with, short of a prefix mark, it can go on so that it has no suffix but gains a valid one with its prefix, and is not given back |
| FileTools.PrefixAddThenDeleteSuffixed | lib_dfuutil/prefix.c:144-169 | with a suffix, payload and identifiers are kept, and the file is the same if and only if its suffix was 16 bytes long |
| FileTools.PrefixAddCarries | lib_dfuutil/prefix.c:144-153 | what an add leaves is read back with the type and, as far as a prefix carries it, the address it was given |
| FileTools.PrefixToolAccepts | lib_dfuutil/prefix.c:144-175 | when each mode of the prefix tool succeeds, for every file and type; a check leaves the file as it is |
| FileTools.LpcPrefixSurvives | lib_dfuutil/dfu_file.c:372-389 | a store leaves the prefix tool's LPC prefix as it was exactly for payload lengths 1 to 496 modulo 512 |
| FileTools.LpcSuffixRoundTrip | lib_dfuutil/suffix.c:147-169 | suffix add then delete is the identity on such a file exactly for those lengths |
| FileTools.SuffixTool | lib_dfuutil/suffix.c:139-175 | the file after a run, or exit status and an unchanged file, for each mode; what an added suffix carries is `FileTools.SuffixAddCarries` |
| FileTools.PrefixTool | lib_dfuutil/prefix.c:144-175 | the file after a run, or exit status and an unchanged file, for each mode |
| StatusPackets.StatusReadBack | lib_dfuutil/dfu.c:131-164 | a whole status packet says what the device said, up to the timeout quirk, and anything shorter is read as the unknown error |
| StatusPackets.StatesInOrder | lib_dfuutil/dfu.h:28-38 | the states are numbered from 0 in the order of the standard |
| StatusPackets.PacketInBytes | lib_dfuutil/dfu.c:152-161 | the bytes of the packet of an idle, a stalled and a busy device, the timeout low byte first |
| Downloads.ChunksJoin | dfudll/libdfu_util.c:42-59 | the blocks of an image, joined, are the image |
| Downloads.ChunkNumbers | dfudll/libdfu_util.c:26-53 | block i carries number i modulo 65536 |
| Downloads.ChunkSizes | dfudll/libdfu_util.c:46-50 | every block but the last is full and none is empty |
| Downloads.ChunksCount | dfudll/libdfu_util.c:42-59 | there are as many blocks as the length needs |
| Downloads.BoundaryAt | dfudll/libdfu_util.c:84-101 | the i-th reported count is the i-th multiple of the block size, up to the length |
| Downloads.BoundaryCount | dfudll/libdfu_util.c:84-101 | a complete run reports once a block and once more |
| Downloads.AwaitBlockEnds | dfudll/libdfu_util.c:61-83 | the poll loop ends with the block carried out and dfuDNLOAD-IDLE, or with nothing carried out and dfuERROR or an exit; never illegally |
| Downloads.SettleEnds | dfudll/libdfu_util.c:106-131 | the manifest loop is legal on a device that comes back, and without faults illegal on one that does not |
| Downloads.TransmitHonest | dfudll/libdfu_util.c:42-134 | under any faults: blocks carried out, requests and reports are leading parts of the complete run, and the count is the bytes carried out, plus one block exactly when the last request was a poll for a block that was answered with a failure |
| Downloads.CountIsExact | dfudll/libdfu_util.c:63-134 | without failing operations the count equals the bytes carried out, whatever transfers are lost |
| Downloads.CountedTooHigh | dfudll/libdfu_util.c:63-83 | one byte, one failing block: the count is 1 and nothing was carried out |
| Downloads.TransmitLegal | dfudll/libdfu_util.c:42-134 | under any faults every request is legal from dfuIDLE with something to send on a device that comes back |
| Downloads.TransmitComplete | dfudll/libdfu_util.c:42-134 | without faults everything is carried out and installed in order, one completion packet is sent, the full count is returned |
| DownloadLoops.PollForIdle | dfudll/libdfu_util.c:61-75 | the loop over the device object is the specified polling |
| DownloadLoops.FinishManifest | lib_dfuutil/dfu_load.c:167-191 | the loop over the device object is the specified manifest polling, with at least a second between two polls |
| DownloadLoops.ChunkStep | dfudll/libdfu_util.c:42-83 | one pass of the chunk loop leaves what remains of the same complete run, or ends it with its result |
| DownloadLoops.CompletionStep | dfudll/libdfu_util.c:90-134 | the completion packet and the manifest loop end the run with its result |
| DownloadLoops.LibdfuUtilDownload | dfudll/libdfu_util.c:17-135 | the library's loop leaves the device, result and reports of the one specification |
| DownloadLoops.DfuloadDoDnload | lib_dfuutil/dfu_load.c:93-196 | the command-line loop leaves the device and result of the same specification, on everything before the suffix |
| FileDownloads.StoredFileArrives | lib_dfuutil/dfu_load.c:104-196 | any stored file with something in front of its suffix, with prefix or without, is loaded, and sent without faults from the four states at rest is installed as everything in front of its suffix |
| Recovery.RecoverFromIdle | dfudll/libdfu.cpp:152-193 | in dfuIDLE with status OK one status read settles it, under any faults |
| Recovery.RecoverBounded | dfudll/libdfu.cpp:152-193 | with status OK outside dfuERROR: at most two status reads and no download before the loop ends, under any faults |
| Recovery.RecoverBoundedAlways | dfudll/libdfu.cpp:152-193 | on any device at most three status reads and no download |
| Recovery.ThreeReads | dfudll/libdfu.cpp:178-193 | in a transfer with another status it is three |
| Recovery.RecoverReady | dfudll/libdfu.cpp:163-193 | without faults a ready device is in dfuIDLE afterwards, by legal requests |
| Recovery.RecoverNotReady | dfudll/libdfu.cpp:163-193 | from any other state it is illegal or stops where no block may be sent |
| Recovery.LibraryDownload | dfudll/libdfu.cpp:152-225 | end to end from the four states at rest: the image is installed whole, numbered modulo 65536, with one completion packet and no remains of an earlier transfer, all legal, ending idle |
| Recovery.LibraryHonest | dfudll/libdfu.cpp:152-225 | with status OK outside dfuERROR and under any faults only leading blocks are carried out and at most the length is reported; a recovery that gives up returns an error, with nothing sent and nothing reported |
| Recovery.LibraryLegal | dfudll/libdfu.cpp:152-225 | without faults the whole run is legal if and only if the device is ready, the image non-empty and the device comes back from manifestation |
| Recovery.LibraryLegalExactly | dfudll/libdfu.cpp:152-225 | under any faults, from any state of a device that comes back and with a non-empty image: legal if and only if the state and the first four script entries spare the recovery |
| Recovery.LostReadStalls | dfudll/libdfu.cpp:163-176 | an idle device whose first status read is lost is sent a request it must refuse |
| Recovery.BusyDeviceStallsCounterexample | dfudll/libdfu.cpp:189-193 | a device still busy is sent a block it must refuse |
| LibDfu.StatusAgain | dfudll/libdfu.cpp:152-193 | the loop over the device object is the specified recovery |
| LibDfu.Library.OpenDevice | dfudll/libdfu.cpp:59-105 | a new handle, one higher than the last, exactly when a device is open; 0 or an error and nothing changed otherwise |
| LibDfu.Library.Download | dfudll/libdfu.cpp:108-225 | an unknown handle or a failed claim touches no device; otherwise the specified run happens on the handle's device |
| LibDfu.Library.CloseDevice | dfudll/libdfu.cpp:227-240 | removes exactly this handle, or fails |
| HandleTables.InitialInv | blpdevupd/dfusvc_server.cpp:23-24 | the empty tables are consistent |
| HandleTables.StepInv | blpdevupd/dfusvc_server.cpp:190-324 | every open, download and close request keeps the tables consistent |
| HandleTables.RunInv | blpdevupd/dfusvc_server.cpp:190-324 | the tables are consistent after every history of requests |
| HandleTables.DistinctHandles | blpdevupd/dfutransport.cpp:63-77 | different service handles share a library handle only if it is 0; otherwise its progress goes to its own transport |
| HandleTables.NullHandlesCollide | dfudll/libdfu.cpp:89-93 | two opens without device handle share library handle 0, and the first loses its route |
| HandleTables.ZeroExactly | dfudll/libdfu.cpp:89-101 | over any history a service handle holds library handle 0 if and only if the attempt that opened it found no device |
| HandleTables.SharedExactly | dfudll/libdfu.cpp:89-101 | over any history two service handles differ, and share a library handle if and only if both were opened so |
| HandleTables.HandlesConsecutive | blpdevupd/dfusvc_server.cpp:289-290 | over any history the service handles given out are consecutive, so none is given out twice |
| HandleTables.LibraryHandlesConsecutive | dfudll/libdfu.cpp:89-105 | over any history the library handles obtained with a device are consecutive, whatever is closed in between |
| HandleTables.ShutStays | blpdevupd/dfusvc_server.cpp:202-207 | a handle whose library handle is closed stays so over any history |
| HandleTables.DownloadAfterClose | dfudll/libdfu.cpp:125-129 | after a successful close, no later download on the handle reaches a device and no later close succeeds |
| HandleTables.OpenSucceeds | blpdevupd/dfusvc_server.cpp:275-287 | an open succeeds if and only if one of the first four attempts does |
| HandleTables.FifthAttemptLeaks | blpdevupd/dfusvc_server.cpp:275-287 | a device opened by the fifth attempt is left open with no service handle |
| HandleTables.LeaksExactly | blpdevupd/dfusvc_server.cpp:275-287 | an open that fails changes which devices are open if and only if the first four attempts fail and the fifth finds one |
| HandleTables.LeakedForGood | blpdevupd/dfusvc_server.cpp:275-287 | no request of any later history closes it |
| HandleTables.OpenLeads | blpdevupd/dfusvc_server.cpp:275-292 | a successful open gives a handle that leads to the device found |
| HandleTables.LeadsUntilClosed | blpdevupd/dfusvc_server.cpp:200-207 | until it is closed every download on the handle reaches that device, over any history |
| Service.DFUTransport.Init | blpdevupd/dfutransport.cpp:27-61 | ready exactly when the library and its calls were found |
| Service.DFUTransport.Open | blpdevupd/dfutransport.cpp:63-77 | the library handle is remembered and routed to this transport, or nothing changes |
| Service.DFUTransport.Download | blpdevupd/dfutransport.cpp:79-94 | -1 and nothing done without initialisation; otherwise the run happens on the handle's device and its reports reach the callback given |
| Service.DFUTransport.Close | blpdevupd/dfutransport.cpp:96-106 | the library handle is closed, or an error |
| Service.Server.Search | blpdevupd/dfusvc_server.cpp:275-283 | the retry loop over the objects is the specified probing |
| Service.Server.OpenCommand | blpdevupd/dfusvc_server.cpp:259-293 | the tables and the response of the specified open request |
| Service.Server.CloseCommand | blpdevupd/dfusvc_server.cpp:300-324 | the tables and the response of the specified close request |
| Service.Server.DownloadCommand | blpdevupd/dfusvc_server.cpp:190-232 | the tables stay; the device is that of the run the tables lead to, and the pipe gains the progress of that run as it happens and then its final response |
| Service.Server.Serve | blpdevupd/dfusvc_server.cpp:209-231 | the same for the transport itself |
| Responses.Callback.Call | blpdevupd/dfusvc_server.cpp:212-218 | a report is sent on at once, and the last pair is what the callback remembers |
| Service.RoutedBack | blpdevupd/dfutransport.cpp:84-87 | the progress of an open library handle goes back to the transport that opened it |
| Service.ResponseTrace | blpdevupd/dfusvc_server.cpp:209-231 | under any faults: progress 0, min(4096,n), min(8192,n), ... with a constant total, then one final response that repeats the last pair or says 0/0 |
| Service.TraceClimbs | blpdevupd/dfusvc_server.cpp:209-231 | the counts never go down, never exceed the total, and only the last response is final |
| Pages.MaskRoundsDown | lib_dfuutil/dfuse.c:191 | address & ~(size - 1) rounds down to a multiple of the page size, a power of two |
| Pages.MaskIsBase | lib_dfuutil/dfuse.c:420-428 | the mask of a mapped address is the base of its page |
| Pages.FindCovers | lib_dfuutil/dfuse_mem.c:54-64 | the search finds a covering segment, and none exactly when none covers |
| Pages.FindUnique | lib_dfuutil/dfuse_mem.c:54-64 | in a map without overlap it is the only covering segment |
| Pages.PageInSegment | lib_dfuutil/dfuse_mem.c:170-174 | a page lies inside the segment of any of its addresses |
| Pages.PagesApart | lib_dfuutil/dfuse_mem.c:170-174 | two addresses share a page or their pages are apart |
| SegmentLists.SegmentList.Add | lib_dfuutil/dfuse_mem.c:31-52 | the acyclic heap list gains one segment at its end |
| SegmentLists.SegmentList.FindSegment | lib_dfuutil/dfuse_mem.c:54-64 | the first covering segment in list order, or none |
| MemoryMaps.ParseGroups | lib_dfuutil/dfuse_mem.c:112-191 | the inner loop appends the groups of one address block |
| MemoryMaps.ParseMemoryLayout | lib_dfuutil/dfuse_mem.c:81-198 | a new heap list with exactly the parsed segments |
| MemoryMaps.MapReadBack | lib_dfuutil/dfuse_mem.c:97-193 | parsing a printed memory map gives exactly the segments it denotes, in order, with any multiplier or none and also for "Device Feature": if every length the parser steps by is that of the text, and in no other case where the asterisk stands between sectors and size only |
| MemoryMaps.ScaledFits | lib_dfuutil/dfuse_mem.c:114-117 | it is so for every map whose groups have a multiplier, the blank included |
| MemoryMaps.StaleLength | lib_dfuutil/dfuse_mem.c:114-117 | a map of two groups, the first without multiplier, that is not read as what it denotes |
| MemoryMaps.KiloMega | lib_dfuutil/dfuse_mem.c:134-164 | a map with kilobytes and megabytes and the segments it gives |
| MemoryMaps.BlankAndPlain | lib_dfuutil/dfuse_mem.c:143-164 | a map with a blank and with no multiplier and the segments it gives: both count bytes |
| MemoryMaps.TypeLetters | lib_dfuutil/dfuse_mem.h:24-26 | of the type letters, a, c, e and g may be read, b, c, f and g erased, d, e, f and g written; a "Device Feature" counts as e |
| MemoryMaps.AddressLetters | lib_dfuutil/dfuse.c:386-407 | and so the program takes the addresses of a group, wherever in a map without overlap it stands |
| MemoryMaps.LongTypeEnds | lib_dfuutil/dfuse_mem.c:121-131 | a type of several characters ends its block, and the map unless a new block follows |
| MemoryMaps.CutGroupEnds | lib_dfuutil/dfuse_mem.c:114-117 | a group cut off before its size or, at the end of the string, before its multiplier ends the map |
| MemoryMaps.UnknownLetterPassed | lib_dfuutil/dfuse_mem.c:143-168 | a single character that is no type letter denotes nothing, but for a "Device Feature" |
| MemoryMaps.UnclosedAddress | lib_dfuutil/dfuse_mem.c:109-112 | an address without closing slash is stepped over by the length set last |
| MemoryMaps.SegmentsBounded | lib_dfuutil/dfuse_mem.c:109-193 | whatever the string, there are no more segments than asterisks |
| MemoryMaps.NameMissing | lib_dfuutil/dfuse_mem.c:97-103 | without a name there is no map |
| MemoryMaps.GroupsContiguous | lib_dfuutil/dfuse_mem.c:170-184 | the groups of a block tile its address range, up to the last address of the space |
| MemoryMaps.AlignedIsWellFormed | lib_dfuutil/dfuse_mem.c:170-184 | an aligned block denotes whole pages without overlap |
| MemoryMaps.MapWellFormed | lib_dfuutil/dfuse_mem.c:112-193 | a whole map denotes whole pages without overlap if and only if every block is aligned and no two blocks overlap |
| FlashMemory.ReplaySound | lib_dfuutil/dfuse.c:189-213 | over any history of blocks, a byte counted as blank reads 0xff |
| DfuSeClient.CommandDecoded | lib_dfuutil/dfuse.c:208-211 | the device decodes exactly the command that was meant, address included |
| DfuSeClient.CommandInBytes | lib_dfuutil/dfuse.c:189-211 | the bytes of each command, its address low byte first |
| DfuDevices.DfuDevice.AbortToIdle | lib_dfuutil/dfu.c:336-357 | dfuIDLE on return, legally, with the same memory |
| DfuDevices.DfuDevice.Upload | lib_dfuutil/dfuse.c:117-137 | a block is the memory at pointer + (number - 2) * size, up to the end of the address space |
| DfuSeClient.Cursor.Memcpy | lib_dfuutil/dfuse.c:461-472 | the bytes asked for and the rest after them, or an exit exactly when too few are left; pointer plus remainder is constant |
| DfuSeClient.Client.PollCommand | lib_dfuutil/dfuse.c:217-250 | returns only if the first poll found the device busy, with the command carried out once and dfuDNLOAD-IDLE; always terminates; returns on an obliging device; a mass erase that claims 100 ms is given 35 s |
| DfuSeClient.Client.SpecialCommand | lib_dfuutil/dfuse.c:164-251 | the memory afterwards is that of the command meant; an erase leaves its page in the cache; on an obliging device it returns if and only if an erase is in erasable memory |
| DfuSeClient.Client.PollChunk | lib_dfuutil/dfuse.c:267-276 | ends with the chunk carried out once, with a failure, or in manifestation, whenever that loop ends at all |
| DfuSeClient.Client.DnloadChunk | lib_dfuutil/dfuse.c:253-289 | the full count only with the chunk programmed, and always on an obliging device |
| DfuSeClient.Client.EraseUnlessLast | lib_dfuutil/dfuse.c:420-428 | the page is erased and cached, or its mask is the page in the cache and nothing happens |
| DfuSeClient.Client.EraseStrides | lib_dfuutil/dfuse.c:416-426 | the stride carries out the requests up to the chunk's end, whatever segments it crosses |
| DfuSeClient.Client.EraseChunk | lib_dfuutil/dfuse.c:414-436 | stride and tail together send exactly the requests of the specification; return if and only if all of them are in flash memory, on an obliging device |
| DfuSeClient.Client.WriteChunkAt | lib_dfuutil/dfuse.c:397-454 | one pass of the chunk loop is one chunk of the specification: its erases, the pointer, its bytes |
| DfuSeClient.Client.DnloadElement | lib_dfuutil/dfuse.c:379-459 | a return of 0 means memory and cache are those of the specified element, for any segments the element lies in, and the program and the device agreed to all of it; on an obliging device that is also enough; on any outcome nothing outside the element and the flash pages it overlaps changed |
| Strides.ChunkMembers | lib_dfuutil/dfuse.c:416-435 | for any map, chunk and cache: the addresses asked to erase are the stride and the last byte, if its mask is not the page the stride met last, without a cached first page |
| Strides.RequestedExactly | lib_dfuutil/dfuse.c:416-435 | a flash page the chunk overlaps is erased if and only if one of them lies in it, but for a cached first page |
| Strides.ReachedInNumbers | lib_dfuutil/dfuse.c:416-435 | that condition in numbers: page borders, the page size at the chunk's start, the chunk's end |
| Strides.CoverageExact | lib_dfuutil/dfuse.c:414-436 | every overlapped flash page is erased or is the cached first one if and only if the chunk covers its pages, also when it begins outside flash memory |
| Strides.LongPagesCover | lib_dfuutil/dfuse.c:416-435 | a chunk covers its pages when each is at least as long as the chunk or as its first page, across any segments |
| Strides.ChunkClimbs | lib_dfuutil/dfuse.c:416-435 | for any map, chunk and cache: the requests climb, and no page is asked for twice if and only if no two stops of the stride lie in one flash page, nor the last byte with the last stop if it is asked for |
| Strides.OnceOverEvenPages | lib_dfuutil/dfuse.c:416-435 | so it is for a chunk no longer than its first page or over flash pages of one size |
| Elements.ElementWritten | lib_dfuutil/dfuse.c:379-459 | an element whose chunks cover their pages: every byte, every flag, the cache and the list of erased pages afterwards, as a formula over the memory before |
| Coverage.WritesAnythingExactly | lib_dfuutil/dfuse.c:397-454 | an accepted element is written over every memory if and only if all its chunks cover their pages |
| Coverage.CoverageNeeded | lib_dfuutil/dfuse.c:414-436 | if one does not, there is a byte that comes out wrong wherever it was 0 before |
| Coverage.OneSegmentCovers | lib_dfuutil/dfuse.c:397-412 | an element inside one segment covers its pages at any address and with any transfer size, and erases each once |
| Coverage.AlignedCovers | lib_dfuutil/dfuse.c:397-412 | so does an element across segments that starts at a multiple of the transfer size, when page sizes are multiples of it |
| Coverage.FlashAccepted | lib_dfuutil/dfuse.c:388-411 | an element in memory that can be erased and written is accepted, whatever the cache |
| Coverage.AcceptedExactly | lib_dfuutil/dfuse.c:386-436 | an element is accepted if and only if its last byte and the first of each chunk can be written and, where a chunk begins in flash, all that its erases look at is flash; what was erased before makes no difference |
| DfuSeLimits.MixedPageSizes | lib_dfuutil/dfuse.c:415-435 | through the client: a chunk from 4 KiB pages into 1 KiB pages reports success and leaves a byte wrong |
| DfuSeLimits.GrowingPagesRepeat | lib_dfuutil/dfuse.c:416-435 | a chunk from a 1 KiB page into a 4 KiB page asks for that page at two addresses |
| Containers.ContainerReadBack | lib_dfuutil/dfuse.c:523-598 | reading a written container visits exactly its elements, in order, unless it and what follows are shorter than 293 bytes, as no container with an element is |
| Containers.ContainerRead | lib_dfuutil/dfuse.c:523-598 | and nothing else is read to its end: bytes that are were written so, with the elements met, and something left over |
| Containers.ContainerInBytes | lib_dfuutil/dfuse.c:532-543 | the bytes at the head of a container: DfuSe, 1, its size and the number of images |
| Containers.ImageInBytes | lib_dfuutil/dfuse.c:547-556 | the bytes at the head of an image: Target, its setting, name, size and number of elements |
| Containers.PartInBytes | lib_dfuutil/dfuse.c:564-570 | the bytes of an element: address, size, contents |
| Containers.WalkStep | lib_dfuutil/dfuse.c:564-594 | taking one element off the bytes takes it off the walk |
| Overlays.AllWritten | lib_dfuutil/dfuse.c:583-594 | separate elements in any order: every byte and flag afterwards, and the cache, from the memory before and the order |
| Overlays.OverlayExact | lib_dfuutil/dfuse.c:583-594 | the memory is overlaid with them if and only if no element erases a flash page holding an earlier one's byte other than 0xff, that is, overlaps it and does not begin with it right after it was written last |
| Overlays.OrderedHarmless | lib_dfuutil/dfuse.c:417-428 | elements in address order never do, also on a shared page |
| Overlays.FreshCache | lib_dfuutil/dfuse.c:40 | the initial cache value is the base of no page |
| DfuSeLimits.OutOfOrder | lib_dfuutil/dfuse.c:417-435 | through the client: a container of two elements out of order reports success and loses a byte of the first |
| DfuSeClient.Client.DoDfuseDnload | lib_dfuutil/dfuse.c:505-603 | a return of 0 means the whole container was read and exactly the elements of this alternate setting were written, one after the other; a container the program and the device agree to succeeds on an obliging device if it is whole and else exits with the status its fault calls for; on any outcome nothing else changed |
| DfuSeClient.Client.DoBinDnload | lib_dfuutil/dfuse.c:475-502 | the same for a raw file at an address |
| DfuSeClient.Client.UploadBlocks | lib_dfuutil/dfuse.c:334-369 | the output gains exactly the memory from the pointer on, up to the limit |
| DfuSeClient.Client.DoUpload | lib_dfuutil/dfuse.c:291-375 | the file is the memory at the address, or where the device points: as long as asked for, else up to the last byte of the segment of the address, else 16384 bytes; legal; ending idle, or left to start at the address; refused if and only if there is no memory map or no leave to read, on an obliging device |
| DfuSeClient.Client.Leave | lib_dfuutil/dfuse.c:366-369 | the device points at the address to start from when it gets the zero-length request, block 2, the last but for polls |
| DfuSeClient.Client.DoDnload | lib_dfuutil/dfuse.c:605-657 | a download as a whole: what was wanted has been written over the memory, mass-erased if asked; that is its overlay if and only if no element harms another; every request legal; the device idle, or left to start at the given address or at that of the first element; every exit with its status; a permitted download succeeds on an obliging device |
| DfuSeClient.Client.DownloadThenUpload | lib_dfuutil/dfuse.c:336-361 | uploading the range of a raw download gives back exactly the file, if the memory was mass-erased or its chunks cover their pages; on an obliging device both are done |
| DfuSeFiles.DnloadFile | lib_dfuutil/dfuse.c:605-657 | from the bytes of any file: the exit of the load with the device untouched, or the download of what the load found, to where the device starts |
| DfuSeFiles.DnloadStored | lib_dfuutil/dfuse.c:505-657 | a container stored as a DfuSe file reaches flash: the memory is overlaid with its elements for the setting if and only if none harms another, a device that is left starts at its first element, and on an obliging device that accepts them it gets there |
| DfuSeClient.LeavingNeverEnds | lib_dfuutil/dfuse.c:267-276 | under any faults: the poll loop after the leave request is endless if and only if the device comes back, is done at the first poll, and no later transfer is lost |

## Left out

- libusb, enumeration, descriptors and claiming interfaces: foreign code. The results of looking for a device, of claiming and of setting the alternate setting are inputs.
- Printing, the progress bar, verbose branches, state and status names, help texts.
- Option parsing of all programs; the options are inputs, identifiers already 16 bits wide.
- The quirk table; the timeout quirk appears in `StatusPackets.StatusReadBack` only, and hosts sleep as long as the device asked for.
- A status read of one to five bytes, which the loops take for a read with default values: a transfer in the model succeeds whole or fails.
- Standard input as a file, failing opens, reads and writes of files, memory exhaustion.
- Files in which prefix and suffix overlap, which the tools read with a negative payload size: `Fits` excludes them where the code would use it. `FileTools.SuffixAddThenDelete` says when an added suffix makes one.
- Sizes at which the signed arithmetic of the programs overflows: files within 511 bytes of 2^31, images of 2^31 bytes and more, elements of 2^31 bytes and more (the walk of a container ends there as Negative).
- General sscanf: leading white space, signs, overflow of numbers. The grammar of the memory map, trailing input and the reuse of a stale length are modelled.
- MemoryMaps.MapReadBack: a stale length that leads beyond the end of the string, where the program reads what is not its own, ends the parsing in the model.
- Releasing memory: `free_segment_list` and the end of transport objects, including the route that a failed fifth attempt leaves behind to a transport that is gone.
- Named pipes, JSON, hex encoding, loading of the library, terminate requests; sending a response always succeeds.
- `dfuload_do_upload`, which adds only an easy loop beside the DfuSe upload.
- Erasing and programming that fail half way: an operation that fails leaves the memory as it was.
- The inner polling loops of the two copies of the plain download are textually the same and modelled once.
- Option state across the calls of one process other than `last_erased_page` and the options themselves.
- DfuSeClient.Client.DnloadElement: asks that no address the element or its erases work out reaches 2^32, and that the element is below 2^31 bytes; addresses that wrap around are not modelled. The same holds for the elements of `DfuSeClient.Client.DoDfuseDnload` and `DfuSeClient.Client.DoDnload`.
- DfuSeClient.Client.DoDnload: asks, when leaving, for a device that stays in manifestation or lingers in it, because the loop need not end otherwise (`DfuSeClient.LeavingNeverEnds`); `DfuSeClient.Client.DnloadChunk` asks for the exact condition.
- DfuSeClient.Client.DoUpload: asks for a mapped address when an upload is forced and given an address but no length; at an unmapped one the program dereferences a null segment at `lib_dfuutil/dfuse.c:320`.
- DfuSeClient.Client.UploadBlocks: asks for at most 65534 blocks; beyond that the block number wraps to the two numbers that carry no memory.
- A raw file or container whose elements overlap one another: the functions say what happens, the overlay lemmas do not speak of it.
