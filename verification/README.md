# Models of memtest86, atftp and the iPXE shell

A Dafny verification of the algorithmic cores of a network-boot tree: the
memory tester (`src/memtest86`), the TFTP server (`src/atftp`) and the
command-line evaluator of iPXE (`src/ipxe`). Code that updates memory is
modelled by methods over arrays and heap objects, proved against functions and
predicates; the theorems are about those. `dafny verify dfyconfig.toml` checks
everything.

| files | what they model |
|---|---|
| `E820`, `Sweep`, `Sanitize`, `Canonical` | `sanitize_e820_map`: change points, overlap list, output cursor; the specification "largest type covering each address"; uniqueness of the result |
| `PageMap`, `PageTheorems`, `PageRuns` | `memsize_820` and `adj_mem`: trimming, rounding to pages, 32-bit words and page counts, related to the runs of the BIOS map |
| `Windows` | `compute_segments` and the window loop of a test |
| `Barrier`, `BarrierTheorems` | the reusable SMP barrier as interleaved steps of any number of CPUs from 2 |
| `Netascii`, `RFile` | block reader with netascii escapes, and the decoder that seeks back and overwrites |
| `Sender`, `Transfer`, `TransferRuns`, `Timeouts` | the send loop for one octet-mode client, against an RFC 1350 client over lossy, repeating channels; its timeouts, counted over runs |
| `Chunks`, `Parts`, `PartTests` | `calculate_chunk`, the parts it makes of real segments, and the tests run on those parts |
| `Patterns`, `MovInv`, `MovInv32`, `EmptyPart` | `movinv32`, also on an empty part |
| `MovInv1` | `movinv1` |
| `ModTst` | `modtst` |
| `BlockMove` | `block_move` |
| `Clients`, `Threads` | client and thread lists |
| `Handover`, `HandoverTimeouts`, `Multicast`, `MulticastRuns`, `MulticastThread` | how a multicast thread works through its clients: the steps, what they mean for the file each client gets, runs that reach the failures, and the code that takes the steps |
| `Tokens`, `Shell` | `split_command`, `concat_args`, `command_terminator`, `execv`, `system` |
| `Arith`, `Words`, `Wrappers` | facts about division, machine words, options |

Memory under test is an array of 32-bit words addressed by dword index. It may
have faults: a function says what a dword holds after a word has been written
to it, and each test is shown to report an error exactly when its faults show;
on fault-free memory that function gives back the word. Where
the C text in a comment differs from the assembly beside it, the assembly is
modelled.

Where the code does not do what its design promises, the exact condition is
proved, and an input or a run that reaches the failure is given in parentheses
where the condition does not already describe one:

- `Canonical.SanitizedTwice`: sanitising is idempotent except when a zero-size
  entry splits a run (`Canonical.SplitExample`).
- `PageRuns.TestPagesRuns`, `PageRuns.SelectedPagesRuns`: page totals are exact
  except when a run of usable memory has no page boundary
  (`PageRuns.LostPageExample`). `PageTheorems.PageWordsExact`: page words are
  exact below 16 TiB (`PageTheorems.PageWordsWrapExample`).
- `Windows.AllTestedIff`: all selected pages are tested unless the page map ends
  within one window of 2^32 pages, where the loop test wraps
  (`Windows.HighPageUntested`).
- `Netascii.ServerSendsEncoding`: a netascii transfer loses its last byte when
  a block boundary cuts the last escape pair; `Netascii.RereadFaithful`: a block
  is garbled when it is sent again and the boundaries before and after it do not
  cut off the same escape byte (`Netascii.LineOfEightExample`).
- `Transfer.LastBlockShortIff`: a file that is a positive multiple of the block
  size ends without a short block.
- `Transfer.RunDeliversIff`, `TransferRuns.DeliveryIff`: server and client fall
  out of step exactly when an acknowledgement numbered 0 is counted twice, which
  can leave the client short of any file of more than 65536 blocks
  (`TransferRuns.RepeatedZeroShortens`).
- `Multicast.CourseDeliversIff`, `MulticastRuns.OneClientIff`: with a second
  client a multicast thread may mark a client done that holds nothing. Block
  number, last block and wrap-around offset are not reset between clients, so a
  client that answers the option acknowledgement with 0 is taken for one past
  the last block (`MulticastRuns.SecondClientLost`). And `tftp_get_packet` copies
  the sender of every packet over the current client's address, because it looks
  for a port in the pointer itself; the tests that should tell other clients
  apart come after that, so anybody's packet counts as the current client's
  (`MulticastThread.MulticastServer.GetPacket`,
  `MulticastRuns.AnotherAcknowledges`, `MulticastRuns.AnotherFails`).
- `Handover.CourseWaitsOnceIff`: an address waits twice in the list after a packet
  from a client that waits elsewhere in it, as the first client does when it
  repeats its request while its address is unspecified
  (`MulticastRuns.FirstClientTwice`).
- `HandoverTimeouts.NextGivenUpIff`: the count of timeouts is not reset between
  clients (`MulticastRuns.GivenUpAtOnce`). `Handover.SwitchAbortsIff`: client
  switching gives up on the last waiting client
  (`MulticastRuns.LastClientAborted`).
- `MovInv32.MovInv32`, `PartTests.MovInv32OnParts`: on a segment of less than 256
  bytes for each CPU, `movinv32` writes outside the part, below the segment too,
  and reports errors on fault-free memory (`EmptyPart.EmptyPartExample`).

## Model

| member | source | states |
|---|---|---|
| `E820.TypeAt` | src/memtest86/memsize.c:309-314 | the value bounds the type of every entry covering an address and, unless 0, is the type of one of them |
| `E820.TypeAtUnique` | src/memtest86/memsize.c:309-314 | no other value has that property, so "the largest type" is a definition and not one implementation of it |
| `E820.TypeAtEntry` | src/memtest86/memsize.c:285-336 | in an ascending map the type at an address is that of the one entry covering it |
| `Sanitize.RecordChangePoints` | src/memtest86/memsize.c:252-262 | every entry contributes exactly its start and its end point |
| `Sanitize.SortPass` | src/memtest86/memsize.c:267-282 | one bubble pass keeps the points and settles one more of them; it reports whether it swapped |
| `Sanitize.SortChangePoints` | src/memtest86/memsize.c:264-283 | the loop ends, with the same points in order, starts before ends at equal addresses |
| `Sanitize.RemoveOverlap` | src/memtest86/memsize.c:300-308 | overwriting with the last element and shortening removes exactly the ended entry from the overlap list |
| `Sanitize.UpdateOverlap` | src/memtest86/memsize.c:293-308 | through each change point the overlap list stays exactly the open entries |
| `Sanitize.LargestType` | src/memtest86/memsize.c:309-314 | the scan returns the largest type among the open entries |
| `Sweep.OpenCovers` | src/memtest86/memsize.c:290-308 | strictly between processed and unprocessed change points the open entries are those covering the address |
| `Sweep.OpenStep` | src/memtest86/memsize.c:293-308 | a change point adds or removes exactly its entry |
| `Sweep.FirstChangeStopsRun` | src/memtest86/memsize.c:316-334 | the first change point that changes the largest open type at an address really ends the run there, whatever later points at the same address do |
| `Sweep.FrontierBoundary` | src/memtest86/memsize.c:316-334 | once all change points at an address are done, an entry starts there exactly when the type changes to non-zero there or a dominating zero-size entry interrupts the run |
| `Sweep.Advance` | src/memtest86/memsize.c:291-335 | between two neighbouring change points nothing changes: the invariant holds up to the next one |
| `Sweep.CloseRun` | src/memtest86/memsize.c:317-327 | closing a run of non-zero size extends the output correctly up to the frontier |
| `Sweep.EmitMeaning` | src/memtest86/memsize.c:316-334 | emitting at the frontier keeps shape and meaning of the output, and a table that fills up is the sanitised map |
| `Sweep.Step` | src/memtest86/memsize.c:291-335 | one change point keeps the whole sweep invariant (sortedness, open entries, output, cursor), or fills the table |
| `Sweep.Finish` | src/memtest86/memsize.c:291-336 | after the last change point the output is the sanitised map |
| `Sanitize.EmitEntry` | src/memtest86/memsize.c:315-334 | the in-place update of output cursor and open entry does what the invariant needs, including overwriting a zero-size entry |
| `Sanitize.SweepChangePoints` | src/memtest86/memsize.c:285-336 | the sweep loop produces a map that meets the denotational specification |
| `Sanitize.SanitizeE820Map` | src/memtest86/memsize.c:178-337 | for every map: 0 entries when one wraps; otherwise ascending, disjoint, non-empty entries, at most E820MAX, that give every address below the horizon the largest type covering it and start exactly at its boundaries |
| `Canonical.Unique` | src/memtest86/memsize.c:178-337 | the sanitised map is determined by the meaning of the input |
| `Canonical.OrderIndependent` | src/memtest86/memsize.c:178-337 | it does not depend on order or multiplicity of the input entries |
| `Canonical.CanonicalIffNoSplit` | src/memtest86/memsize.c:323-334 | touching output entries differ in type exactly when no zero-size entry splits a run of the input |
| `Canonical.NoEmptyEntriesCanonical` | src/memtest86/memsize.c:178-337 | without zero-size entries the output is canonical |
| `Canonical.SelfSanitizedIffCanonical` | src/memtest86/memsize.c:178-337 | a map is its own sanitised form exactly when it is canonical |
| `Canonical.SanitizedTwice` | src/memtest86/memsize.c:178-337 | sanitising again changes nothing exactly when no zero-size entry splits a run below the horizon |
| `Canonical.SplitExample` | src/memtest86/memsize.c:323-334 | a zero-size reserved entry inside RAM does split the run |
| `Canonical.TouchingType` | src/memtest86/memsize.c:316-334 | an entry of an ascending map has the type of the byte below it exactly when an equal-typed entry touches it |
| `PageMap.Vars.ListEntry` | src/memtest86/memsize.c:117-139 | one sanitised entry is trimmed around 0xa0000-0xfffff, rounded and appended, with 64- and 32-bit truncation; the page total follows |
| `PageMap.Vars.ListEntries` | src/memtest86/memsize.c:114-142 | the loop lists exactly the words of the kept entries, and msegs and test_pages agree with them |
| `PageMap.Vars.MemSize820` | src/memtest86/memsize.c:96-143 | either a page map built from the sanitised map, or no change when there is no good map |
| `PageTheorems.PageWordsExact` | src/memtest86/memsize.c:133-134 | the stored words are the rounded bounds exactly when both fit 32 bits |
| `PageTheorems.PageWordsWrapExample` | src/memtest86/memsize.c:133-134 | an entry beyond 16 TiB is stored wrongly |
| `PageTheorems.EntryListsPage` | src/memtest86/memsize.c:117-134 | an entry lists a page exactly when it contains the whole page and, for a page of the hole, the whole hole |
| `PageTheorems.RoundedBounds` | src/memtest86/memsize.c:133-134 | an entry without a page boundary rounds to start = end + 1, never worse |
| `PageTheorems.PageListedIff` | src/memtest86/memsize.c:114-142 | a page is listed exactly when some usable sanitised entry contains it in that sense |
| `PageTheorems.ListedAscending` | src/memtest86/memsize.c:114-142 | listed ranges are ascending and disjoint |
| `PageTheorems.ClipSumCounts` | src/memtest86/config.c:17-53 | the clipped sum is the number of distinct listed pages inside the limits, less one per inverted range |
| `PageMap.Vars.AddSelected` | src/memtest86/config.c:19-52 | the branches of the loop body add the part of a range inside the limits |
| `PageMap.Vars.AdjMem` | src/memtest86/config.c:13-54 | selected_pages is the clipped sum modulo 2^32 |
| `PageTheorems.SelectedPagesCount` | src/memtest86/config.c:13-54 | that is the number of distinct selected pages exactly when no range inside the limits was inverted |
| `PageRuns.EntryIffRun` | src/memtest86/memsize.c:178-337 | the sanitised map lists exactly the maximal runs of the BIOS map that end at or below its horizon |
| `PageRuns.InvertedIff` | src/memtest86/memsize.c:133-135 | no listed range inside the limits is inverted exactly when no kept entry loses its page bounds there |
| `PageRuns.TestPagesRuns` | src/memtest86/memsize.c:96-143 | on the BIOS map: test_pages is the number of distinct listed pages exactly when every run of usable memory, trimmed, rounds to start <= end |
| `PageRuns.SelectedPagesRuns` | src/memtest86/config.c:13-54 | on the BIOS map: selected_pages is the number of distinct selected pages exactly when no run of usable memory inside the limits rounds to start > end |
| `PageRuns.ShortMap` | src/memtest86/memsize.c:178-337 | a BIOS map of at most 15 entries does not fill the table |
| `PageRuns.TestPagesOfMap` | src/memtest86/memsize.c:96-143 | for such a map below the last page of 16 TiB, on the map alone: test_pages is the number of distinct listed pages exactly when every run of usable memory, trimmed, rounds to start <= end |
| `PageRuns.LostPageExample` | src/memtest86/memsize.c:133-135 | sixteen bytes of RAM at 0x1001: listed as pages 2 to 1, that is no page, and the total becomes 2^32 - 1 |
| `PageTheorems.EntryIsRun` | src/memtest86/memsize.c:178-337 | every stretch of a sanitised entry is one run of one type of the BIOS map |
| `PageTheorems.RunIsEntry` | src/memtest86/memsize.c:178-337 | every run of the BIOS map below the horizon lies inside one sanitised entry of its type |
| `PageTheorems.ListedIffTestable` | src/memtest86/memsize.c:96-143 | end to end: a page is listed exactly when it is wholly one run of RAM or ACPI memory (and, in the hole, the whole hole is) |
| `PageTheorems.ListedPagesTestable` | src/memtest86/memsize.c:96-143 | end to end, also for a map cut off at the table size: everything listed is testable, in order and disjoint |
| `Windows.ComputeSegments` | src/memtest86/main.c:1090-1200 | the segments hold exactly the pages of the map that lie in the window and inside the limits, none is empty or leaves the window, and they are in ascending order and disjoint when the map's ranges are |
| `Windows.CoverMore` | src/memtest86/main.c:572-582 | a further window covers the next stretch of pages, once |
| `Windows.CoverSkip` | src/memtest86/main.c:588-591 | a window without segments leaves nothing out |
| `Windows.AppendHigh` | src/memtest86/main.c:558-591 | from window 1 on, what has been tested is exactly the selected pages up to the end of the window |
| `Windows.AppendLow` | src/memtest86/main.c:559-564 | the low window adds its pages and disturbs nothing |
| `Windows.FinishCovered` | src/memtest86/main.c:459-469 | when the loop stops, no selected page below the limit is left |
| `Windows.RunWindows` | src/memtest86/main.c:459-607 | run to completion: each selected page from 0x100 up to the reach of the windows is tested in exactly one window from number 1 on and nothing else is, their total is the page count of that set; all pages of such a window are of one and the same 0x80000, windows are tested lowest first, and the low window, which stays below its end, is used exactly when the source says and comes first |
| `Windows.OneWindow` | src/memtest86/main.c:556-578 | no segment leaves its window: those of the low window end at or below its end, those of the others lie in one stretch of 2 GB |
| `Windows.AppendInOrder` | src/memtest86/main.c:558-578 | every page of a further window comes after every page tested in a window from number 1 on before |
| `Windows.AllTestedIff` | src/memtest86/main.c:459 | every selected page from 0x100 to the end of the windows is tested exactly when the 32-bit sum in the loop test does not wrap, or nothing is selected past the first 2 GB |
| `Windows.HighMapListed` | src/memtest86/memsize.c:96-143 | the map with RAM from 4 to 6 GB and one page near 16 TiB is its own sanitised form, and what pages it lists |
| `Windows.HighPageUntested` | src/memtest86/main.c:459 | from that map, with the limits set to all of it: the loop test wraps and the selected page at 4 GB is not tested |
| `Windows.TestedAreSelected` | src/memtest86/main.c:459-607 | the pages tested window by window, plus the selected pages below 0x100, are selected_pages exactly when no range inside the limits is inverted |
| `Barrier.InitInv` | src/memtest86/smp.c:30-40 | the initial structure satisfies the invariant, for every number of CPUs from 2 |
| `Barrier.StepInv` | src/memtest86/smp.c:51-73 | every step of every CPU, interleaved in any order, keeps the invariant relating counter, gates, lock and program counters |
| `Barrier.StepCount` | src/memtest86/smp.c:58-67 | the counter always equals maxproc less the CPUs between its decrement and increment |
| `Barrier.StepLock` | src/memtest86/smp.c:57-71 | the lock is free exactly when no CPU holds it |
| `BarrierTheorems.RunInv` | src/memtest86/smp.c:51-73 | the invariant holds in every state of every run |
| `BarrierTheorems.BarrierSafe` | src/memtest86/smp.c:51-73 | no CPU returns from its g-th call before all have made it, and none decrements the counter for the next round until all have left this one |
| `BarrierTheorems.NoDeadlock` | src/memtest86/smp.c:51-73 | with every CPU inside the call, some CPU can take a step that is not a spin |
| `BarrierTheorems.StuckShape` | src/memtest86/smp.c:56-66 | when every CPU in the call spins, all of those inside have arrived and the barrier waits for the others |
| `BarrierTheorems.InternalStep` | src/memtest86/smp.c:56-71 | every step inside the call uses up a measure |
| `BarrierTheorems.InternalRunKeeps` | src/memtest86/smp.c:56-71 | such steps make no new calls and stay within the measure |
| `BarrierTheorems.RoundCompletes` | src/memtest86/smp.c:56-71 | once all have called, a bounded number of steps leads to all having left, with count == maxproc, st1 == 1 and st2 == 0 |
| `BarrierTheorems.RefinesRendezvous` | src/memtest86/smp.c:51-73 | every step is a step of an atomic N-way rendezvous or invisible to it |
| `BarrierTheorems.AllCalled` | src/memtest86/smp.c:58-60 | when the counter reaches 0 every CPU is in its call of the current round |
| `Netascii.FillIsRest` | src/atftp/tftp_rfile.c:204-229 | a block is the next stretch of the encoding, as long as the buffer allows, and the escape state left behind owes exactly the rest |
| `Netascii.BlocksAreEncoding` | src/atftp/tftp_rfile.c:204-231 | blocks read until one comes back short are full except the last and concatenate to the encoding, for every file and block size |
| `Netascii.AtEndIffOnlyPending` | src/atftp/tftp_rfile.c:68-71 | end of file is reported exactly when nothing but a pending escape byte is left |
| `Netascii.ServerSendsEncoding` | src/atftp/tftpd_file.c:394-420 | the blocks up to rfileFeof are the whole encoding exactly when no block boundary cuts the last escape pair |
| `Netascii.LastServerBlock` | src/atftp/tftpd_file.c:401-403 | what the last block contains in either case |
| `Netascii.ServerStopsEarly` | src/atftp/tftpd_file.c:401-403 | for every block size: ordinary bytes for a block less one, and LF, are sent with CR in place of the line end |
| `Netascii.AfterOwes` | src/atftp/tftp_rfile.c:204-231 | after b blocks the reader owes exactly the escape byte that position b * size of the encoding cuts off |
| `Netascii.RereadFaithful` | src/atftp/tftp_rfile.c:192-198 | reading block b again repeats it and leaves the rest as it was exactly when the positions b * size and (b + 1) * size of the encoding cut off the same escape byte, or none |
| `Netascii.RereadGarbles` | src/atftp/tftp_rfile.c:192-198 | for every block size: such a line, with anything after it, comes out of a second read of its first block with LF in front |
| `Netascii.LineOfEightExample` | src/atftp/tftpd_file.c:191-201 | both failures on seven ordinary bytes and LF, with the smallest block size that is accepted |
| `Netascii.WriterDecodes` | src/atftp/tftp_io.c:486-509 | seeking back and overwriting writes exactly the decoding of every byte stream |
| `Netascii.DecodeEncode` | src/atftp/tftp_io.c:486-509 | decoding undoes encoding |
| `Netascii.WriteConcat` | src/atftp/tftp_io.c:486-512 | the decoder state carries a pair across a block boundary |
| `Netascii.WriteBlocksConcat` | src/atftp/tftp_io.c:452-516 | writing blocks one by one equals writing their concatenation |
| `Netascii.NetasciiRoundTrip` | src/atftp/tftp_io.c:452-516 | blocks of any size read in order and written in order reproduce the file |
| `RFile.RFile.Getc` | src/atftp/tftp_rfile.c:101-111 | the byte at the position and a step, or EOF and no step |
| `RFile.RFile.Seek` | src/atftp/tftp_rfile.c:118-124 | the position, clamped to the end |
| `RFile.RFile.Read` | src/atftp/tftp_rfile.c:126-143 | copies as much as is left, at most what was asked for, and nothing beyond it in the buffer |
| `RFile.RFile.RfileRead` | src/atftp/tftp_rfile.c:148-234 | octet: the block of that number; netascii: the next block of the encoding, or the same again from the remembered position; otherwise ERR and no change |
| `RFile.RFile.Convert` | src/atftp/tftp_rfile.c:204-231 | the in-place loop computes the block the functional reader specifies |
| `RFile.SendNetascii` | src/atftp/tftpd_file.c:394-420 | reading blocks through the packed escape state until rfileFeof sends exactly the blocks that ServerSendsEncoding is about |
| `RFile.UnpackPack` | src/atftp/tftp_rfile.c:159-160 | packing the escape state into an int and unpacking it loses nothing |
| `RFile.OutFile.SeekBack` | src/atftp/tftp_io.c:493 | one byte back, as fseek(fp, -1, SEEK_CUR) |
| `RFile.OutFile.DecodeByte` | src/atftp/tftp_io.c:488-508 | one byte is decoded in place as the specification says |
| `RFile.OutFile.Decode` | src/atftp/tftp_io.c:482-514 | the loop decodes a block in place and leaves the state for the next |
| `RFile.OutFile.FileWrite` | src/atftp/tftp_io.c:452-516 | octet: at the place of its number; netascii: decoded at the end, repeated blocks ignored, others refused |
| `RFile.OctetReassembly` | src/atftp/tftp_io.c:459-467 | octet blocks written in any order, any number of times, give the file once each has been written |
| `Sender.TftpSender.constructor` | src/atftp/tftpd_file.c:107-140 | the initial variables of the send loop |
| `Sender.TftpSender.OnePass` | src/atftp/tftpd_file.c:355-677 | one pass over the state variables, buffer and file position does exactly what the transition function says and sends exactly that packet; what the function means over whole runs is the subject of Transfer and Timeouts |
| `Sender.AckNumberTrueIff` | src/atftp/tftpd_file.c:542-557 | an acknowledgement of the current or next block yields its true number and an offset of 65536 times its quotient, exactly when it is not a repeated 0 |
| `Transfer.StartInv` | src/atftp/tftpd_file.c:107-140 | the start satisfies the invariant |
| `Transfer.ServerPassInv` | src/atftp/tftpd_file.c:379-485 | sending, retransmitting, giving up: every other pass of the server keeps it |
| `Transfer.ServerAckInv` | src/atftp/tftpd_file.c:542-557 | taking an acknowledgement that is not a repeated 0 keeps it |
| `Transfer.ClientReceiveInv` | src/atftp/tftpd_file.c:394-420 | a lock-step client receiving anything in transit keeps it |
| `Transfer.StepInv` | src/atftp/tftpd_file.c:355-677 | every step, including loss and repetition of packets, keeps it |
| `Transfer.RunInv` | src/atftp/tftpd_file.c:355-677 | it holds throughout every run without a repeated acknowledgement 0 |
| `Transfer.EndAtLastBlock` | src/atftp/tftp_rfile.c:68-71 | reading a block reaches end of file exactly for the last block |
| `Transfer.LastBlockShortIff` | src/atftp/tftpd_file.c:401-403 | the last block is short, as section 6 of RFC 1350 needs, exactly when the file is empty or not a multiple of the block size |
| `Transfer.RunDeliversIff` | src/atftp/tftpd_file.c:542-557 | files of any length: a run delivers in all its states exactly when the server is never handed a repeated acknowledgement 0 |
| `Transfer.SmallTransferSafe` | src/atftp/tftpd_file.c:355-677 | delivery in every state of every run, for files of at most 65536 blocks |
| `TransferRuns.LosslessDelivers` | src/atftp/tftpd_file.c:355-677 | when nothing is lost the transfer ends on the last acknowledgement, with the whole file at the client |
| `TransferRuns.RepeatedZeroShortens` | src/atftp/tftpd_file.c:545-555 | for every file of more than 65536 blocks there is a run in which the acknowledgement of block 65536 is counted twice and the server ends as if all had been acknowledged, with the client short of the file |
| `TransferRuns.DeliveryIff` | src/atftp/tftpd_file.c:542-557 | in every run a server that ends on an acknowledgement leaves a client with the whole file, exactly when the file has at most 65536 blocks |
| `Timeouts.RunCounted` | src/atftp/tftpd_file.c:426-440 | in every state of every run the count of timeouts is the number of timeout events since the last acknowledgement, or since the start, and a waiting server would send again the last packet it put on the wire |
| `Timeouts.GivesUpIff` | src/atftp/tftpd_file.c:427-435 | a timeout ends the transfer exactly when it is at least the sixth since the last acknowledgement, or since the start |
| `Timeouts.RepeatsLast` | src/atftp/tftpd_file.c:379-485 | after any other timeout the next pass puts the packet sent last on the wire again, and waits |
| `Timeouts.OackUntilAnswered` | src/atftp/tftpd_file.c:366-424 | a pass sends one packet or none; with options it is the option acknowledgement exactly until the first acknowledgement is taken, without options never |
| `Timeouts.AbortedIff` | src/atftp/tftpd_file.c:559-624 | over a run: the server has aborted exactly when it has heard of an ERROR packet or an error of the socket while waiting |
| `Timeouts.OverForGood` | src/atftp/tftpd_file.c:631-677 | once a transfer has ended or been aborted the server makes no pass, takes no acknowledgement and never changes again |
| `Chunks.ChunkSize` | src/memtest86/test.c:51-59 | 32-bit arithmetic yields the rounded share of the segment |
| `Chunks.CalculateChunk` | src/memtest86/test.c:38-75 | the two bounds in 32-bit words are those of the CPU's part |
| `Chunks.ChunkFits` | src/memtest86/test.c:48-74 | the parts fit the segment |
| `Chunks.SkipApart` | src/memtest86/test.c:63 | the parts of two CPUs are at least a chunk apart |
| `Chunks.ChunkNonEmptyIff` | src/memtest86/test.c:56-59 | a chunk is non-empty exactly when the segment has one multiple for every CPU |
| `Chunks.PartsPartition` | src/memtest86/test.c:38-75 | every dword of the segment lies in the part of exactly one CPU and nothing else does |
| `Chunks.PartIsRange` | src/memtest86/test.c:48-74 | with 256-byte granularity every part is a non-empty multiple of 32 dwords |
| `Parts.MappedSegment` | src/memtest86/main.c:1162-1177 | a range of pages of one window, mapped, is a segment of whole pages, or of whole pages less the first 0x500 bytes |
| `Parts.TestedSegment` | src/memtest86/main.c:459-607 | every segment of every window that the schedule tests, wherever its window is mapped, is such a segment |
| `Parts.NoOddShare` | src/memtest86/test.c:51-73 | up to eight CPUs: no share of a segment of whole pages, nor of one that starts at 0x500, is one or two dwords more than whole spans |
| `Parts.PartTiled` | src/memtest86/test.c:38-75 | on the segments that compute_segments maps and at most 32 CPUs, movinv1's spans tile every part |
| `Parts.PartStrides` | src/memtest86/test.c:38-75 | there modtst's strides fit every part |
| `Parts.PartBlocks` | src/memtest86/test.c:38-75 | there block_move gets whole 64-byte blocks, at least one |
| `Parts.PartPeriodsIff` | src/memtest86/test.c:38-75 | there movinv32 gets whole pattern periods exactly when the segment has 256 bytes for every CPU, or the CPU is the master; otherwise an empty part at the start of the segment |
| `PartTests.GiveParts` | src/memtest86/test.c:38-75 | the bounds handed out in 32-bit words, segment by segment |
| `PartTests.PartsApart` | src/memtest86/test.c:38-75 | a CPU's parts of different segments do not overlap |
| `Patterns.WalkingOneReversible` | src/memtest86/test.c:694-981 | shifting right undoes shifting left through all 32 phases of the walking one |
| `Patterns.WalkingZeroReversible` | src/memtest86/test.c:694-981 | and of the walking zero |
| `Patterns.WalkingOneIsBit` | src/memtest86/test.c:742-765 | phase k of the walking one is bit k |
| `Patterns.WalkingZeroIsComplement` | src/memtest86/test.c:742-765 | phase k of the walking zero is its complement |
| `MovInv.StepUp` | src/memtest86/test.c:749-758 | phase and pattern move up by one |
| `MovInv.StepDown` | src/memtest86/test.c:939-948 | phase and pattern move down by one |
| `MovInv.SweptJoin` | src/memtest86/test.c:694-981 | adjacent stretches handled one after the other, in either direction, make one stretch, and errors add up |
| `MovInv.Dword` | src/memtest86/test.c:815-866 | one dword is compared with, and written with, the word of its phase, or its complement; what is then in it depends on its faults |
| `MovInv.UpSpan` | src/memtest86/test.c:742-765 | the inner upward loop handles exactly its span and leaves phase and pattern for the next |
| `MovInv.DownSpan` | src/memtest86/test.c:924-977 | so does the downward loop |
| `MovInv.NextUpMoves` | src/memtest86/test.c:715-727 | span bounds move by whole multiples of 32 dwords without wrapping, and no span is a single dword |
| `MovInv.NextDownMoves` | src/memtest86/test.c:890-906 | so do those of the downward sweep |
| `MovInv.UpRange` | src/memtest86/test.c:704-766 | span by span, an upward sweep handles every dword of the range once and returns to its phase |
| `MovInv.DownRange` | src/memtest86/test.c:882-978 | so does a downward sweep, whose pattern carries over |
| `MovInv32.UpPass` | src/memtest86/test.c:704-870 | over all segments, parts empty or not, whatever faults: everything handled has been written with the pattern or its complement, and no error exactly when all of it held the pattern before |
| `MovInv32.TurnAround` | src/memtest86/test.c:872-879 | the pattern recomputed between the passes is that of the last dword |
| `MovInv32.EndPhase` | src/memtest86/test.c:882-979 | whatever phase is carried, it is that of the last dword for some offset, and for the offset of the upward passes when no part is empty |
| `MovInv32.DownPass` | src/memtest86/test.c:881-979 | over all segments, last to first, whatever faults: with no part empty and the phase of the upward passes, the pattern is written back, and no error exactly when its complement was there; the first dword of an empty part is left alone |
| `MovInv32.MovInv32` | src/memtest86/test.c:694-981 | for any list of parts, empty or not, and any faults that depend on dword and word only: with no part empty, no error exactly when every dword takes the pattern of its phase and its complement (or nothing was iterated), the pattern of its phase written to every dword and nothing else touched; on fault-free memory, from two iterations on, no error exactly when no part is empty; at most the dword below each empty part is touched besides |
| `PartTests.MovInv32OnParts` | src/memtest86/test.c:694-981 | on the parts of real segments: when every segment has 256 bytes for every CPU, or the CPU is the master, no error exactly when every dword of the parts takes the pattern of its phase and its complement (or nothing was iterated); otherwise errors even on fault-free memory, from two iterations on |
| `EmptyPart.MovInv32EmptyPart` | src/memtest86/test.c:694-981 | a single empty part: the first dword of the segment and the one below the segment are overwritten, and errors are reported unless there is no iteration, or one and that dword happens to hold the complement |
| `EmptyPart.EmptyPartExample` | src/memtest86/test.c:56-73 | one page and 17 CPUs: the part of the first CPU is empty |
| `MovInv1.TiledIff` | src/memtest86/test.c:496-692 | upward and downward spans each handle exactly the dwords of a range precisely when its dword count less one is 1, or not 0 or 1 modulo SPINSZ |
| `MovInv1.UpSpan` | src/memtest86/test.c:583-615 | the inner upward loop handles exactly its span |
| `MovInv1.DownSpan` | src/memtest86/test.c:655-687 | so does the downward one |
| `MovInv1.UpStep` | src/memtest86/test.c:560-573 | where the bound moves, and that p == pe happens only where the sweep then ends |
| `MovInv1.UpSweep` | src/memtest86/test.c:551-617 | an upward sweep handles exactly the dwords below its end, which misses the last dword of some ranges |
| `MovInv1.DownStep` | src/memtest86/test.c:628-645 | where the bound moves downward, and when the next span would start below its bound |
| `MovInv1.DownSweep` | src/memtest86/test.c:619-689 | a downward sweep handles exactly the dwords from its end up, or runs out of the range |
| `MovInv1.UpPass` | src/memtest86/test.c:551-618 | over all segments, whatever faults: on tiled ranges no error exactly when every dword takes the word checked for |
| `MovInv1.DownPass` | src/memtest86/test.c:619-690 | over all segments, or out of a range exactly when one overruns; the same about errors |
| `MovInv1.MovInv1` | src/memtest86/test.c:496-692 | with all ranges tiled, whatever faults that depend on dword and word only: it stays inside, reports no error exactly when every dword takes both patterns (or nothing was iterated), and writes the first pattern everywhere and nothing elsewhere; otherwise it leaves a range, or the first dword of an untiled range ends untested or with the second pattern |
| `PartTests.MovInv1OnParts` | src/memtest86/test.c:496-692 | on the parts of real segments, without any assumption on their lengths: the same; on fault-free memory no error and the first pattern in all of them |
| `PartTests.AllCpusCover` | src/memtest86/test.c:496-692 | once every CPU has run movinv1, one after another in any order, the first pattern has been written to every dword of every segment, and on fault-free memory they all hold it |
| `PartTests.AllCpusDetectIff` | src/memtest86/test.c:496-692 | none of the CPUs has a fault in its parts exactly when every dword of every segment takes both patterns: no fault falls between the parts |
| `ModTst.SpanStop` | src/memtest86/test.c:1027-1038 | the stride loop stops at the first stride at or past its bound, after at least one |
| `ModTst.StopInside` | src/memtest86/test.c:999-1039 | no stride starts past the end of the range |
| `ModTst.ClassStrided` | src/memtest86/test.c:999-1039 | every 20th dword from the offset on, up to the adjusted end, is on the strides |
| `ModTst.TailStrided` | src/memtest86/test.c:999-1039 | past the adjusted end, exactly the one dword that a stride from below the last span bound reaches |
| `ModTst.GridInsideIff` | src/memtest86/test.c:1000-1003 | the strides stay inside a range exactly when it reaches as far as the offset |
| `ModTst.GridSpan` | src/memtest86/test.c:1027-1038 | the inner loop handles exactly the strides from p up to the first one at or past its bound, which it leaves for the next span |
| `ModTst.GridSweep` | src/memtest86/test.c:999-1039 | filling and checking handle the very same dwords of a range |
| `ModTst.RestSpan` | src/memtest86/test.c:1077-1098 | k equals the distance from the start modulo 20, so exactly the dwords off the grid are written |
| `ModTst.RestSweep` | src/memtest86/test.c:1044-1100 | across all spans, no dword of the grid class is written |
| `ModTst.RestPass` | src/memtest86/test.c:1043-1101 | once over all segments |
| `ModTst.ModTst` | src/memtest86/test.c:986-1168 | whatever faults that depend on dword and word only: an error exactly when some 20th dword does not take the first pattern, nothing outside the ranges changed, and the final content of every dword, literally: every 20th one from the offset on has been written with the first pattern, except where no stride reaches among the last 20, and those between with the second; any iterations, patterns and offset |
| `PartTests.ModTstOnParts` | src/memtest86/test.c:986-1168 | on the parts of real segments: the same, up to the last dword |
| `BlockMove.RepMovs` | src/memtest86/test.c:1314-1319 | a block copy between regions that do not overlap; with faults, what changes has been written and nothing else changes |
| `BlockMove.FillBlocks` | src/memtest86/test.c:1213-1256 | every block holds the 16-dword pattern of its rotated eax, and all pairs are equal, on fault-free memory |
| `BlockMove.RolledIsRing` | src/memtest86/test.c:1216-1252 | eax of block k, starting from 1 and any carry flag, is bit k of a ring of 33 places, with the carry bit one place behind |
| `BlockMove.MoveRound` | src/memtest86/test.c:1301-1339 | one round puts the first half into the second and its rotation by 8 dwords into the first |
| `BlockMove.OneMoreRound` | src/memtest86/test.c:1298-1340 | the closed form goes from t to t+1 rounds |
| `BlockMove.MoveSpan` | src/memtest86/test.c:1298-1340 | after t >= 1 rounds the first half is the original one rotated by 8t dwords and the second half rotated by 8(t-1) |
| `BlockMove.RotateMore` | src/memtest86/test.c:1321-1335 | rotating by 8 more is two block copies |
| `BlockMove.MovedPairs` | src/memtest86/test.c:1298-1340 | equal pairs stay equal |
| `BlockMove.FillRange` | src/memtest86/test.c:1184-1257 | the fill reaches every dword of the range and nothing outside; on fault-free memory each span, cut where the overflow tests put it, holds blocks of 16 dwords given literally, from the ring that starts at 1 |
| `BlockMove.SpanEndMoves` | src/memtest86/test.c:1274-1296 | span ends are block boundaries and move towards the end of the range |
| `BlockMove.MoveRange` | src/memtest86/test.c:1265-1342 | every span of the range goes through all its rounds, and pairs stay equal, on fault-free memory; nothing outside changes on any |
| `BlockMove.CheckBounds` | src/memtest86/test.c:1360-1376 | the drifting bound of the check never leaves the range and never skips a pair |
| `BlockMove.CheckSpan` | src/memtest86/test.c:1378-1413 | the inner check compares every pair up to the first at or past its bound |
| `BlockMove.CheckRange` | src/memtest86/test.c:1350-1414 | the check counts no error exactly when all pairs of the range are equal |
| `BlockMove.CheckPass` | src/memtest86/test.c:1344-1415 | the check of all segments counts no error exactly when all pairs are equal |
| `BlockMove.UnequalPairFound` | src/memtest86/test.c:1344-1415 | a pair of dwords that can hold no word in common is never equal in the end, and so is reported |
| `BlockMove.BlockMoveTest` | src/memtest86/test.c:1174-1416 | whatever faults that depend on dword and word only: an error exactly when some pair differs in the end, every dword of the ranges holds what a write left there, nothing outside changes; on fault-free memory no error, and every range has first been filled with the blocks given literally and then had every span through all its rounds, in closed form |
| `PartTests.BlockMoveOnParts` | src/memtest86/test.c:1174-1416 | on the parts of real segments: the same |
| `Clients.NextUnique` | src/atftp/tftpd_list.c:290-333 | the result of the circular search is determined |
| `Clients.OtherIff` | src/atftp/tftpd_list.c:290-333 | it finds somebody exactly when a client other than the current one is not done |
| `Clients.SockaddrEqualIff` | src/atftp/tftp_def.c:224-248 | two addresses are equal exactly when host and port are; an unspecified one equals nothing |
| `Clients.WaitingIff` | src/atftp/tftpd_list.c:172-186 | a client waits in a list exactly when some entry not done has its host and port |
| `Clients.ServerThread.ClientlistDone` | src/atftp/tftpd_list.c:249-280 | marks exactly the given client, or the first with the address; the result says whether there was one |
| `Clients.ServerThread.ClientlistNext` | src/atftp/tftpd_list.c:290-333 | ends, with the first client not done in circular order, or the only one itself, or nobody; in the last case alone the list is closed |
| `Clients.ServerThread.Append` | src/atftp/tftpd_list.c:172-192 | appends at the end, unless the address is already waiting; an unspecified address is equal to none |
| `Threads.ThreadList.ListAdd` | src/atftp/tftpd_list.c:50-77 | the list stays doubly linked, gains the thread at the end, and the counter is its length |
| `Threads.ThreadList.ListRemove` | src/atftp/tftpd_list.c:82-116 | the list stays doubly linked and loses exactly that thread |
| `Threads.ThreadList.FindServer` | src/atftp/tftpd_list.c:157-198 | finds the first other thread that is ready and has the same options up to the multicast option |
| `Threads.ThreadList.EligibleIff` | src/atftp/tftpd_list.c:149-167 | a thread may take a client over exactly when it is another one, ready, and its options begin with the same text up to the multicast option, whatever follows |
| `Threads.ThreadList.FindMulticastServerAndAdd` | src/atftp/tftpd_list.c:136-202 | that thread alone takes the client over, or has its address waiting already; without one nothing changes |
| `Handover.StepInv` | src/atftp/tftpd_file.c:364-677 | every branch of the loop and every joining client keep the invariant: each client is done for one recorded cause or waiting, the list is open while somebody is served and closed with everybody done at the normal end |
| `Handover.CourseInv` | src/atftp/tftpd_file.c:364-677 | it holds in every state of every run |
| `Handover.CourseGrows` | src/atftp/tftpd_list.c:172-192 | clients keep their places, stay done, and the cause recorded for each does not change; addresses may |
| `Handover.EverybodyMarked` | src/atftp/tftpd_file.c:631-659 | whoever was listed at any time of a run that ended normally has been marked done, for one cause; whether it got the file is the subject of Multicast |
| `Handover.AdvanceEndsIff` | src/atftp/tftpd_file.c:640-659 | the thread ends exactly when everybody is done; otherwise it serves somebody not done |
| `Handover.ClosedForGood` | src/atftp/tftpd_list.c:327-332 | nothing can join afterwards |
| `Handover.SwitchAbortsIff` | src/atftp/tftpd_file.c:442-474 | with client switching, a timeout gives up exactly when its client is the last one waiting in a list of several |
| `Handover.StepWaitsOnceIff` | src/atftp/tftp_io.c:336-337 | a step makes an address wait twice exactly when it is a packet from a client waiting elsewhere in the list |
| `Handover.CourseWaitsOnceIff` | src/atftp/tftp_io.c:336-337 | over a run, no address has waited twice exactly when no packet has come from a client waiting elsewhere in the list |
| `HandoverTimeouts.CourseCounted` | src/atftp/tftpd_file.c:426-485 | in every state of every run the count of timeouts is the number of timeout events since the last acknowledgement by anybody, or since the start |
| `HandoverTimeouts.TimeoutEndsIff` | src/atftp/tftpd_file.c:427-485 | a timeout gives a client up exactly when it is at least the sixth since then; otherwise, unless another client is taken or the thread aborts, the server goes back to send what it sent last |
| `HandoverTimeouts.NextGivenUpIff` | src/atftp/tftpd_file.c:427-435 | the next client is given up at its first timeout exactly when at least five timeouts have passed since the last acknowledgement |
| `Multicast.AckEndsIff` | src/atftp/tftpd_file.c:542-557 | files below 65536 blocks: which acknowledgements, from whomever, end the current transfer: the last block is known, and the number is that of the last block, or an offset is left over, or it is 0 after other blocks |
| `Multicast.DeliveredStep` | src/atftp/tftpd_file.c:355-659 | a step keeps delivery exactly when it is no mistaken acknowledgement: one that ends the transfer and comes from the client itself with a smaller number, or from another while the client lacks a block |
| `Multicast.CourseDeliversIff` | src/atftp/tftpd_file.c:355-659 | over a run: every client marked done because a transfer was acknowledged to the end holds the file, up to any state, exactly when no acknowledgement was mistaken before it |
| `MulticastRuns.SecondClientLost` | src/atftp/tftpd_file.c:640-652 | for every such file there is a run in which a second client, holding nothing, answers with 0 and is marked done as served, because the loop variables are not reset |
| `MulticastRuns.OneClientIff` | src/atftp/tftpd_file.c:640-652 | delivery in every run with at most n clients, and packets from listed clients only, exactly when n <= 1 |
| `MulticastRuns.FirstClientTwice` | src/atftp/tftpd_file.c:339-346 | a first client that repeats its request before its first packet arrives is listed twice, and both entries then have its address |
| `MulticastRuns.AnotherAcknowledges` | src/atftp/tftp_io.c:336-337 | for every such file there is a run in which the first client, holding nothing, is marked done for the acknowledgements of the second |
| `MulticastRuns.AnotherFails` | src/atftp/tftp_io.c:336-337 | the ERROR of a waiting client marks the one being served done instead |
| `MulticastRuns.LastClientAborted` | src/atftp/tftpd_file.c:442-474 | a run in which switching gives up on the last waiting client |
| `MulticastRuns.GivenUpAtOnceIff` | src/atftp/tftpd_file.c:427-435 | from one client to the next: the next is given up at its first timeout exactly when 5 or more timeouts had been counted |
| `MulticastRuns.GivenUpAtOnce` | src/atftp/tftpd_file.c:427-435 | a run in which that happens, after a client that never answered |
| `MulticastThread.MulticastServer.constructor` | src/atftp/tftpd_file.c:338-346 | the thread with its first client, whose address has been made unspecified, its list open, in the initial state of the hand-over |
| `MulticastThread.MulticastServer.TakeOver` | src/atftp/tftpd_list.c:172-192 | another thread's client joins |
| `MulticastThread.MulticastServer.MarkCurrent` | src/atftp/tftpd_file.c:634-636 | S_END marks the current client done: a step of the hand-over |
| `MulticastThread.MulticastServer.NextClient` | src/atftp/tftpd_file.c:640-659 | the next client, with the file rewound and every other variable kept, or the end: a step of the hand-over |
| `MulticastThread.MulticastServer.GetPacket` | src/atftp/tftp_io.c:331-337 | every packet received puts its sender's address into the current client, so that the tests at tftpd_file.c:490 and 564 never tell the two apart |
| `MulticastThread.MulticastServer.TakeAck` | src/atftp/tftpd_file.c:486-557 | an acknowledgement from anybody is adopted: a step of the hand-over, after which the count of timeouts starts again (HandoverTimeouts.CourseCounted) |
| `MulticastThread.MulticastServer.TakeError` | src/atftp/tftpd_file.c:559-611 | an ERROR from anybody ends the current client: a step of the hand-over |
| `MulticastThread.MulticastServer.OnTimeout` | src/atftp/tftpd_file.c:426-485 | gives up, switches or tries again: a step of the hand-over |
| `MulticastThread.MulticastServer.SwitchClient` | src/atftp/tftpd_file.c:442-482 | the next client, the same one, or abortion: a step of the hand-over |
| `Tokens.WordsEquations` | src/ipxe/src/core/exec.c:121-144 | three equations that determine the words of every text |
| `Tokens.SplitCommand` | src/ipxe/src/core/exec.c:121-144 | both passes count the words; the second blanks white space with NULs and leaves a pointer to every word |
| `Tokens.SplitJoinIff` | src/ipxe/src/core/exec.c:358-383 | splitting joined arguments returns them exactly when each is non-empty and free of white space |
| `Tokens.Append` | src/ipxe/src/core/exec.c:375-379 | one sprintf step |
| `Tokens.ConcatArgs` | src/ipxe/src/core/exec.c:358-383 | the arguments joined by single spaces, in a buffer sized beforehand and never overrun |
| `Shell.CommandTerminator` | src/ipxe/src/core/exec.c:183-210 | the first operator before any comment, or none, and how many tokens precede it |
| `Shell.CommandShell.ShellStopped` | src/ipxe/src/core/exec.c:227-238 | tests and consumes the stop state |
| `Shell.CommandShell.ExpandTokens` | src/ipxe/src/core/exec.c:248-265 | all tokens expanded, or failure when one cannot be |
| `Shell.CommandShell.Execv` | src/ipxe/src/core/exec.c:60-108 | an empty command succeeds and does nothing; otherwise the first command of that name in the table is run, and -ENOEXEC with nothing changed when there is none |
| `Shell.Turn` | src/ipxe/src/core/exec.c:308-341 | one turn of the loop takes the first command off the line |
| `Shell.JoinedLines` | src/ipxe/src/core/exec.c:308-341 | two lines joined by an operator: the second continues from the outcome of the first |
| `Shell.Sequenced` | src/ipxe/src/core/exec.c:308-341 | lines separated by a semicolon are evaluated one after the other, unless the first ends early |
| `Shell.AndThen` | src/ipxe/src/core/exec.c:152-199 | a command after `&&` is evaluated exactly when what precedes it has returned 0 and has not ended the line |
| `Shell.OrElse` | src/ipxe/src/core/exec.c:158-195 | a command after two bars is evaluated exactly when what precedes it has failed and has not ended the line |
| `Shell.PlainIff` | src/ipxe/src/core/exec.c:183-210 | the operators are the three tokens of the source and no other |
| `Shell.OneCommand` | src/ipxe/src/core/exec.c:60-108 | a line without operators is one command: the first of its name is run once, with the expanded tokens, its status is that of the line, which ends there when the command leaves a stop state; an unknown one has no effect but -ENOEXEC |
| `Shell.ExpansionFails` | src/ipxe/src/core/exec.c:308-320 | when a token cannot be expanded the line ends with -ENOMEM and nothing is run |
| `Shell.NotStopped` | src/ipxe/src/core/exec.c:328-331 | after a command that did not end the line the stop state is 0, so a skipped command cannot stop it |
| `Shell.CommentInert` | src/ipxe/src/core/exec.c:189-191 | everything from a comment on is without effect |
| `Shell.CommentCut` | src/ipxe/src/core/exec.c:189-191 | a line is cut off at the first token that starts with a hash sign, and only there |
| `Shell.CommandShell.System` | src/ipxe/src/core/exec.c:287-347 | the flat token loop equals the big-step evaluation of the left-associative tree: same state, same status, also when expansion fails or a stop is requested; what that evaluation means is stated token by token in Sequenced, AndThen, OrElse, OneCommand, ExpansionFails and CommentCut |

## Left out

- `memsize_801`, `mem_size`: BIOS 88/801 fallback and glue; only easy arithmetic.
- `sort_pmap`: it reads and writes index -1 of the page map, also for a map already in order, so there is nothing it can be proved to do; the model uses the order `memsize_820` leaves.
- PageTheorems.PageListedIff: for kept entries whose page bounds fit 32 bits; which ones do not is `PageTheorems.PageWordsExact`.
- PageTheorems.ListedAscending: the same; wrapped words need not be in order.
- PageTheorems.ListedIffTestable: BIOS maps below the last page of 16 TiB, the same condition on the map itself.
- PageTheorems.ListedPagesTestable: the same.
- PageRuns.InvertedIff: for kept entries whose page bounds fit 32 bits, like `PageTheorems.PageListedIff`.
- PageRuns.TestPagesRuns: the same; up to the horizon of the sanitised map, beyond which nothing is listed (`PageRuns.TestPagesOfMap` is on the BIOS map alone).
- PageRuns.SelectedPagesRuns: the same.
- PageRuns.TestPagesOfMap: at most 15 entries, which is enough for the table not to fill, and none reaching the last page below 16 TiB.
- PageMap.Vars.AddSelected: says nothing about limits in the wrong order, which nothing in the repository sets (`main.c` sets them to 0 and the end of the map), nor about ranges inverted by more than one page, which `memsize_820` lists for no entry below 16 TiB.
- PageMap.Vars.AdjMem: the same.
- Windows.RunWindows: relocation (`run_at`), `map_page` failure and CPU selection are not modelled; one CPU's view, the barriers between the CPUs being the subject of `Barrier`. The USB adjustment of the first segment to 0x500 is in `Parts`.
- Barrier.StepInv: `smp.h` is not part of this model; `spin_wait` is taken to pass when the word is not 0, `spin_lock` to take 1 to 0 atomically, `spin_unlock` to store 1, and memory to be sequentially consistent. `s_barrier` has the same body and is not repeated; calls of it by CPUs not counted in `s_maxproc` are not modelled.
- APIC start-up, `parse_madt`, timing, cache control, paging and display: hardware and I/O.
- Transfer.RunDeliversIff: the block number is an unbounded integer, so files whose index overflows `int` are not covered; channels keep their order and may lose and repeat packets; the socket is connected, so packets come from the client only (`checkport` has no effect, as the sender has already been copied over the client's address); `tftpd_cancel` is not set.
- Sender.TftpSender.OnePass: octet mode and one client; netascii sending is `RFile.SendNetascii`, the multicast branches are `MulticastThread`. Option parsing and the file-size check are left out (`options.c` is not part of this model, and the size it tests is never filled in).
- RFile.OutFile.FileWrite: writes do not fail; `fputc` returning EOF and a short `fwrite` are not modelled.
- RFile.SendNetascii: nothing is lost; what a repeated read does is `Netascii.RereadFaithful`.
- `tftp_file_read`: the same conversion as `rfileRead`, over a stdio stream.
- Chunks.CalculateChunk: the granularities the tests use (4, 64 and 256 bytes).
- Parts.TestedSegment: `vmem.c` is not part of this model; `mapping` is taken to keep page boundaries and to put a window at addresses below 4 GB, 0 for page 0 only. The test table runs no test on more than 32 CPUs, which `Parts.PartTiled` and its neighbours need.
- MovInv32.MovInv32: what a dword holds after a write depends on the dword and the word only, so that faults coupled to other dwords, decay and address faults are not covered; `bail` and `do_tick` left out, one CPU's ranges at a time, which touch different dwords (as parts do, `PartTests.PartsTouchApart`). With empty ranges and a single iteration the outcome depends on the dwords below them and is stated for one range only, in `EmptyPart.MovInv32EmptyPart`. CPUs with empty parts writing the same dword at the same time are not modelled.
- MovInv1.MovInv1: the same faults; `bail` and `do_tick` left out, one CPU's ranges at a time; the number of errors on an untiled range is not stated, as no part is untiled.
- ModTst.ModTst: the same faults; one CPU's ranges at a time; they reach as far as the offset and end at dword 20 or later, as all parts do (`Parts.PartStrides`).
- BlockMove.BlockMoveTest: the same faults, with which the content after the moves is stated only as far as what can be in a dword; one CPU's ranges at a time; whole 64-byte blocks and at least one, as all parts are (`Parts.PartBlocks`). The carry flag at the start of each span is arbitrary.
- Address tests, bit fade, random-pattern tests and `find_chunks`: easier members of the same kind.
- PartTests.AllCpusCover: the CPUs run one after another; that parts do not overlap is why their order does not matter.
- Handover.StepInv: an address stands for one transfer, and any address may send packets; each call into the list is one atomic step, although some list heads are read before the mutex is taken; threads that abort or are cancelled leave the list open until they are removed, and what becomes of clients that join them then is not covered.
- MulticastThread.MulticastServer.GetPacket: 16-bit address families 2 and 10 and the low half of an aligned pointer, as on Linux for little-endian machines; the unreachable branches for other clients (`tftpd_file.c:490-521` and `564-581`) are left out. `recvmsg` failing is `Handover.Failure`.
- Multicast.CourseDeliversIff: files of fewer than 65536 blocks, and clients that acknowledge the leading blocks they hold; longer files fail with a single client already (`TransferRuns.DeliveryIff`).
- Threads.ThreadList.FindMulticastServerAndAdd: option strings are given; how they are built is not modelled, and the caller is taken to have the multicast option, as its only caller does.
- `tftpd_clientlist_remove`, `tftpd_clientlist_free`, `tftpd_list_kill_threads`: unused, or only memory management and signals.
- Shell.CommandShell.System: the implementations of commands and settings expansion are arbitrary functions of the state; `shell.h` is not part of this model, and SHELL_STOP_COMMAND is taken as 1. Error numbers are the POSIX ones, without the file-specific bits; `errno` is not modelled; white space is that of the C locale.
- Menus, configuration headers and the individual commands: user interface and wrappers.
