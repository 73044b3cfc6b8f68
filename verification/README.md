# smbios-mdr in Dafny

A model of the hard parts of smbios-mdr, an OpenBMC service that receives an SMBIOS table from
the host, stores it, walks it to publish an inventory, and (in its Intel CPU companion) discovers
Speed Select configurations over PECI. Loops and objects that the program updates in place are
methods and classes proved against specification functions; the results about whole tables, runs
and call sequences are lemmas about those functions.

`dafny verify dfyconfig.toml` checks everything (Dafny 4.11).

| file | models |
|---|---|
| Common.dfy, Bytes.dfy, Decimals.dfy | shared concepts; bytes and little-endian integers; decimal numerals |
| Walker.dfy | the scanning loops of include/smbios_mdrv2.hpp |
| Walks.dfy | every client loop over the walker: index lookup, counters, records, ECC search, PCIe slots |
| WalkSafety.dfy | exactly when a read leaves the storage, on arbitrary bytes |
| Encoding.dfy, RoundTrip.dfy | a printer written from DSP0134, sections 6.1.2 and 6.1.3, and the proof that the walker and its clients invert it |
| EntryPoint.dfy | printers of the two entry points from DSP0134, sections 5.2.1 and 5.2.2, and how the program reads them |
| Naming.dfy | board objects, board names and DIMM names |
| FromFields.dfy | board names, DIMM names and PCIe slots of a printed table from its structures' fields alone |
| Flash.dfy | the cache file and the daemon's synchronisation |
| Blob.dfy | the IPMI blob handler as a session state machine |
| EndToEnd.dfy | blob handler, cache file, daemon and walker as one system |
| Mailbox.dfy | the PECI OS mailbox protocol against an arbitrary device |
| HostState.dfy | the host-state machine |
| Levels.dfy | the config-level loop of one CPU |
| Discovery.dfy | re-entrant SST discovery as a machine with a stack of attempts |
| DiscoveryLaws.dfy | what a discovery run comes to, from its actions and the devices' answers |
| DiscoveryLoop.dfy | the recursive discovery code, proved to make exactly the machine's steps its inputs call for |
| AppliedConfig.dfy | the AppliedConfig setter |
| CoreLists.dfy | core masks, core lists and their difference |

## What the main results say

- The walker inverts the printer. On any storage that holds a printed table, smbiosNextPtr visits
  the structures in order, a type search returns the first structure of the type at or after any
  boundary, handle and string lookups return what was printed, and a decoder made of these returns
  the printed list (`DecodeInvertsEncode`).
- In every run of the blob handler and the daemon together, while a blob is committed the daemon's
  storage is the overlay of the writes accepted before the one commit that wrote the file, its
  directory entry has that commit's time and size (`CommittedIsPublished`), and a table staged there
  is what the walker decodes, walks and names (`CommittedTableIsRead`).
- On every storage, well-formed or not, all copies of the walk agree with one reference walk, and
  each loop ends because offsets strictly increase. With 260 zero bytes after arbitrary data, a walk
  leaves the storage if and only if an entry point at a boundary where it starts a search points
  outside (`WalkerNeverLeavesStorage`); 259 zeros are not enough in the 64 KiB storage
  (`TailIsTight`).
- The board and DIMM loops name every counted DIMM unless they read outside the storage, which on a
  printed table happens if and only if a board announces more handles than the storage has room for
  (`NamingReadableExactly`). On a printed table with unique handles whose boards are complete, or
  with 517 bytes of storage after it, every DIMM is named and no name is given twice
  (`PrintedDimmNames`).
- On a printed table with complete boards the names are those the structures' own fields call for:
  processor modules by their type byte, contained objects by the listed handles, DIMMs after the
  first board that lists them (`PrintedNames`, `DimmNameExactly`).
- Which blob calls are accepted follows from the calls alone (`AcceptedExactly`), and a table of at
  most 64 KiB may be staged in chunks of any sizes (`ChunkedStaging`).
- The host state follows from the property changes alone, in any order: POST complete exactly while
  a POST-done report is in force (`HostStateExactly`).
- Every normal return of a mailbox command is the device's answer to exactly that command; over
  any sequence of calls, timed-out ones included, no register is written while a command runs, no
  two normal returns share a submission, and a call fails with an access error exactly when its last
  transaction fails. Costs and wake-bit results are about the trace the device itself keeps.
- Discovery is all-or-nothing in every run, with any nesting of attempts, and every published CPU
  has exactly the config levels its device said it supports, its current one among them, when the
  attempt that owns the list asked it. An address has a published CPU if and only if that answer
  calls for one (`PublishedExactly`); which attempt owns the list and when a retry is pending follow
  from how attempts started and ended (`OwnerExactly`, `RetryExactly`).

Places where the code does something a reader might not expect, stated as it is:

- The PCIe selection loop shifts by one rank when the first system-slot record is not a PCIe slot:
  objects 0 and 1 then read the same slot and the last slot is never read (`PcieShift`, and
  `PcieShiftExample` for a concrete table). Objects read different slots if and only if the first
  slot record is PCIe or there is at most one PCIe slot (`PcieDistinctExactly`).
- A write after a successful commit is accepted but a further commit returns true without writing.
  `StaleFile` is such a run, five successful calls, for every table the daemon accepts, and
  `StaleFileExample` a concrete one; `CommitIsCurrent` gives the exact condition under which a
  successful commit leaves the file current.
- A failed synchronisation replaces the storage and keeps version, time, size, stage and lock
  (`AgentSynchronizeData`); a commit that the daemon refuses has that effect
  (`RefusedCommitLosesTable`).
- A power cycle that happens inside one poll is not seen by the attempt around it: it carries on
  and publishes what it staged before the cycle (`AttemptSurvivesPowerCycle`, and
  `StaleListExample` for a run from the start). A finished attempt's list belongs to one power-on
  if and only if no departure from off occurred while it was under way (`FinishedListIsCurrent`),
  and when one did, the attempt took no address in the whole off period before it
  (`DepartureWithinPoll`).
- A baseboard structure too short to hold a type byte is named by whatever byte follows in its place:
  `ShortBoardExample` is one named as a processor module, and `BoardNamesExactly` says when names
  follow the structures' fields.
- Two DIMMs with the same handle get the same name if and only if some board lists that handle
  (`SharedHandleClash`, and `SharedHandleExample` for a concrete table).

## Modelling decisions

- A pointer is an offset; `Null` is the null pointer and `Wild` an execution that reads outside the
  storage, which C++ leaves undefined. No table is excluded by a precondition. A test of two
  adjacent bytes counts as reading both.
- Plain `char` is taken as unsigned, so a structure length read through `char*` is 0..255;
  multi-byte fields are little-endian.
- getTotalCpuSlot and getTotalDimmSlot are getTotalNum with a fixed type, and the selection loops of
  Cpu::infoUpdate and Dimm::memoryInfoUpdate are the loop of getSMBIOSTypeIndexPtr; each is modelled
  once.
- State and open flags of a blob are records of Booleans. The clock, the file system's outcome and
  the D-Bus reply are parameters of a commit; a failed write leaves arbitrary file content. Where
  handler and daemon run together, a positive reply means that the daemon got the request and
  synchronised with the file just written; a negative or lost one means nothing. Other clients may
  ask the daemon to synchronise at any time.
- The PECI device is two arbitrary functions: how each transaction goes and what each submitted
  command answers. Assumed of it is that a transaction takes effect if and only if its reply has
  library success and completion code 0x40; the manager's own test of replies is checked against
  that. The completion codes and the eight client addresses are libpeci's, which is not part of this
  model.
- The event loop, the retry timer and the CPUs are a script of inputs; an address the script says
  nothing about is absent. Cancelling a timer does not recall a retry that is already queued, so a
  retry may run at any time. A CPU's answers in the level loop are functions of the level at which
  they are asked, so the maximum may change from one level to the next.
- The type of a board whose record is missing is 0 here; the program leaves it indeterminate there,
  but never builds a board past the counted records, so no loop reaches that case.
- `faulted` of a board and the `ok` results of the naming loops stand for an execution that would
  read outside the storage.
- Core masks are natural numbers with a recursive bit test, not bit vectors.

## Model

| member | source | states |
|---|---|---|
| Walker.SkipEntryPoint | include/smbios_mdrv2.hpp:248-269 | null stays null, and the table address only ever moves a pointer forward, by less than 32 KiB |
| EntryPoint.Fields64 | include/smbios_mdrv2.hpp:153-163 | where anchor, version and table address of a printed 64-bit entry point are |
| EntryPoint.SkipsToAddress | include/smbios_mdrv2.hpp:248-269 | on any storage with a printed entry point at p, the skip goes to p plus its address if that is below 32768, and stays at p otherwise |
| Walker.ScanFinds | include/smbios_mdrv2.hpp:277-288 | the scan returns just past position e if and only if e is the first double NUL and the guard counter is still below 32 KiB there |
| Walker.ScanGivesUp | include/smbios_mdrv2.hpp:279-287 | the guard returns null if and only if that many readable pairs hold no double NUL; the scan leaves the storage if and only if it runs out of bytes first |
| Walker.SmbiosNextPtr | include/smbios_mdrv2.hpp:271-289 | the loop computes the step function `Next` on every storage and pointer |
| Walker.GetSMBIOSTypePtr | include/smbios_mdrv2.hpp:314-351 | the nested loops compute the search function `TypePtr`, whose guard starts at the structure length |
| Walker.SmbiosHandlePtr | include/smbios_mdrv2.hpp:291-310 | the loop computes the handle search `HandlePtr`, including the stop at a header shorter than 4 |
| Walker.PositionToString | include/smbios_mdrv2.hpp:382-417 | the nested loops compute `StringAt` with a 16-bit limit that never wraps |
| Walks.WalkAscends | include/smbios_mdrv2.hpp:353-380 | on every storage the selected offsets strictly increase, so no record is selected twice |
| Walks.WalkSelects | include/smbios_mdrv2.hpp:324-348 | every selected record has the type and the minimum size asked for |
| Walks.GetSMBIOSTypeIndexPtr | include/smbios_mdrv2.hpp:353-380 | returns the reference walk's record at that index, or how the walk ends, on every storage |
| Walks.GetTotalNum | src/mdrv2.cpp:938-970 | returns min(255, number of records of the reference walk), and says exactly when the count leaves the storage |
| Walks.SelectObjects | src/mdrv2.cpp:620-659 | counting and indexing agree: no lookup below the count is null and object k gets the k-th record |
| Walks.GetRecordType | src/mdrv2.cpp:1112-1195 | one record per step of the walk with minimum size 84, in table order |
| Walks.MinSizeIsLongestPrefix | include/smbios_mdrv2.hpp:342-348 | a minimum size yields the longest prefix of the records that are all long enough, on every storage |
| Walks.RecordsMatchDimms | src/mdrv2.cpp:1125-1188 | on every storage the record list is as long as the DIMM count if and only if no memory-device record is shorter than 84 bytes or, with more than 255 of them, the 256th is the first that is |
| Walks.UpdateEccType | src/dimm.cpp:115-150 | the loop computes the ECC search function on every storage |
| Walks.GetTotalPcieSlot | src/mdrv2.cpp:897-936 | counts min(255, number of PCIe slots of the filtered walk), and says exactly when the count leaves the storage |
| Walks.PcieWalkFilters | src/mdrv2.cpp:909-935 | the PCIe walk is the plain system-slot walk with the non-PCIe records removed |
| Walks.PcieWalkAscends | src/mdrv2.cpp:909-935 | PCIe slot offsets strictly increase |
| Walks.SelectPcieSlot | src/pcieslot.cpp:17-43 | object k reads the PCIe slot of rank k, or of rank max(0, k-1) when the first slot record is not PCIe; the 8-bit counter does not wrap |
| Walks.PcieBijection | src/pcieslot.cpp:25-43 | if the first slot record is PCIe, object k reads the slot of rank k, for every counted k |
| Walks.PcieShift | src/pcieslot.cpp:25-43 | otherwise, with two slots or more, objects 0 and 1 coincide and no counted object reads the last slot |
| Walks.PcieDistinctExactly | src/pcieslot.cpp:25-43 | the objects read pairwise different slots if and only if the first slot record is PCIe or there is at most one PCIe slot |
| Walks.PcieShiftExample | src/pcieslot.cpp:25-43 | a concrete 64 KiB storage, an ISA slot and two PCIe slots, on which both objects read the first PCIe slot |
| WalkSafety.NextSafe | include/smbios_mdrv2.hpp:271-289 | from a structure inside the data, the step ends within 255 bytes past the data or gives up |
| WalkSafety.SkipSafe | include/smbios_mdrv2.hpp:248-269 | the entry-point test reads nothing outside, and the search it leads to starts inside if and only if the entry point there, if any, points inside |
| WalkSafety.TypePtrSafe | include/smbios_mdrv2.hpp:314-351 | a type search from a reachable boundary leaves the storage if and only if an entry point there points outside, and finds only records inside the data |
| WalkSafety.WalkSafe | src/mdrv2.cpp:938-970 | the walk behind counts and index lookups leaves the storage if and only if one of the searches it starts lands outside |
| WalkSafety.PcieWalkSafe | src/mdrv2.cpp:909-935 | the same condition, exactly, for the PCIe walk with its slot-type reads |
| WalkSafety.EccSearchSafe | src/dimm.cpp:119-146 | the ECC search leaves the storage if and only if one of the searches it starts, up to its match, lands outside |
| WalkSafety.CountSafe | src/mdrv2.cpp:938-970 | a count leaves the storage if and only if the walk does, before the 255th record |
| WalkSafety.HandleSearchSafe | include/smbios_mdrv2.hpp:295-308 | from any readable pair of bytes the handle search never leaves the storage |
| WalkSafety.HandlePtrSafe | include/smbios_mdrv2.hpp:291-310 | a handle lookup leaves the storage if and only if the entry point at its start points outside |
| WalkSafety.NthStringSafe | include/smbios_mdrv2.hpp:391-416 | string lookups never leave the storage |
| WalkSafety.WalkerNeverLeavesStorage | include/smbios_mdrv2.hpp:248-417 | with 260 zero bytes after arbitrary data: walks and counts of any type and size, the PCIe walk, handle lookups and the ECC search leave the storage exactly when a search they start lands outside; string lookups always stay inside |
| WalkSafety.TailIsTight | src/mdrv2.cpp:1112-1195 | a 64 KiB storage with 259 zeros after the data and no entry point, on which the walk of getRecordType leaves the storage |
| Encoding.EncodeTableAt | include/smbios_mdrv2.hpp:165-170 | the printer lays a list of structures out as `TableAt` describes, at any place in a storage |
| Encoding.FieldsAt | include/smbios_mdrv2.hpp:165-170 | the packed header, formatted area and string set of a printed structure read back |
| Encoding.AnchorExactly | include/smbios_mdrv2.hpp:255-258 | the code takes a printed structure for an entry point if and only if its first five bytes spell the anchor |
| Encoding.SearchStartsHere | include/smbios_mdrv2.hpp:255-268 | a search begun at a structure starts there if and only if it is no lookalike or its supposed address is zero or at least 32 KiB |
| Encoding.StringSetPairs | include/smbios_mdrv2.hpp:279-288 | the only double NUL of a printed string set is at its end |
| Encoding.StepsOver | include/smbios_mdrv2.hpp:271-289 | smbiosNextPtr and the type search's inner scan both step over exactly one printed structure |
| Encoding.VisitsInOrder | include/smbios_mdrv2.hpp:271-289 | repeated smbiosNextPtr visits exactly the structure offsets in order and ends on the double NUL |
| Encoding.SearchIsTableSearch | include/smbios_mdrv2.hpp:324-350 | a byte-level type search is the search of the printed list, for any minimum size |
| Encoding.TypePtrFindsFirst | include/smbios_mdrv2.hpp:314-351 | from any boundary getSMBIOSTypePtr returns the first structure of the type at or after it, or null if there is none |
| RoundTrip.WalkOfTable | src/mdrv2.cpp:938-970 | on a printed table the reference walk is the list of offsets of the structures of the type, cut at the first short one |
| RoundTrip.HandleSearchOfTable | include/smbios_mdrv2.hpp:291-310 | the handle search is the search of the printed list |
| RoundTrip.TableHandleFindsFirst | include/smbios_mdrv2.hpp:291-310 | that search returns the first structure with the handle, and null if and only if there is none |
| RoundTrip.EccSearchOfTable | src/dimm.cpp:115-146 | the ECC search is the search of the printed list for a type-16 structure with the handle |
| RoundTrip.EccSearchAgreesWithHandle | src/dimm.cpp:119-146 | with unique handles the ECC search stops on the handle lookup's structure exactly when it is of type 16, and finds nothing otherwise |
| RoundTrip.PositionToStringReads | include/smbios_mdrv2.hpp:382-417 | position k gives the k-th printed string while the earlier ones have fewer than 32768 characters, and the empty string in every other case |
| RoundTrip.StructureStrings | include/smbios_mdrv2.hpp:382-417 | in a well-formed structure every string is returned and every other position is empty |
| RoundTrip.DecodeTableReads | include/smbios_mdrv2.hpp:271-417 | decoding a printed table with the walker gives the printed list |
| RoundTrip.DecodeInvertsEncode | include/smbios_mdrv2.hpp:271-417 | decode(encode(ss)) == ss, whatever surrounds the table in the storage |
| RoundTrip.EntryPointLeadsToTable | include/smbios_mdrv2.hpp:248-269 | from a storage that starts with a printed 64-bit entry point, walks, handle lookups and ECC searches work on the table at its address |
| Decimals.DecimalInjective | src/mdrv2.cpp:636-636 | to_string gives different numbers different digits |
| Naming.Baseboard.constructor | include/baseboard.hpp:74-104 | the contained list is exactly the listed handles that resolve, in order, each with the type of the structure it leads to; construction faults if and only if the lookup, the handle list or a handle's resolution leaves the storage |
| Naming.ContainedResolved | include/baseboard.hpp:85-103 | every contained object leads, by the handle lookup, to a structure of the noted type |
| Naming.Baseboard.FindIndexOfType | include/baseboard.hpp:113-129 | found if and only if listed, with the number of same-type objects listed before the first listing |
| Naming.IndexOfTypeInjective | include/baseboard.hpp:113-129 | two listed objects of one type never get the same index |
| Naming.BuildBoards | src/mdrv2.cpp:548-565 | succeeds if and only if nothing is read outside the storage, and then each board has its record's type, the name its type and place call for (processor modules numbered among themselves) and the objects its handles lead to |
| Naming.BuildBoard | src/mdrv2.cpp:548-565 | one board: its record's type, the name its type and place call for, and the objects its handles lead to |
| Naming.BoardNamesDistinct | src/mdrv2.cpp:548-565 | board names are pairwise distinct |
| Naming.NameDimm | src/mdrv2.cpp:636-652 | the first containing board gives the name; a DIMM no board contains keeps its own number |
| Naming.SharedHandleNames | src/mdrv2.cpp:636-652 | for any boards, two DIMMs that share a handle get one name if and only if some board lists it |
| Naming.SharedHandleClash | src/mdrv2.cpp:634-652 | the same of the names the loop gives on any storage |
| Naming.SharedHandleExample | src/mdrv2.cpp:634-652 | a concrete 64 KiB storage whose two DIMMs share a listed handle and a name |
| Naming.JoinInjective | src/mdrv2.cpp:648-649 | a contained name determines both its board name and its index |
| Naming.ContainedNamesDistinct | src/mdrv2.cpp:642-652 | two contained DIMMs have different names, in one board or in two |
| Naming.DimmNamesDistinct | src/mdrv2.cpp:634-652 | any two DIMMs have different names, contained or not |
| Naming.NameDimms | src/mdrv2.cpp:548-659 | succeeds if and only if nothing is read outside the storage, and then names every counted DIMM, in order, from the boards of the storage |
| Naming.AllNamesDistinct | src/mdrv2.cpp:548-659 | those names are pairwise distinct if every DIMM's handle leads back to it |
| Naming.UniqueHandlesLeadBack | src/mdrv2.cpp:634-652 | in a printed table with unique handles every DIMM's handle leads back to it |
| Naming.NamingReadableExactly | include/baseboard.hpp:85-103 | on a printed table naming stays inside the storage if and only if every board's announced handle list does |
| Naming.PrintedNamingReadable | src/mdrv2.cpp:548-659 | on a printed table with complete boards or 517 bytes of storage after it, naming succeeds and names min(255, n) memory devices |
| Naming.PrintedDimmNames | src/mdrv2.cpp:548-659 | and with unique handles no name is given twice |
| FromFields.BoardNamesExactly | src/mdrv2.cpp:548-565 | on a printed table the boards are named from their structures' own fields (byte 13 in {6, 11, 12} makes a processor module) if and only if no structure too short for that byte is followed by such a value |
| FromFields.PrintedBoardNames | include/baseboard.hpp:48-62 | so boards with a type byte are named "ProcessorModule_" and the number of earlier modules, or "Board_" and their number |
| FromFields.ShortBoardExample | src/mdrv2.cpp:548-565 | a concrete 64 KiB storage whose typeless board is named as a processor module |
| FromFields.PrintedBoardObjects | include/baseboard.hpp:85-103 | a complete board contains the handles its body lists, each with the type of the first structure that has it |
| FromFields.PrintedNames | src/mdrv2.cpp:548-659 | on a printed table with complete boards every counted DIMM's name follows from the structures' fields alone |
| FromFields.IndexIsRank | include/baseboard.hpp:113-129 | an object's index is the number of objects of its type listed before it |
| FromFields.DimmNameExactly | src/mdrv2.cpp:634-652 | the first board that lists the handle names the DIMM, with that number; if none does, its own number |
| FromFields.PcieCodesExactly | include/pcieslot.hpp:114-119 | the slot types taken for PCIe are exactly those listed |
| FromFields.PrintedPcieSlots | src/mdrv2.cpp:897-936 | on a printed table whose slots have a type byte, the PCIe walk finds exactly the structures with a listed type, in order |
| Flash.HeaderRoundTrip | include/smbios_mdrv2.hpp:121-127 | the packed 10-byte header decodes to what was encoded |
| Flash.EncodeHeader | include/smbios_mdrv2.hpp:121-127 | the header's bytes: version, type, 4-byte time, 4-byte size |
| Flash.ImageRoundTrip | src/mdrv2.cpp:205-255 | every committed image is accepted and loads as the buffer padded with zeros to 64 KiB |
| Flash.ReadFileExactly | src/mdrv2.cpp:205-255 | a file is accepted if and only if it has 10 bytes and announces at most 64 KiB, and its data is what it has of the announced bytes |
| Flash.FindPattern | src/mdrv2.cpp:979-987 | returns the first occurrence, or the end if and only if there is none |
| Flash.CheckSMBIOSVersion | src/mdrv2.cpp:972-1043 | accepts if and only if the first 2.1 anchor, or failing any the first 3.0 anchor, heads a complete entry point of a supported version |
| Flash.Version32 | src/mdrv2.cpp:972-1043 | a storage whose first "_SM_" heads a printed 32-bit entry point is accepted if and only if its version is 3.0, 3.2, 3.3, 3.5 or 3.6 |
| Flash.Version64 | src/mdrv2.cpp:972-1043 | without any "_SM_", the same of the first printed 64-bit entry point |
| Flash.Mdr.ReadDataFromFlash | src/mdrv2.cpp:205-255 | accepts exactly the files with a header and a size within 64 KiB, and overwrites only the front of the storage |
| Flash.Mdr.AgentSynchronizeData | src/mdrv2.cpp:1045-1086 | returns true if and only if the file is accepted and its version supported; the storage is replaced either way, while version, time, size, stage and lock change exactly on success, to what the header says |
| Blob.SmbiosBlobHandler.OpenBlob | src/smbios-ipmi-blobs/handler.cpp:96-114 | one open blob at most; reading is refused |
| Blob.SmbiosBlobHandler.WriteBlob | src/smbios-ipmi-blobs/handler.cpp:124-161 | accepted exactly for the owner of a writable blob when it fits in 64 KiB, growing with zeros |
| Blob.SmbiosBlobHandler.CommitBlob | src/smbios-ipmi-blobs/handler.cpp:169-258 | the new state, the file and the result for every outcome of the file system and the daemon |
| Blob.SmbiosBlobHandler.CloseBlob | src/smbios-ipmi-blobs/handler.cpp:260-269 | only the owner closes, and the blob is gone |
| Blob.SmbiosBlobHandler.Stat | src/smbios-ipmi-blobs/handler.cpp:271-281 | size and state for the owner only |
| Blob.OverwriteOverlays | src/smbios-ipmi-blobs/handler.cpp:152-159 | a write turns the overlay of the earlier writes into the overlay of all of them |
| Blob.StepKeepsInv | src/smbios-ipmi-blobs/handler.cpp:96-269 | every call keeps the session invariants |
| Blob.StepCommits | src/smbios-ipmi-blobs/handler.cpp:169-258 | only a commit whose write and synchronisation succeed makes a blob committed; while it is committed no call changes the file |
| Blob.CommittedOnce | src/smbios-ipmi-blobs/handler.cpp:96-269 | in every call sequence that leaves a blob committed there is one call, such a commit, whose time and buffer of that moment are in the file after every later call |
| Blob.SessionInvariants | src/smbios-ipmi-blobs/handler.cpp:96-269 | over every call sequence: the buffer is the overlay of the accepted writes and fits, committing is never left set, committed and commit_error exclude each other, and while committed the file is the image of the buffer at the one commit that wrote it |
| Blob.CommitShortCircuits | src/smbios-ipmi-blobs/handler.cpp:184-191 | once committed, a commit succeeds and changes nothing |
| Blob.CommitIsCurrent | src/smbios-ipmi-blobs/handler.cpp:184-191 | after any call sequence, a successful commit leaves the file current if and only if the blob was not committed before, or the accepted writes up to the commit that wrote the file and all accepted writes stage the same bytes |
| Blob.CommitReachesDaemon | src/smbios-ipmi-blobs/handler.cpp:199-235 | after any run, a commit that writes the file makes the daemon accept it and load the overlay of the accepted writes, zero-padded |
| Blob.HolderExactly | src/smbios-ipmi-blobs/handler.cpp:96-114 | after any calls the blob is open for the session that the calls alone make its holder, with the same writing flag |
| Blob.AcceptedExactly | src/smbios-ipmi-blobs/handler.cpp:96-269 | after any calls, exactly which open, write, commit and close succeeds: a write if and only if the session holds the blob for writing, offset < 65536 and offset + length <= 65536, whatever is staged |
| Blob.CommitWrites | src/smbios-ipmi-blobs/handler.cpp:169-258 | after any calls, what a commit leaves in the file and in the state bits for every outcome |
| Blob.ChunkedStaging | src/smbios-ipmi-blobs/handler.cpp:124-161 | after any calls that leave the blob closed, staging a table of at most 64 KiB in consecutive chunks of any sizes leaves exactly the table, every call accepted but an empty write at the very end of 64 KiB |
| EndToEnd.LoadedHasZeroTail | src/mdrv2.cpp:1048-1051 | a storage loaded from at most 65276 bytes of data has the zero tail the walker's safety rests on |
| EndToEnd.StagedTableVersion | src/mdrv2.cpp:972-1043 | unless "_SM_" occurs anywhere in the storage, the daemon accepts the staged table if and only if its printed entry point's version is supported |
| EndToEnd.EventKeepsSync | src/smbios-ipmi-blobs/handler.cpp:33-65 | every call and every synchronisation keeps this: while a blob is committed, synchronising again would succeed and change nothing |
| EndToEnd.CommittedIsPublished | src/mdrv2.cpp:1045-1086 | in every run of handler and daemon, while a blob is committed the daemon's storage is the padded overlay of the writes accepted before the commit that wrote the file, and its directory entry has that commit's time and size |
| EndToEnd.RefusedCommitLosesTable | src/mdrv2.cpp:1045-1064 | a commit whose table the daemon refuses fails, and the refused bytes are in the storage under the old version, time and size |
| EndToEnd.StaleFile | src/smbios-ipmi-blobs/handler.cpp:124-191 | for every table the daemon accepts, five successful calls in a run of handler and daemon that leave file and storage with the first commit's bytes while the committed blob has others |
| EndToEnd.StaleFileExample | src/smbios-ipmi-blobs/handler.cpp:124-191 | such a run with a concrete table |
| EndToEnd.CommittedTableIsRead | src/mdrv2.cpp:548-659 | in every such run, a table staged at that commit is what the daemon's walker decodes and walks, and with unique handles its DIMMs are all named, distinctly |
| Mailbox.InterfaceWord | src/sst_mailbox.cpp:219-221 | the word has the busy bit, and its two low bytes are command and sub-command |
| Mailbox.PackParams | src/sst_mailbox.cpp:284-286 | each parameter byte is recovered from its place in the input word |
| Mailbox.StatusExactly | src/speed_select.cpp:47-57 | a reply counts as success if and only if it has library success and completion code 0x40, and as sleeping if and only if it has no library success and code 0x82 |
| Mailbox.PECIManager.SetWakeOnPECI | src/sst_mailbox.cpp:81-96 | the device sees exactly one transaction, a write of the wake bit; the flag is set exactly by a successful setting write |
| Mailbox.PECIManager.Destroy | src/sst_mailbox.cpp:50-64 | the device sees one clearing write if this manager earlier set the bit successfully, and nothing otherwise |
| Mailbox.PECIManager.WrMailboxReg | src/sst_mailbox.cpp:122-143 | the device sees the write, and if that finds it asleep and waking is allowed, a wake write and the write once more; an error is returned exactly when the last of these fails, and leaves the mailbox as it was |
| Mailbox.PECIManager.RdMailboxReg | src/sst_mailbox.cpp:153-177 | the same for a read; the busy bit read is whether a command is still running |
| Mailbox.PECIManager.SendPECIOSMailboxCmd | src/sst_mailbox.cpp:194-248 | a normal return is the device's answer to exactly this command; at most one command is submitted and never over a running one; the two timeouts are reported exactly after ten busy polls and each wait ends with the first free one; an access error is returned exactly when the last reply lacks library success or completion code 0x40, and it is the error for it; the device sees at most 69 transactions (23 without waking) |
| Mailbox.RunCalls | src/sst_mailbox.cpp:194-248 | the same over every sequence of calls: each normal return answers its own submission, whose number is above that of every earlier normal return; each call fails as its last transaction does; the device sees at most 69 transactions a call, or 23 and no wake write when waking is not allowed |
| HostState.HostMonitor.UpdateHostState | src/cpuinfo_utils.cpp:48-85 | the new globals, and one callback if and only if the state changed |
| HostState.HostMonitor.Handle | src/cpuinfo_utils.cpp:87-127 | each event handler is a step of the machine |
| HostState.RunConsistent | src/cpuinfo_utils.cpp:48-75 | over every event sequence, power off means host off with both POST-done indicators cleared, and POST complete means at least one is set |
| HostState.NeverStraightToComplete | src/cpuinfo_utils.cpp:48-75 | no event takes the host from off to POST complete |
| HostState.CompleteIsEarned | src/cpuinfo_utils.cpp:54-75 | every POST-complete state is owed to a POST-done event received after the latest power-on |
| HostState.PowerIsLatest | src/cpuinfo_utils.cpp:87-91 | over every event sequence the power state is the latest one received |
| HostState.IndicatorsStand | src/cpuinfo_utils.cpp:93-127 | over every event sequence each POST indicator is what the report in force from its source says |
| HostState.HostStateExactly | src/cpuinfo_utils.cpp:48-127 | over every event sequence the host is off if and only if the latest power state is off, and POST complete if and only if a POST-done report is in force: none newer from its source, and power on ever since |
| HostState.CallsFormPath | src/cpuinfo_utils.cpp:78-84 | the callback history is a path from off to the current state without gaps or repeats |
| HostState.OneCallPerDeparture | src/speed_select.cpp:556-564 | the callback sees previous state off exactly once per departure from off |
| HostState.HandleAll | src/cpuinfo_utils.cpp:48-127 | a monitor that handles any event sequence ends in the state the events call for, having told its callback exactly that run's changes |
| Discovery.StepKeepsInv | src/speed_select.cpp:378-554 | every step keeps the discovery invariants |
| Discovery.DiscoveryIsAllOrNothing | src/speed_select.cpp:378-499 | in every run the persistent list is empty or the whole staging list of one attempt that passed every address |
| Discovery.FailedNeverInstalls | src/speed_select.cpp:397-441 | how an attempt ended is final, and one that threw, saw the host off or found a CPU not ready never owns the list |
| Discovery.RetryIsPending | src/speed_select.cpp:520-553 | at rest after an unfinished attempt a retry is pending, unless fifty errors were counted |
| Discovery.UndisturbedAttemptInstalls | src/speed_select.cpp:390-498 | an attempt that meets no obstacle installs everything it staged |
| Discovery.AttemptSurvivesPowerCycle | src/speed_select.cpp:392-400 | a power cycle inside one poll does not stop the attempt around it, which publishes what it staged before |
| Discovery.StaleListExample | src/speed_select.cpp:392-400 | a run from the initial state that publishes a CPU queried before the latest power-on |
| Discovery.DeparturesBetween | src/speed_select.cpp:556-564 | the departure count of two moments of a run is equal if and only if the host did not leave off in between |
| Discovery.FinishedListIsCurrent | src/speed_select.cpp:378-499 | in every run, a finished attempt's list was gathered in one power-on if and only if no attempt was started by the host leaving off while it was under way |
| Discovery.FinishedSkipsOff | src/speed_select.cpp:397-401 | in every run, an attempt that finishes never takes an address while the host is off |
| Discovery.DepartureWithinPoll | src/speed_select.cpp:392-401 | in every run, whenever the host leaves off during an attempt that finishes, that attempt took no address in the whole off period before, which began during the attempt or was under way when a retry started it |
| Discovery.PublishedLevels | src/speed_select.cpp:450-498 | in every run each published CPU has exactly the 8-bit levels that its device, by the answers recorded for its address in the attempt that owns the list, said it supports up to the maximum it reported, strictly increasing, with its current level among them |
| DiscoveryLaws.PublishedExactly | src/speed_select.cpp:443-498 | in every run, an address below 8 has a published CPU if and only if the owner's answer from it is a CPU whose level loop ends with its current level among the supported ones; CPUs come in address order, and without an owner nothing is published |
| DiscoveryLaws.StartsExactly | src/speed_select.cpp:504-564 | an attempt starts exactly on a retry or when the reported power takes the host out of off, on top of those under way, emptying the list and cancelling the timer |
| DiscoveryLaws.EndsExactly | src/speed_select.cpp:390-498 | an attempt ends at the first address it finds the host off at, whose query fails or which is not ready, or at the eighth; with the owner, error count and timer that follow |
| DiscoveryLaws.OwnerExactly | src/speed_select.cpp:495-515 | in every run the list belongs to the attempt that finished last, if none has started since, and to nobody otherwise |
| DiscoveryLaws.RetryExactly | src/speed_select.cpp:520-553 | in every run a retry is pending if and only if an attempt asked for one (host off, CPU not ready, or one of the first 49 failed queries) and none has started since |
| DiscoveryLoop.EventsFollowScript | src/speed_select.cpp:392-395 | the events and retries among the steps taken are, in order, those of the consumed part of the script |
| DiscoveryLoop.SstDiscovery.Poll | src/speed_select.cpp:392-395 | all waiting work is handled, by the machine steps the script calls for, and attempts started in it are over when it returns |
| DiscoveryLoop.SstDiscovery.HandleChange | src/speed_select.cpp:556-564 | the host-state change is the next machine step, and the only one unless the host leaves off |
| DiscoveryLoop.SstDiscovery.DiscoverOrWait | src/speed_select.cpp:504-554 | the starting step is taken, then one whole attempt up to its end, with list, timer and error count as the machine has them |
| DiscoveryLoop.SstDiscovery.VisitAddress | src/speed_select.cpp:392-493 | what stops an attempt at an address, in order, and what the address adds to the staging list otherwise |
| DiscoveryLoop.SstDiscovery.DiscoverCPUsAndConfigs | src/speed_select.cpp:378-499 | the recursive code makes the machine's steps for its inputs; the list is replaced only on completion |
| Levels.QueryLevels | src/speed_select.cpp:450-493 | throws exactly when a query fails at a level the loop reaches; otherwise returns the supported levels, or nothing if the current level is not among them; the loop ends however the maximum is re-read |
| Levels.ConfigsExact | src/speed_select.cpp:450-493 | returned levels are strictly increasing 8-bit levels, exactly the supported ones below where the loop ended, among them the current level |
| Levels.LoopThrowsExactly | src/speed_select.cpp:450-493 | the loop throws if and only if a query fails at a level it reaches |
| AppliedConfig.ConfigPathInjective | src/speed_select.cpp:295-298 | config paths determine their level |
| AppliedConfig.CPUConfig.NewConfig | src/speed_select.cpp:288-293 | appends the level with its generated path |
| AppliedConfig.CPUConfig.SetAppliedConfig | src/speed_select.cpp:233-274 | the exact result for every value and environment: applied if and only if the path is published and nothing stands in the way; then the unique level with that path is cached, and on any error the cache is unchanged |
| CoreLists.MaskBits | src/sst_mailbox.cpp:475-479 | the assembled mask has the low read's bits below 32 and the high read's above |
| CoreLists.ConvertMaskToList | src/speed_select.cpp:59-70 | strictly increasing, exactly the set bits of the 64-bit mask, and the powers of two listed add up to the mask |
| CoreLists.CoreList | src/sst_mailbox.cpp:473-481 | the core list holds exactly the bits of the two reads, for every pair of reads |
| CoreLists.SetDifference | src/speed_select.cpp:353-356 | the merge keeps exactly the elements of the first sorted list that are not in the second, in order |
| CoreLists.PriorityCores | src/speed_select.cpp:346-361 | the low-priority list is that of total & ~high, is disjoint from the high list, and with high∩total makes up the core count |

## Left out

- D-Bus publication, mapper queries, associations and most of systemInfoUpdate: plumbing over libraries that are not part of this model.
- The MDRv2 directory commands: at most four entries, they would only add easy members.
- Lookup tables, the FIELD accessors, the slot-height offset arithmetic of pcieInfoUpdate and sseTurboProfile: short closed expressions or a fixed eight-step loop.
- The contents of a GetRecordType record beyond its position and size.
- I2C PIROM and PPIN reads in src/cpuinfo_main.cpp: device I/O around straight-line code.
- Regex-based socket parsing, firmware names and UUID formatting: library-driven text handling.
- File-system read errors inside readDataFromFlash after a successful open.
- Exceptions other than PECIError during discovery, and D-Bus path clashes between the staged objects of nested attempts.
- Callbacks other than SST discovery's: it is the only one the program registers.
- Encoding.TypePtrFindsFirst: assumes, like every result about printed tables, that no structure's first five bytes spell the entry-point anchor, because the code looks for an entry point at every boundary it starts a search from; Encoding.SearchStartsHere says exactly when such a structure diverts a search.
- RoundTrip.DecodeInvertsEncode: assumes at most 255 strings in a structure, because string numbers are bytes.
- EndToEnd.CommittedIsPublished: the D-Bus methods SendDataInformation and SynchronizeDirectoryCommonData, with which another client can overwrite the directory entry, are not events of the composed system.
