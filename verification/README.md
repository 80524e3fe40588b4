# Switchtec user library: a Dafny model

The switchtec user library talks to PCIe switches: it retrieves and parses a
fabric database, downloads firmware, encodes a security configuration word,
checks configuration files, collects events, and offers a command line over all
that. This project models the parts where an algorithm, a protocol or a data
layout decides whether the result is right, and proves what they promise.

A device is either a function from the turn and the command to an answer, or a
script of answers of any length after which every command fails. In both cases
the answers are arbitrary, so a contract speaks of every run. The host is
little-endian.

| module | what it models |
|---|---|
| `Gf2` | division of binary polynomials, bit by bit, and its linearity and reversibility |
| `Crc` | the two table-driven checksums and the command line's copy of the second |
| `CfgFile` | the header checks of configuration files |
| `Bytes`, `NatBits`, `Mrpc`, `Wrappers` | byte strings, bitwise operations on numbers, the command channel, optional values |
| `GfmsLayout`, `Gfms` | the fabric manager's database: its byte layout; retrieval in chunks and the nested parser |
| `Passthru` | NVMe admin passthrough: payload fragments and response pieces |
| `SecurityConfig` | the 64-bit security configuration word of two generations, its setters, getters and file reader |
| `FwDownload` | writing a firmware image block by block, waiting and masking interrupts |
| `PartSummary` | the partition summary: pointers into one block of records and a list through its tail |
| `Events` | event summaries: setting, and the iterator that drains them |
| `NumberRanges` | lists of numbers and ranges, the mask option and the port mask printer |
| `Bifurcation` | placing bifurcated ports in a stack and printing the placement |
| `Cap`, `GasSlots` | updating the multicast capability; where a port's registers lie |
| `Stopwatch` | elapsed time from a start time that is rewritten at each reading |

Methods follow the source's loops and updates and are tied to specification
functions; the lemmas beside them say what those functions mean.

Some inputs make the source copy past the end of an array, or read past one. A
method that can do so returns `inside`, whose contract says for which inputs that
is; the C program's behaviour is undefined from there on, and the model stops.

## Where the code departs from what one expects

Each of these is proved as an exact condition, or shown by the contract named.

- `Gfms.PaxAllParse`, `GfmsLayout.FitsPax`: the parser trusts the lengths it is
  given. Copies stay inside their arrays exactly when there are at most 16
  domains, 32 ports and 32 devices behind a switch, and at most 32 logical ports,
  32 device functions and 48 internal functions. `GfmsLayout.OverlongIsValid` is a
  consistent database beyond that, and `GfmsLayout.LastDomainSpills` says when the
  general section behind the last domain survives.
- `Passthru.FragmentationIsExact`: offsets are held in 16 bits, so a payload is
  tiled correctly exactly up to 66528 bytes. `Passthru.AdminPassthruData`: a
  response longer than the caller's buffer is copied past its end.
- `SecurityConfig.Device.SecurityConfigGet`: clock numbers 11 to 15, which the file
  reader refuses, index past the table of rates.
- `FwDownload.WaitSucceedsIff`: a wait also succeeds when the background
  operation ended in an error while the download status reads "ready".
- `Events.ReportedAsItself`: the iterator does not know the GFMS event, and of
  the two events that share bit 3 it reports the one of the device's generation.
- `NumberRanges.ParseMeans`: the limit is noticed only when a count equals it; a
  list that steps over it, as in `NumberRanges.RangeOverruns`, is written past the
  array. `NumberRanges.PortMaskRoundTrip`: the full mask prints as a word the
  parser refuses. `NumberRanges.PortMaskToString`: for the empty mask the
  terminator goes before the buffer. `NumberRanges.MaskReadsBack`: 64-bit masks
  work below bit 31 only, as the source shifts an int.
- `Bifurcation.AcceptedLanes`: only a port's first lane is checked to be valid,
  which matters for exactly one request, a bifurcation of 8 in the last stack of
  Gen4 (`Bifurcation.EightInTheLastStack`). `Bifurcation.StoresPastIff`: when a
  request is stored behind the slots before the list is rejected.
- `Cap.StepsMeetRequest`: writing the multicast base register clears its reserved
  bits, and an overlay size given alone is cut to six bits where with an overlay
  address it is skipped when out of range.
- `Stopwatch.ResultNormalIff`: an elapsed time can have a full million of microseconds.
- `CfgFile.DevCfgTamperRejected`, `CfgFile.SecCfgTamperRejected`: the body's length
  is cut to 32 bits, so only part of a file of 4 GiB or more is covered by the
  checksum. `CfgFile.SecCfgFits`: which bodies fit the buffer of 64 bytes they are
  read into.
- The comment at `lib/crc.h:36-39` calls the checksum CRC-32/CKSUM; the code
  starts from all ones and takes in no length, and the model follows the code.

## Model

| member | source | states |
|---|---|---|
| Gf2.RemainderIsUnique | lib/crc.c:129-148 | a bit string has one quotient and one remainder by a generator; the reference against which the table loops are measured |
| Gf2.FeedDivides | lib/crc.c:129-148 | clocking bits through a register is long division: a quotient exists and the register is left with the remainder |
| Gf2.BurstChangesRegister | lib/crc.c:136-142 | two inputs that differ only in a window no longer than the register leave different registers, from every start |
| Gf2.CollideIffMultiple | lib/crc.c:136-142 | two equally long inputs leave the same register exactly when their difference is a multiple of the generator |
| Crc.Generator32 | lib/crc.h:36-39 | the 33 coefficients of the polynomial, each named by its exponent |
| Crc.ResidueDivides8 | lib/crc.c:31-65 | every entry of the CRC-8 table is eight bitwise division steps of its index by 0x107 |
| Crc.ResidueDivides32 | lib/crc.c:67-112 | every entry of the CRC-32 table is eight bitwise division steps of its index |
| Crc.Step8Divides | lib/crc.c:122-124 | one table step is eight bitwise steps fed with the byte |
| Crc.Step32Divides | lib/crc.c:138-142 | one table step, with its shift and its index from the top byte, is eight bitwise steps fed with the byte |
| Crc.Run8IsRemainder | lib/crc.c:114-127 | for every message and starting register the table loop leaves the remainder of polynomial division, and nothing else is one |
| Crc.Run32IsRemainder | lib/crc.c:129-148 | the same for the 32-bit checksum |
| Crc.Crc8 | lib/crc.c:114-127 | the result is the remainder of dividing the message, with zeros or the given checksum's low byte added onto its head, by 0x107 |
| Crc.Crc32 | lib/crc.c:129-148 | the result, complemented if it is the last, is the remainder of dividing the message, with 32 ones or the given checksum added onto its head, by the generator |
| Crc.ComputeCrc32 | cli/mfg.c:2858-2937 | the command line's own table and loop compute that from ones and with the complement, which is the library's checksum with both flags set |
| Crc.Crc32Divides | lib/crc.c:129-148 | why, for every message, start and pair of flags |
| Crc.OneChecksum | lib/crc.c:129-148 | and no other word is it |
| Crc.Crc32Incremental | lib/crc.c:129-148 | a message may be fed in two parts, the first without the final complement, the second continuing from it |
| Crc.EqualIffRemaindersEqual | lib/crc.c:129-148 | checksums are equal exactly when the polynomial remainders are |
| Crc.Crc32DetectsBursts | lib/crc.c:129-148 | messages that differ only within 32 consecutive bits have different checksums, whatever the start and the flags |
| Crc.Crc32DetectsFourBytes | lib/crc.c:129-148 | the same for four consecutive bytes |
| Crc.Crc32CollidesIffMultiple | lib/crc.c:129-148 | undetected changes are exactly the multiples of the generator |
| CfgFile.CheckDevCfgFileHeader | lib/mfg.c:2576-2639 | the order of the checks and their codes, those of failing seeks, reads and allocations included, the checksum taken over the body after the header |
| CfgFile.CheckSecCfgHeader | lib/mfg.c:1842-1895 | magic, generation, then the checksum over the body; which bodies fit the buffer |
| CfgFile.DevCfgAccepts | lib/mfg.c:2576-2639 | byte by byte: with the right magic, version and generation a file is accepted exactly when it has 1 to 1020 bytes of body and their checksum, low byte first, in its header |
| CfgFile.DevCfgRefuses | lib/mfg.c:2590-2602 | with which code every other header is refused |
| CfgFile.SecCfgAccepts | lib/mfg.c:1842-1895 | the same for security settings files of either generation, whose bodies fit up to 64 bytes |
| CfgFile.SecCfgRefuses | lib/mfg.c:1859-1879 | with which code every other header is refused |
| CfgFile.DevCfgTamperRejected | lib/mfg.c:2576-2639 | an accepted file whose body is altered within 32 consecutive bits is rejected unless the bytes the checksum covers are untouched; below 2 GiB it is always rejected |
| CfgFile.SecCfgTamperRejected | lib/mfg.c:1842-1895 | the same for an accepted security settings file |
| CfgFile.FaultsReject | lib/mfg.c:2606-2636 | a file is accepted exactly when nothing fails on the way and it would be accepted then |
| GfmsLayout.PaxUnique | lib/fabric.c:957-1016 | a byte string is the serialisation of at most one database |
| GfmsLayout.HvdAndEpInNumbers | inc/switchtec/fabric.h:272-284 | the lengths and offsets of domains and attached devices, and what fits |
| GfmsLayout.PortInNumbers | inc/switchtec/fabric.h:393-433 | the same for ports and switches, with the type bytes |
| GfmsLayout.PaxInNumbers | lib/fabric.c:957-1016 | the same for the whole database, with its section headers |
| GfmsLayout.OverlongIsValid | inc/switchtec/fabric.h:272-284 | a database with every size field right that does not fit: one domain with 33 logical ports |
| GfmsLayout.LastDomainSpills | inc/switchtec/fabric.h:291-296 | copying an overlong sixteenth domain leaves the general section behind it intact exactly when the excess bytes equal its first ones |
| Gfms.HvdAllSectionParse | lib/fabric.c:431-473 | copies stay inside exactly when the list of domains fits, and then it is rebuilt, nothing remains, and the exact length is returned |
| Gfms.EpPortAttachedEpParse | lib/fabric.c:811-830 | an attached device is rebuilt from its header's size field, inside exactly when its functions fit |
| Gfms.EpPortAttachedSwitchParse | lib/fabric.c:832-853 | a switch's header and internal functions are rebuilt, inside exactly when they fit |
| Gfms.SwitchEpsParse | lib/fabric.c:880-888 | any list of devices behind a switch is rebuilt and the loop reaches zero, inside exactly when the list and each device fit |
| Gfms.EpPortSubSectionParse | lib/fabric.c:855-897 | a port that is empty, a device or a switch is rebuilt with its exact length, inside exactly when it fits |
| Gfms.EpPortAllSectionParse | lib/fabric.c:957-991 | copies stay inside exactly when the list of ports fits, and then it is rebuilt, nothing remains, and the exact length is returned |
| Gfms.PaxAllParse | lib/fabric.c:993-1016 | for every consistent database: inside exactly when it fits, and then parsing inverts serialisation and consumes exactly its bytes |
| Gfms.DumpGet | lib/fabric.c:527-568 | with any device that serves chunks of its own choosing the loop ends, walks forward, and on success the buffer is the whole database |
| Gfms.DumpChunk | lib/fabric.c:552-564 | one request, and its chunk put where it belongs |
| Gfms.DumpPaxAll | lib/fabric.c:1018-1053 | start, gets and finish in order; success with a database that fits leaves exactly it in the caller's structure; a failure is a command's or the allocation's |
| Passthru.FragmentationIsExact | lib/fabric.c:1481-1550 | a receiver that appends fragments at the offsets they announce gets the payload exactly when it has at most 66528 bytes |
| Passthru.FragmentShape | lib/fabric.c:1481-1550 | exactly the last fragment says that no more follow, and only an empty payload has an empty one |
| Passthru.AdminPassthruStart | lib/fabric.c:1481-1550 | up to the first refusal, whose code is returned, commands are sent whose fragments put together are the caller's bytes, if at most 66528; none for a null pointer; the expected length goes with the last one only |
| Passthru.AdminPassthruData | lib/fabric.c:1552-1588 | from any sequence of nonempty pieces the response is rebuilt at the start of the buffer, whose rest is untouched; only a response longer than the buffer is copied past it |
| Passthru.NvmeAdminPassthru | lib/fabric.c:1616-1637 | success means the caller's bytes sent in such commands, response collected if a buffer is given, and end marker sent, in this order; a failure's code is the last command's; null pointers included |
| SecurityConfig.ConvertSpiClkRate | lib/mfg.c:911-926 | finds the first clock number whose rate is within 0.1, or reports that none is |
| SecurityConfig.RateIsDivider | lib/mfg.c:129-135 | each table's rates are the core clock, 240 or 200 MHz, over one more than their number |
| SecurityConfig.ClkNumberOfRate | lib/mfg.c:911-926 | every rate in either table comes back as its own number |
| SecurityConfig.SplitInjective | lib/mfg.c:79-104 | the fields of the layout make up the word: equal fields, equal words, on both generations |
| SecurityConfig.CommandSplits | lib/mfg.c:928-1077 | every field of the assembled word holds its own setting and nothing of another, so no two overlap |
| SecurityConfig.CommandInBits | lib/mfg.c:928-1077 | where in the word each setting is written, by bit positions, and that no other bit is set |
| SecurityConfig.CommandParameters | lib/mfg.c:997-1077 | what goes beside the word: exponent, mask and, in DICE mode when valid, the secret seed |
| SecurityConfig.Device.SecurityConfigSet | lib/mfg.c:928-1077 | what each of its exits returns and what the device then stores |
| SecurityConfig.Device.SecurityConfigGet | lib/mfg.c:458-636 | the state is the decoding of the stored word; the rate is read from inside the table exactly up to clock number 10 |
| SecurityConfig.DefaultRate | lib/mfg.c:499-510 | the rate answered for clock number 0, in MHz, for both generations and core clocks |
| SecurityConfig.StateAttestation | lib/mfg.c:609-622 | attestation as answered for any word |
| SecurityConfig.ReadSecCfgFile | lib/mfg.c:1897-2055 | settings from a file, with the error for a short body or a clock number outside the table |
| SecurityConfig.SetThenGet | lib/mfg.c:458-636 | set, then get: every setting comes back, reduced to its field's width, the clock as the table's rate, attestation as DICE mode keeps it |
| SecurityConfig.FileToWord | lib/mfg.c:1897-2055 | reading an accepted file and writing it sends the file's word restricted to the defined fields, the default clock for 0 and attestation in DICE mode only |
| SecurityConfig.KeptReadsTheSame | lib/mfg.c:1897-2055 | reading the word that was sent gives the same settings |
| SecurityConfig.KeptIdempotent | lib/mfg.c:911-1077 | reading and writing once more changes nothing |
| FwDownload.WaitSucceedsIff | lib/fw.c:274-312 | exactly when a wait reports success |
| FwDownload.FwWait | lib/fw.c:274-312 | polls until the first query that fails or finds no operation in progress, each tried up to five times or once, and returns the code the last answers stand for |
| FwDownload.DownloadBlocks | lib/fw.c:816-866 | blocks tile the image in order with the sizes the reads yield, none is sent before the one ahead of it is programmed, and what each exit returns: the read's code, the refusal, the wait's verdict, or 0 exactly for a final status of 7, 8 or 9 |
| FwDownload.WholeImage | lib/fw.c:816-857 | reads that yield the image and blocks that are all programmed send the whole image and reach the end |
| FwDownload.TilesAt | lib/fw.c:816-866 | each block carries the image's bytes at its own offset under the one total length |
| FwDownload.SettledBeforeNext | lib/fw.c:274-312 | by the time a block is sent the device has answered that the operation before it is over |
| FwDownload.MaskIrq | lib/fw.c:728-744 | saves both event headers and clears bit 3 of each and nothing else |
| FwDownload.RestoreIrq | lib/fw.c:746-755 | writes both headers back |
| FwDownload.FwWrite | lib/fw.c:768-874 | over any device and file: busy is refused with -16 before anything is sent, every command of a mapped run finds both interrupts masked, on every exit the headers are as before and the map released, and the result is what the exit says |
| PartSummary.GetMulticfg | lib/fw.c:2249-2291 | how many extra configurations survive, with their extents and the active flag, and which answer a failure reports |
| PartSummary.Classify | lib/fw.c:2483-2493 | each type's pointers are null or the last record of that type and flag; an unknown type is refused |
| PartSummary.Link | lib/fw.c:2495-2499 | the tail records, in order, form a null-terminated list, and the partitions stay unlinked |
| PartSummary.ChainLinks | lib/fw.c:2495-2499 | such a list visits each record once and ends |
| PartSummary.FwPartSummary | lib/fw.c:2407-2502 | the whole heap shape after success, with the lengths by generation and by the device's answers, and failure exactly for an unknown generation, no memory, unread partitions or an unknown type |
| Events.ReportedAsItself | lib/events.c:68-151 | exactly which events the reverse tables give back under their own name |
| Events.EventBits | lib/events.c:68-111 | the bit of every event, from its value in the library's enumeration |
| Events.Summary.Set | lib/events.c:176-211 | the new words for a concrete, ALL or LOCAL index, and the refused indices with nothing changed |
| Events.Summary.Iter | lib/events.c:249-292 | hands out and clears the least pending bit, or reports that nothing visible is pending |
| Events.ItemsAfterClear | lib/events.c:256-290 | clearing removes the item handed out and no other, even for bit 31 with its sign-extended mask |
| Events.Drain | lib/events.c:249-292 | a drain lists every pending bit once, globals first, then partitions and ports by index, lowest bit first, and leaves none |
| Events.OrderIs | lib/events.c:256-290 | that order |
| Events.ItemsAfterRequest | lib/events.c:176-211 | a request adds exactly the bits it names |
| Events.RequestsInNumbers | lib/events.c:176-211 | which indices are accepted, up to 48 partitions and 255 ports, and what each request asks to see |
| Events.SetThenDrain | lib/events.c:176-292 | after any sequence of requests a drain gives exactly the requested bits, despite repetition and order, and for reportable events exactly the events asked for, each at each of its indices once |
| Events.DrainReportsWanted | lib/events.c:176-292 | why: a listing of the requested bits, under their reverse-table names, is a listing of the requested events |
| NumberRanges.StrTok | cli/argconfig.c:1112-1113 | one token after another, as the list of all of them says |
| NumberRanges.ArgconfigParseCommaRange | cli/argconfig.c:1103-1134 | the loop accepts and stores, rejects, or leaves its array, as the parse of the token list says |
| NumberRanges.NumberReadsBack | cli/argconfig.c:1116-1118 | any number in decimal, negative ones too, is read back up to a dash or the end |
| NumberRanges.OtherBases | cli/argconfig.c:1116-1118 | hexadecimal after 0x, octal after 0, and blanks before, as base 0 promises |
| NumberRanges.ParseMeans | cli/argconfig.c:1103-1134 | a list of numbers and ranges is rejected exactly when a running count is the limit, overruns the array exactly when it is longer and no running count is, and otherwise parses to the concatenation of its intervals |
| NumberRanges.RangeOverruns | cli/argconfig.c:1116-1120 | a range of 65 numbers overruns an array of 64 |
| NumberRanges.CfgMaskHandler | cli/argconfig.c:696-753 | for every mask type: done exactly for lists in range and below 32, and then the mask holds its old bits and the listed ones; old bits are never lost |
| NumberRanges.OrBitIsOr | cli/argconfig.c:717-744 | bits are binary digits, and setting one is an or with a power of two |
| NumberRanges.SetBitsAdds | cli/argconfig.c:713-745 | accepted exactly when every number is in range and below 32, and then the mask holds its old bits and the listed ones, with all above bit 31 in a 64-bit mask if that is listed |
| NumberRanges.PortMaskToString | cli/main.c:2623-2666 | the run-detecting loop prints the comma-separated list of the mask's maximal runs, and stays inside its buffer's start exactly for nonempty masks |
| NumberRanges.RunsAreBits | cli/main.c:2636-2660 | the printed runs stand for exactly the bits of the mask, in ascending order |
| NumberRanges.RunsAreMaximal | cli/main.c:2636-2660 | the printed runs are maximal, and only those of several bits are ranges |
| NumberRanges.MaskReadsBack | cli/main.c:2623-2666 | a printed mask of any width with fewer bits than the limit, read by the mask option, is the mask, exactly when a 64-bit one keeps below bit 31 |
| NumberRanges.PortMaskRoundTrip | cli/main.c:2623-2666 | a port mask survives printing and reading exactly when it is not the full one |
| Bifurcation.StackBifSet | cli/main.c:1549-1589 | a request list is accepted exactly when some aligned, disjoint, in-order layout of it fits, the slots are those of the earliest one, and which lists store past the slots |
| Bifurcation.RequestsUpTo | cli/main.c:1562-1564 | the request list is what comes before the first -1 |
| Bifurcation.EarliestIsLeast | cli/main.c:1562-1589 | placing each request as early as possible starts no request later than any other layout does |
| Bifurcation.FitsIffLayout | cli/main.c:1562-1589 | greedy placement decides the existence of a layout |
| Bifurcation.HowManyFit | lib/switchtec.c:2351-2383 | how many equal bifurcations a stack takes, on an ordinary one and on the last of Gen4 |
| Bifurcation.StoresPastIff | cli/main.c:1571-1582 | a store past the slots happens exactly when a prefix of the requests is placed and the next, valid one only finds room behind the end |
| Bifurcation.AloneLanes | lib/switchtec.c:2351-2358 | a placed port has invalid lanes exactly when it is a bifurcation of 8 in the last stack of Gen4 |
| Bifurcation.AcceptedLanes | cli/main.c:1562-1589 | all lanes of an accepted list are valid exactly when it has no such request |
| Bifurcation.EightInTheLastStack | cli/main.c:1562-1589 | that request is accepted and its lanes 4 to 7 are no ports |
| Bifurcation.WidthMask | cli/main.c:1574-1575 | the bitwise test for alignment is the remainder by the width |
| Bifurcation.SlotAtStart | cli/main.c:1579 | the slot at a request's start holds that request |
| Bifurcation.SlotElsewhere | cli/main.c:1552 | every other slot is 0 |
| Bifurcation.StackBifPrint | cli/main.c:1505-1523 | the walk in steps of the width |
| Bifurcation.SetThenPrint | cli/main.c:1505-1523 | after an accepted list the walk lands on every start: the enabled lines are the enabled requests in order, and disabled ones have their line |
| Cap.RegisterWritten | lib/cap.c:157-265 | the bytes of one write change the register they belong to and no other |
| Cap.FieldsInBytes | inc/switchtec/cap.h:56-86 | where every field lies, byte by byte |
| Cap.MulticastCapGet | lib/cap.c:70-101 | the registers read are those in the device's memory, and which code a failure has |
| Cap.MulticastCapSet | lib/cap.c:118-270 | success is the whole update and failure, with the last command's code, a prefix of its six steps, with nothing outside the capability touched |
| Cap.WriteCtrl | lib/cap.c:145-167 | the control step, also when the write is skipped because nothing changes |
| Cap.PutLow | lib/cap.c:153-154 | replacing low bits by masks and an or is replacing the remainder |
| Cap.TopBit | lib/cap.c:148-151 | setting and clearing the enable bit |
| Cap.StepsMeetRequest | lib/cap.c:103-117 | exactly when the steps amount to the request taken at its word |
| Cap.RequestInWords | lib/cap.c:103-117 | what that request is: what is asked for is set and everything else is as it was |
| GasSlots.FindPortByBdf | lib/cap.c:295-360 | finds the first bound port whose address, read from its text, is the one asked for, and the base of its slot, or none exactly when there is none |
| GasSlots.SlotCounts | lib/cap.c:317-357 | which slot a port has, by counting the ports before it |
| GasSlots.SlotRegions | lib/cap.c:317-357 | upstream ports lie in the first slots, the management slot is never assigned, downstream ports lie after it |
| GasSlots.BasesApart | lib/cap.c:317-357 | different ports have different bases |
| GasSlots.FirstMatchIsOwn | lib/cap.c:326-351 | among ports with different addresses a search for one of them, however written, matches that port and no other |
| Stopwatch.TimevalSubtract | cli/progress.c:56-76 | the difference is exact, its microseconds between 0 and a million, and the rewritten operand keeps its instant |
| Stopwatch.Progress.Elapsed | cli/progress.c:110-121 | every reading reports exactly the elapsed microseconds and leaves the start's instant alone |
| Stopwatch.StartOverRun | cli/progress.c:56-76 | over any run of readings, which of two splits the start time has |
| Stopwatch.ResultNormalIff | cli/progress.c:56-76 | exactly when the next result is normalised |

## Left out

- Device access: ioctls, mapping, sleeping and the clock are answers, parameters or nothing; command numbers have no values.
- Gen6 security configuration, signatures, keys and tokens: field copies and foreign code.
- SecurityConfig.ConvertSpiClkRate: rates are real numbers, so the rounding of C floats is not modelled; the tables' rates are further apart than the tolerance.
- CfgFile.CheckSecCfgHeader: a failing position query, whose result the source does not check, is not modelled.
- Gfms.PaxAllParse: databases whose size fields contradict their contents are not modelled, and what an overrun leaves in memory only for the last domain; structures that are copied as they stand are kept as bytes. The command that fetches a single section repeats the argument.
- FwDownload.FwWrite: seeking, the image's length query and the progress callback are not modelled; reads return lengths, try-again or failure.
- FwDownload.SettledBeforeNext: failing status queries are taken to be negative, as after a positive one the source keeps its old background status.
- PartSummary.FwPartSummary: the decoding of partition records is not modelled.
- Events.Summary.Iter: words are sets of bit numbers, not machine words; the null-pointer check is left out. LOCAL requests go to a word the iterator does not visit, and stay there.
- NumberRanges.ArgconfigParseCommaRange: numbers beyond a C int are not modelled.
- NumberRanges.PortMaskToString: truncation to the buffer's length is not modelled.
- Bifurcation.StackBifSet: the confirmation and the command are left out.
- Cap.MulticastCapSet: a failed write is taken to change nothing, and registers that ignore writes to some bits are not modelled.
- GasSlots.FindPortByBdf: reading a bus address from text is a parameter.
- Stopwatch.Progress.Elapsed: rates and estimates in floating point are left out.
- Writing through the GAS command memory in several chunks, event pages of the fabric manager, eye capture, LTSSM logs and the other diagnostics: chunk loops like the ones modelled, or formatting.
- Name tables, option tables, help texts and the terminal interface.
