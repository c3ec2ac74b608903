# Hardware monitor: firmware tables, port access and the VM-exit path

A model, in Dafny, of the parts of the hardware monitor where bytes that nobody vouches for are taken apart and
where processor state is changed step by step, with proofs about it. `dafny verify dfyconfig.toml` checks everything.

- **SMBIOS** (`SmbiosTable`, `SmbiosEncoding`, `Smbios`, `Uuid`, `SmbiosReadBack`). The structure table is a sequence of bytes
  and structures are offsets in it. `Walk` is the list of visited structures and the reason for stopping; the loops of
  the program are methods proved against it. `SmbiosEncoding` holds the layout of DMTF DSP0134, sections 6.1.2 and
  6.1.3, as an encoder, and the round trips in both directions; `SmbiosReadBack` goes from encoded answers to what the
  collectors leave.
- **Memory ranges** (`MemoryInfo`). The second walk over the same table, with its own stop conditions, related to the
  first; and the 64-bit arithmetic of Type 19 (section 7.20).
- **ACPI** (`Checksum`, `AcpiTables`, `Acpi`, `AcpiReadBack`). The checksum, the MADT and MCFG walks with their caps, and the loop over
  all tables as a fold, with every fetched buffer accounted for; and the same from encoded tables to the collected result.
- **VM exits** (`VmExit`). The trampoline is a listing executed by a small processor model; the C handler edits the saved
  registers in host memory. The main theorem compares whole guest runs with and without the hypervisor, and says exactly
  when they cannot be told apart.
- **Launching** (`VmxLaunch`). `HvTryLaunch` against a monitor of what VMX operation allows, for every outcome of every
  step and any number of attempts.
- **Ports and requests** (`PciPorts`, `Ioctl`, `DriverWords`). The CF8/CFC protocol as interleaved steps of any number of
  processors, the request dispatcher with the trace of its hardware accesses, the serial order that ties the two together,
  and the bit packings both use.
- **Class codes** (`ClassCode`). Selecting the most specific compatible ID of a device and taking its digits apart.

`Wrappers`, `Bytes` and `Monitors` are shared: options, little-endian words and NUL-terminated strings, and acceptance of
a trace by a monitor (`Accept`). Operating-system and firmware calls are arbitrary answers (parameters, or constant fields
such as `Platform.answers`), so every theorem holds for all of them.

Code that works in place is a class here: `SmbiosData`, `MemoryInfo`, `MadtInfo`, `McfgInfo`, `AcpiData`, `HostCpu`,
`Hypervisor`, `Driver`, `PciDevice`. Their methods carry the loops of the program. A few methods are parts of one C function, cut
out so that each proof stays small: `CollectStructures`, `WalkRegions`, `AddRange`, `ReadRange`, `CollectTables`, `CollectOne`,
`AddTable`, `ParseTable`, `ParseEntries`, `ParseEntry`, `AllocateState`,
`TryVmx`, `EnterVmx`, `LaunchVmcs`, `RollBack`, `FreeState`, `ReadMemoryDevice`, `ReadDigits`, `CountDigits`, `Store` and the three request
methods of `Driver`. The
`CollectEncoded` methods and `CollectEncodedRegions` call the collectors to state their results on encoded tables.

## Where the code and its words differ

The model follows the code.

- `src/firmware/smbios.c:71` says that the case on line 72 is a two-byte string area at the end. The loop above it handles
  that one; line 72 decides only when exactly one byte follows the formatted area (`SmbiosTable.NextIsExact`).
- `src/firmware/smbios.c:223-237` counts a structure as parsed before its strings are known to end, so the last one can be
  counted both as parsed and as malformed (`Smbios.SmbiosData.Collect`; `SmbiosTable.LastIsVisitedAndMalformed` is such a table).
- The string lookup and the skip part ways exactly when a string area opens with a single NUL. The lookup then sees an
  empty set, and the skip goes on to the next double NUL or ends the table (`SmbiosTable.SkipAgreesWithLookup`,
  `SmbiosEncoding.DecodeThenEncode`; `SmbiosTable.SkipAndLookupPart` is such a structure).
- `src/firmware/smbios.c:169-173` reads the configured speed at 0x24, where section 7.18 of DSP0134 has another field. The
  model reads 0x24 and claims nothing about the standard there.
- `src/memory/memory_info.c:64-69` drops the one extended range that covers the whole address space, because its length
  wraps to zero (`MemoryInfo.RangeIsSound` says exactly what is dropped; `MemoryInfo.WholeAddressSpaceIsDropped` is the range).
- `driver/hv/hwmon_hv.c:440` sets CR4.VMXE and no failing path clears it (`VmxLaunch.Hypervisor.HvTryLaunch`).
- `driver/hv/hwmon_hv.c:221` forces bits to one and then masks them with what may be one; the bits that must be one survive
  exactly when the capability also allows them (`DriverWords.AdjustControlMeetsRequired`, with `DriverWords.RequiredBitIsLost`).
- `driver/hwmon_ioctl.h:57` admits offsets up to 4095; `driver/hwmon_driver.c:87` refuses those past 4092
  (`Ioctl.LastOffsetsAreRefused`).
- `driver/hv/hwmon_hv_asm.asm:77-83` promises a guest that sees itself untouched except for the results. The listing saves the
  fifteen general-purpose registers; a call may also change XMM0 to XMM5, the upper halves of the YMM registers and the x87
  stack. The promise is kept exactly when the compiled handler does not (`VmExit.CpuidExitsAreTransparent`, with
  `VmExit.CpuidCanBeSeen`).
- `driver/hv/hwmon_hv.c:169` takes only the selector word zero for a null selector; 1, 2 and 3 are null selectors too
  (`DriverWords.AccessRightsReservedBits`).

## Model

| member | source | states |
|---|---|---|
| SmbiosTable.NextStructure | src/firmware/smbios.c:64-74 | for any bytes the skip loop computes `Next`, whose own contract says that a successor lies past the formatted area and inside the table |
| SmbiosTable.NextIsExact | src/firmware/smbios.c:64-74 | a skip lands on q if and only if q is two past the least double NUL of the string area, or q is the table end with one zero byte after a formatted area that ends in zero |
| SmbiosTable.GetString | src/firmware/smbios.c:26-46 | the lookup with its 8-bit counter finds string number `index` of the set for every index, and nothing for 0, past the set, or in an unterminated string |
| SmbiosTable.StringsStayInStructure | src/firmware/smbios.c:26-74 | when the skip lands on q, every string that any index reaches lies with its terminator in [cur + hlen, q - 1) |
| SmbiosTable.SkipAgreesWithLookup | src/firmware/smbios.c:26-74 | whenever the skip lands anywhere, a first string means that it lands one past the empty string that ends the lookup; with a leading NUL the lookup ends at once, and the skip lands two past it if and only if it is doubled |
| SmbiosTable.SkipAndLookupPart | src/firmware/smbios.c:26-74 | a concrete structure where they land in different places |
| SmbiosTable.WalkFollowsNext | src/firmware/smbios.c:209-239 | the visited list starts at the table, each next offset is where the skip from the one before lands, all fit the table, and the last has no successor exactly for the unterminated stop |
| SmbiosTable.WalkStopsBecause | src/firmware/smbios.c:212-221 | right behind the last visited structure, the walk stops as exhausted, malformed or ended exactly when fewer than four bytes are left, the header does not fit, or a structure of type 127 stands there |
| SmbiosTable.WalkIsBounded | src/firmware/smbios.c:209-239 | 6 * visited <= bytes + 2 for every table |
| SmbiosTable.LastIsVisitedAndMalformed | src/firmware/smbios.c:223-237 | a concrete table whose one structure is visited and is also where the table is found malformed |
| SmbiosTable.Table | src/firmware/smbios.c:196-210 | the table is the claimed length cut to what was received |
| SmbiosTable.TableIsCut | src/firmware/smbios.c:196-210 | for an encoded header with any length: the table is that many of the bytes that follow, or all of them when there are fewer |
| SmbiosEncoding.TableRoundTrip | src/firmware/smbios.c:209-239 | any list of structures, encoded at any offset and followed by the end or by an end marker and anything else, is visited exactly, in order, and the walk stops without a malformed structure |
| SmbiosEncoding.StructureReadsBack | src/firmware/smbios.c:64-74 | an encoded structure shows its type, length and formatted area, and the skip lands right behind it |
| SmbiosEncoding.LookupReadsBack | src/firmware/smbios.c:26-46 | index i finds the i-th encoded string for 1 <= i <= min(n, 255), and nothing otherwise |
| SmbiosEncoding.StringsReadBack | src/firmware/smbios.c:26-46 | reading an encoded string set gives the strings back and ends on the closing NUL |
| SmbiosEncoding.ChainIsWalked | src/firmware/smbios.c:209-239 | structures linked by the skip are a prefix of the walk, which goes on from where the last one lands |
| SmbiosEncoding.DecodeThenEncode | src/firmware/smbios.c:26-74 | on arbitrary bytes, decoding a terminated structure and encoding it gives the same bytes if and only if the string area does not open with a lone NUL |
| Smbios.CopyStringField | src/firmware/smbios.c:48-59 | the output array holds the string cut to fit, then a NUL, and is unchanged past that |
| Smbios.SmbiosData.Collect | src/firmware/smbios.c:183-244 | for any firmware answer: each section equals what the visited structures say, the counters are the length of the walk and whether it ended on a malformed structure, and a failed call leaves everything zero |
| Smbios.SmbiosData.CollectStructures | src/firmware/smbios.c:209-239 | the collector loop keeps every section in step with the structures visited so far |
| Smbios.SmbiosData.ParseStructure | src/firmware/smbios.c:223-230 | one more structure changes the section of its type and no other |
| Smbios.SmbiosData.ParseBios | src/firmware/smbios.c:78-83 | each BIOS field is that of the last Type 0 structure long enough to carry it |
| Smbios.SmbiosData.ParseSystem | src/firmware/smbios.c:104-116 | the same for Type 1, with the UUID as its 36 printed characters |
| Smbios.SmbiosData.ParseBaseboard | src/firmware/smbios.c:118-124 | the same for Type 2 |
| Smbios.SmbiosData.ParseChassis | src/firmware/smbios.c:126-131 | the same for Type 3, with the chassis type without its top bit |
| Smbios.SmbiosData.ParseMemoryDevice | src/firmware/smbios.c:133-181 | a Type 17 structure is appended while fewer than 64 devices are held, otherwise nothing changes |
| Smbios.ReadMemoryDevice | src/firmware/smbios.c:135-178 | the device has every field whose bytes lie in the formatted area, and zero for the others |
| Smbios.CapacityReadsBack | src/firmware/smbios.c:138-159 | every capacity (none, unknown, megabytes, kilobytes, extended) reads back in megabytes from its size word and extended field |
| Smbios.EveryWordIsACapacity | src/firmware/smbios.c:138-159 | every size word is that of a capacity, so none is left out |
| Uuid.UuidTextIsExact | src/firmware/smbios.c:85-102 | dashes at 8, 13, 18 and 23 and upper-case digits elsewhere; in the little-endian layout the first three groups spell the values of a 32-bit and two 16-bit little-endian words, in the other layout the bytes in order; the last two groups spell the other bytes in order |
| Uuid.UuidTextIsInjective | src/firmware/smbios.c:85-102 | two UUIDs are printed alike if and only if they are the same, in either layout |
| SmbiosReadBack.CollectEncoded | src/firmware/smbios.c:183-244 | end to end: on any raw answer that holds an encoded list of structures, every section, the first 64 memory devices, the version and the counters are what the structures mean, with the UUID layout chosen by the version bytes, and nothing is malformed |
| SmbiosReadBack.CollectEncodedRegions | src/memory/memory_info.c:35-112 | end to end: on the same answers the regions are the first 32 ranges that the structures mean |
| SmbiosReadBack.EncodedTableReadsBack | src/firmware/smbios.c:209-239 | for every encoded list, with or without an end marker, the visited structures say what was meant in every text, UUID, chassis type, memory device and range |
| SmbiosReadBack.RawReadsBack | src/firmware/smbios.c:196-210 | an encoded answer holds its structures, whatever its version, its end marker and the bytes after its table |
| SmbiosReadBack.TextsReadBack | src/firmware/smbios.c:48-131 | a text field is the string that the last structure of its type names, cut to 63 bytes |
| SmbiosReadBack.DeviceReadsBack | src/firmware/smbios.c:133-181 | an encoded Type 17 structure is collected as the device its formatted area and strings describe |
| SmbiosReadBack.ModuleReadsBack | src/firmware/smbios.c:133-181 | a Type 17 structure encoded field by field is collected with its capacity, speeds, type and four texts |
| SmbiosReadBack.RangeReadsBack | src/memory/memory_info.c:58-86 | an encoded structure maps the range that its formatted area describes |
| SmbiosReadBack.OneTextReadsBack | src/firmware/smbios.c:48-83 | one encoded structure carries a field exactly when it is long enough, and the field reads back as the string named |
| MemoryInfo.MemoryInfo.CollectRegions | src/memory/memory_info.c:35-94 | the regions are exactly those of the visited structures and the first 32 of the SMBIOS collector's whole list; the visited structures are the prefix of that list that ends where the 32nd region is found, or all of it |
| MemoryInfo.VisitsIsUnique | src/memory/memory_info.c:52-91 | only one prefix fits that description |
| MemoryInfo.MemoryInfo.WalkRegions | src/memory/memory_info.c:49-91 | the same for the loop alone |
| MemoryInfo.MemoryInfo.AddRange | src/memory/memory_info.c:58-86 | one visited structure appends its range, if it has one, and keeps the regions in step with the visited structures |
| MemoryInfo.FirstRegionsSuffice | src/memory/memory_info.c:52-91 | stopping at 32 regions loses none of the first 32 |
| MemoryInfo.RegionsOfPrefix | src/memory/memory_info.c:49-91 | the regions of a prefix of the visited structures are a prefix of the regions |
| MemoryInfo.ReadRange | src/memory/memory_info.c:58-86 | the 64-bit arithmetic with its wrap gives the region from the first to the last address, or none |
| MemoryInfo.RangeIsSound | src/memory/memory_info.c:58-86 | every region is non-empty, ends by 2^64 and has the base and length of its range on both paths; there is none if and only if the structure is of another type or too short, or its range is reversed, lacks its extended fields or is the whole address space |
| MemoryInfo.WholeAddressSpaceIsDropped | src/memory/memory_info.c:64-69 | a concrete Type 19 structure that maps 0 to 2^64 - 1 and is lost |
| MemoryInfo.MemoryInfo.Collect | src/memory/memory_info.c:96-112 | the call succeeds exactly if the system gave totals or a region was found; the regions are the first 32 of the table, and none without a table |
| Checksum.ChecksumOk | src/firmware/acpi.c:21-25 | the byte-wise wrapping loop decides whether the unbounded sum is 0 modulo 256 |
| Checksum.SumConcat | src/firmware/acpi.c:21-25 | the sum splits over concatenation |
| Checksum.ChecksumByteIsUnique | src/firmware/acpi.c:21-25 | at any position, exactly one byte value makes the table valid |
| Checksum.OneByteChangeIsDetected | src/firmware/acpi.c:160-168 | a valid table with one byte changed is not valid |
| AcpiTables.MadtInfo.Parse | src/firmware/acpi.c:44-91 | the parsed MADT holds the first 512 processors of the entry list, the address, and zeroes behind them, whatever it held before |
| AcpiTables.MadtInfo.ParseEntries | src/firmware/acpi.c:52-87 | the entry loop, with its in-place appends, gives that list |
| AcpiTables.MadtInfo.ParseEntry | src/firmware/acpi.c:58-84 | an entry appends the processor it describes while fewer than 512 are held, and nothing otherwise |
| AcpiTables.MadtRoundTrip | src/firmware/acpi.c:44-91 | any encoded MADT gives back its address and the first 512 recognised processors of its entries in order, with identifiers and both flag bits, and everything else is skipped |
| AcpiTables.EntryReadsBack | src/firmware/acpi.c:54-84 | one entry, encoded with "enabled" as bit 0 and "online capable" as bit 1 of its flags, reads back as the processor it means, or as none |
| AcpiTables.TruncatedMadtIsPrefix | src/firmware/acpi.c:44-91 | for every table and every cut, the processors of the cut table are a prefix of those of the whole |
| AcpiTables.McfgInfo.Parse | src/firmware/acpi.c:93-112 | the entries are all whole records past the reserved field, at most sixteen |
| AcpiTables.McfgRoundTrip | src/firmware/acpi.c:93-112 | any list of encoded records, perhaps with a piece of one more, gives back its first sixteen entries in order, field by field |
| AcpiTables.TruncatedMcfgIsPrefix | src/firmware/acpi.c:93-112 | for every table and every cut, the entries of the cut table are a prefix of those of the whole |
| Acpi.AcpiData.Collect | src/firmware/acpi.c:140-195 | for any answers: the result says what the first 64 usable tables say, and every buffer handed out was freed exactly once on every path |
| AcpiReadBack.CollectEncoded | src/firmware/acpi.c:140-195 | end to end: on buffers that hold encoded tables among missing and short ones, the first 64 tables are recorded with their header fields, and FADT, MADT, MCFG and HPET say what the last table with that signature and a good checksum means |
| AcpiReadBack.TableReadsBack | src/firmware/acpi.c:158-172 | a buffer that starts with an encoded table is checked, summarised and parsed as exactly that table |
| AcpiReadBack.SectionReadsBack | src/firmware/acpi.c:174-188 | the section of a signature is the last encoded table with it whose checksum holds |
| Acpi.EffectiveReadsBack | src/firmware/acpi.c:163-166 | a table whose length field is its length is trusted for exactly its bytes, whatever was received after them |
| Acpi.EffectiveFallsBack | src/firmware/acpi.c:163-166 | a length of zero, or longer than what was received, means all received bytes |
| Acpi.AcpiData.AddTable | src/firmware/acpi.c:158-188 | one more table is always recorded and is parsed only if its checksum holds |
| Acpi.AcpiData.ParseTable | src/firmware/acpi.c:174-188 | a table changes the section of its signature and leaves the others unchanged |
| Acpi.AcpiData.CollectOne | src/firmware/acpi.c:148-191 | one step of the loop keeps the result in step with the answers and holds no table buffer afterwards |
| Acpi.LastValidIsLast | src/firmware/acpi.c:174-188 | a section comes from the last recorded table with its signature that passed its checksum, and is zero exactly when there is none |
| Acpi.FirstTablesSuffice | src/firmware/acpi.c:148-191 | stopping at 64 tables loses none of the first 64 |
| VmExit.HostCpu.HvExitHandler | driver/hv/hwmon_hv_asm.asm:86-137 | executing the trampoline from an exit resumes with what CPUID leaves in the registers, RIP advanced and the host stack pointer back, or traps |
| VmExit.PushesSave | driver/hv/hwmon_hv_asm.asm:88-102 | pushing any list of registers stores each at its place below the old stack pointer and nothing elsewhere |
| VmExit.PopsRestore | driver/hv/hwmon_hv_asm.asm:112-126 | popping any list of distinct registers loads each from its place and keeps the others |
| VmExit.OrdersMatchStruct | driver/hv/hwmon_hv.h:32-51 | push order, pop order and the field offsets of the struct name the same slot for every register |
| VmExit.HandlerEdits | driver/hv/hwmon_hv.c:227-258 | on a CPUID exit the saved frame becomes what CPUID leaves, RIP moves past the instruction and the result is 0; on any other exit the VMCS is unchanged and the result is 1; nothing above the frame is written |
| VmExit.CallWorks | driver/hv/hwmon_hv_asm.asm:104-110 | the call sequence keeps the stack pointer and goes on or traps as the exit reason says |
| VmExit.ExitHandlerWorks | driver/hv/hwmon_hv_asm.asm:86-137 | the whole listing has the effect of one exit, and leaves the vector registers as the handler does |
| VmExit.ExitResults | driver/hv/hwmon_hv.c:236-257 | register by register: reason 10 gives RAX to RDX the zero-extended results of CPUID on the low halves of RAX and RCX, keeps the other eleven, adds the length to RIP modulo 2^64 and resumes; any other reason traps |
| VmExit.StepIsTransparent | driver/hv/hwmon_hv.c:227-258 | after one step the trapped guest and the native guest agree on the fifteen registers, RIP and RSP, and on the vector registers if and only if the handler leaves them alone |
| VmExit.CpuidExitsAreTransparent | driver/hv/hwmon_hv_asm.asm:86-137 | for any guest, any CPUID function and any number of steps, the trapped run and the native run agree after every step, up to the trap at the first other exit, if and only if the handler leaves the vector registers alone at every CPUID |
| VmExit.CpuidCanBeSeen | driver/hv/hwmon_hv_asm.asm:77-137 | a concrete run where it does not, and the guest sees it |
| VmExit.OnlyHostStackIsWritten | driver/hv/hwmon_hv_asm.asm:86-137 | over any run, whatever the handler leaves behind, only the host stack is written |
| VmxLaunch.Hypervisor.HvTryLaunch | driver/hv/hwmon_hv.c:391-494 | for any outcomes every step is legal; a success leaves the guest running and every failure leaves VMX off, the state pointer NULL and no memory held, with CR4.VMXE left set |
| VmxLaunch.AttemptIsLegal | driver/hv/hwmon_hv.c:391-494 | the trace of an attempt is accepted from end to end by the monitor of legal steps |
| VmxLaunch.AttemptNeedsFirmware | driver/hv/hwmon_hv.c:132-157 | over the bits of the two registers: VMXON is tried if and only if CPUID's VMX bit, the lock and "VMX outside SMX" are set and an aligned block was given; without the three bits nothing is done |
| VmxLaunch.VmcsStepsAreLegal | driver/hv/hwmon_hv.c:451-489 | VMCLEAR, VMPTRLD, writes and VMLAUNCH come in a legal order for every outcome |
| VmxLaunch.SessionIsLegal | driver/hv/hwmon_hv.c:391-494 | any sequence of attempts is legal throughout and ends in the guest exactly if some attempt succeeds, otherwise clean |
| VmxLaunch.LegalTracesBalance | driver/hv/hwmon_hv.c:414-494 | in every legal trace the allocations minus the frees are what is held at the end, minus what was held at the start |
| VmxLaunch.SessionBalances | driver/hv/hwmon_hv.c:414-494 | a session that launches nothing frees all it allocated |
| Monitors.AcceptConcat | driver/hv/hwmon_hv.c:391-494 | a concatenation is accepted if and only if the first part is and the second is from where the first ends |
| PciPorts.NextKeepsInv | driver/hwmon_driver.c:64-77 | every step of every processor keeps mutual exclusion, the owner's address in the port and the truth of all replies |
| PciPorts.EverySchedule | driver/hwmon_driver.c:60-77 | for any number of processors and any interleaving, at most one is between acquire and release, and each completed read returned the dword at the address that says its own bus, device, function and offset |
| PciPorts.LockCanAlwaysBeFreed | driver/hwmon_driver.c:71-75 | whenever the lock is held, its holder frees it by its own next steps |
| PciPorts.EveryScheduleIsSerial | driver/hwmon_driver.c:60-77 | the accesses of every interleaving are those of its completed calls one after another, in the order in which they end, then what the holder of the lock has begun |
| PciPorts.EveryScheduleIsAllowed | driver/hwmon_driver.c:60-77 | the dispatcher's rules for the ports hold of every interleaving |
| PciPorts.RepliesAreRequests | driver/hwmon_driver.c:152-164 | each completed call of an interleaving makes the accesses of the request with its four bytes, and returns that request's answer from the machine as it was when the data port was read |
| Ioctl.Driver.MsrIsWhitelisted | driver/hwmon_driver.c:42-47 | the loop decides membership in the list |
| Ioctl.Driver.ReadPciConfigDwordLegacy | driver/hwmon_driver.c:64-77 | the value is the dword at the computed address, read under the lock |
| Ioctl.Driver.ReadPcieConfigDwordEcam | driver/hwmon_driver.c:85-108 | out-of-range requests touch nothing, every mapping is unmapped, and a success returns the dword at the computed page and offset |
| Ioctl.Driver.HwmonDeviceControl | driver/hwmon_driver.c:117-198 | for any request and hardware: status, answer and hardware accesses are those specified, the answer fits the output, and the buffer changes only in its first bytesReturned bytes |
| Ioctl.RepliesAreHonest | driver/hwmon_driver.c:130-185 | which requests succeed, over the bytes of the buffer; an answer is empty unless the request succeeds, and then it is the little-endian value of the register, configuration dword or mapped dword that these bytes address, and the hardware saw exactly the accesses for it |
| Ioctl.FailuresAreExact | driver/hwmon_driver.c:127-192 | the status of every failing request, over the bytes of the buffer |
| Ioctl.U32IsLittleEndian | driver/hwmon_driver.c:134-135 | byte k of a 32-bit field stands at its offset plus k |
| Ioctl.U64IsLittleEndian | driver/hwmon_driver.c:172-173 | the low half of a 64-bit field stands first |
| Ioctl.U16IsLittleEndian | driver/hwmon_driver.c:172-173 | the low byte of a 16-bit field stands first |
| Ioctl.EventsAreAllowed | driver/hwmon_driver.c:42-108 | the accesses of one request obey the driver's rules and leave lock and mapping released |
| Ioctl.SessionIsAllowed | driver/hwmon_driver.c:117-198 | so do those of any sequence of requests |
| Ioctl.DriverIsReadOnly | driver/hwmon_driver.c:117-198 | over any sequence of requests only whitelisted MSRs are read and no port but CF8 is written |
| Ioctl.U64ReadsBack | driver/hwmon_driver.c:144-147 | eight little-endian bytes read back as the value they encode |
| Ioctl.LastOffsetsAreRefused | driver/hwmon_driver.c:87-89 | the request for offset 4093 is refused |
| DriverWords.ConfigAddressIsInjective | driver/hwmon_driver.c:65-69 | within range, two requests have the same address if and only if they name the same function and dword |
| DriverWords.ConfigAddressIsWellFormed | driver/hwmon_driver.c:65-69 | for all inputs the enable bit is set and reserved and low bits are clear |
| DriverWords.ConfigAddressIsExact | driver/hwmon_driver.c:65-69 | the address has each field in its place, the enable bit, and zero elsewhere |
| DriverWords.EcamOrIsSum | driver/hwmon_driver.c:92-93 | within range, packing with OR equals adding |
| DriverWords.EcamPageIsExact | driver/hwmon_driver.c:91-93 | within range, the mapped page is the base plus an offset with the bus in bits 27:20, the device in bits 19:15, the function in bits 14:12 and zero elsewhere |
| DriverWords.OffsetIsUnique | driver/hwmon_driver.c:92-93 | there is only one such offset |
| DriverWords.EcamPagesAreDisjoint | driver/hwmon_driver.c:91-95 | an address is in the mapped page of one function at most, even where the sum wraps |
| DriverWords.EcamDwordStaysInPage | driver/hwmon_driver.c:87-99 | the dword read is the aligned one containing the offset and lies inside the page |
| DriverWords.TssReadsBack | driver/hv/hwmon_hv.c:159-208 | for a selector with any index and low bits, a 16-byte TSS descriptor of any 64-bit base at that index reads back as that base, and its access rights as its type and flags |
| DriverWords.AccessRightsReservedBits | driver/hv/hwmon_hv.c:159-177 | bits 11:8 are always clear, and "unusable" is reported exactly when the selector word is zero |
| DriverWords.AdjustControlStaysAllowed | driver/hv/hwmon_hv.c:210-225 | for a register with required bits in its low half and allowed bits in its high half: no bit outside the allowed ones is set, and free bits keep their desired value |
| DriverWords.AdjustControlMeetsRequired | driver/hv/hwmon_hv.c:210-225 | every required bit is set if and only if each required bit is also allowed |
| DriverWords.RequiredBitIsLost | driver/hv/hwmon_hv.c:210-225 | a concrete capability for which a required bit is lost |
| ClassCode.PciDevice.ExtractClassCode | src/platform/windows/pci_enum_windows.c:33-71 | for any terminated list: the device gets one field per complete digit pair of the winning run, and is unchanged exactly when no run has two digits |
| ClassCode.LongestIsFirst | src/platform/windows/pci_enum_windows.c:46-54 | the winning run is the first of the longest, and there is none exactly when every run is shorter than two digits |
| ClassCode.PairIsShiftedByte | src/platform/windows/pci_enum_windows.c:59-66 | shift and mask give the digit pair at a position, for every number of digits including odd ones |
| ClassCode.FindMark | src/platform/windows/pci_enum_windows.c:41-42 | the mark found is the first one of the string |
| ClassCode.HexPrefix | src/platform/windows/pci_enum_windows.c:43-45 | the digits are the longest hexadecimal run of at most six |
| Bytes.HexDigitsAreThese | src/platform/windows/pci_enum_windows.c:45-49 | the digits are 0 to 9 and A to F in either case, each with its place as its value |
| ClassCode.ListReadsBack | src/platform/windows/pci_enum_windows.c:39-57 | the walk over a well-formed list finds exactly its strings, in order |
| ClassCode.ClassReadsBack | src/platform/windows/pci_enum_windows.c:33-71 | an ID "CC_" with 2 to 6 digits of a printed class triple, none being more specific and none before it as specific, sets the fields of the complete pairs and keeps the others, whatever else the list holds and whatever stands after it |
| ClassCode.NoClassKeepsDevice | src/platform/windows/pci_enum_windows.c:33-71 | a list without two digits behind any mark leaves the device unchanged |
| ClassCode.CutListReadsBack | src/platform/windows/pci_enum_windows.c:39-42 | in a list that is cut inside a string, a mark counts if it starts before the cut |

## Left out

- FieldText: the bytes of a text field past its terminator, which the program zeroes once and may overwrite partly; text fields are modelled by the string they hold. `CopyStringField` models the array itself.
- ParseFadt and ParseHpet: short decoders at fixed offsets; they are read back from encoded tables, and nothing else is proved of them.
- VmxLaunch.Hypervisor.HvTryLaunch: a successful VMLAUNCH ends a session. The guest resuming at the captured context, a second pass through the VMCS setup there, and the checks of VM entry are not modelled; neither is the value of each VMCS field (one write event stands for all of them), and zeroing of the allocated block.
- VmExit.Step: alignment of the host stack at the call, flags other than ZF at the one branch that reads it, control registers of the vector unit (which a call preserves), a VMRESUME that fails, and accesses of eight bytes that overlap without being equal (all accesses of the listing are to distinct slots). Stores of the return address and of the compiled handler's own frame are covered by `Noise`.
- HostRsp: the host stack pointer is modelled as `int` inside a 64-bit address space; the VMCS field holding it is written at `driver/hv/hwmon_hv.c:357`.
- Input buffers are sequences, since the program only reads them; pointer overflow past the end of the address space is not modelled.
- PciPorts.EverySchedule: other users of CF8 and CFC outside this driver, interrupt levels, and the fairness of the spin lock.
- Ioctl.Driver.HwmonDeviceControl: completion of the I/O request packet and structured exception handling, whose effect is an option in `Hardware`; the caching attributes of the mapping.
- MadtProcessors and McfgEntries: nothing of a table past the fields the program reads.
- `collect_resources`, `extract_hex_token` and the rest of the device enumeration (`src/platform/windows/pci_enum_windows.c:19-28`, `src/platform/windows/pci_enum_windows.c:73-204`): calls to the system and short parsers.
- CPU identification, storage, telemetry, report printing, the UEFI application and the build scripts: system queries, floating-point sampling and formatting, which would add only easy members.
