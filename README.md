# Instruction-count profilers for DynamoRIO, modelled in Dafny

Two DynamoRIO clients count how many times each unique instruction of a
program runs. Both keep a registry of unique instructions, keyed by address.
Each record holds the address, the decoded length and an execution count.

- **icounter** (`icounter-dynamorio.c`, with groups kept as a linked list):
  - Every time the block event fires on a block's first instruction, a new
    *instruction group* is created and pushed on the list.
    `for_trace` and `translating` are ignored, so a block that is rebuilt,
    or copied into a trace, gets another group with the same members, and
    one instruction can belong to several groups. A group holds a counter
    and one slot per instruction, filled from the registry with
    `fetch_instr`.
  - Code inlined into the block bumps the group's counter.
  - At exit, `flush_groups` adds each group's counter to every member's
    count. The registry is then written out, one `%p:%d:%lu` line per
    record.
  - At start-up, a snapshot in that format may be merged into the empty
    registry (`read_instrs`).
- **instrace** (`instruction_count.c`):
  - Code inlined before every application instruction appends
    `{pc, opcode}` to a per-thread buffer of `MAX_NUM_INS_REFS` = 8192
    entries.
  - A clean call at the start of each block, and the thread-exit event,
    drain the buffer into a shared pool. For each entry, the pc is looked
    up with the length the decoder reports, and its count is bumped by one.
  - At thread exit, the thread's number of processed entries is added to
    a global count.

The model is split into five modules:

- `Registry` (`registry.dfy`): the table `map<Addr, Instr>` and its two
  operations, lookup-or-create (`Fetched`) and add-to-count (`AddCount`),
  plus `FetchAll`, the fetch of a whole block's sites.
- `Groups` (`groups.dfy`): group values and the flush as a fold. Its
  lemmas say what the flush adds to each record: `Gain`, the counters
  weighted by occurrences.
- `Snapshot` (`snapshot.dfy`):
  - the line format, the `strtok` tokenizer and digit parsing;
  - the merge of a snapshot, its algebra (order independence,
    concatenation, additivity);
  - the dump/read round trip.
- `ICounter` (`icounter.dfy`): the icounter client's state. The
  `InstrGroup` class has a mutable counter and a fixed member array. The
  `Profiler` class holds the table and the group list, head first. Its
  methods are proved against the functions above.
- `InstructionCount` (`tracer.dfy`): the instrace client.
  - The `ThreadData` class: the buffer array, the TLS buffer pointer taken
    as an index, and the per-thread count.
  - The `Tracer` class: the pool and the global count.
  - The drain is proved against the fold `Drained`, and the pool invariant
    is that it equals the drain of every entry processed so far.

Group members are held as addresses, where the C code holds pointers to
records. Records are never removed and each address has exactly one record,
so an address names the same record the pointer would.

`get_instr` and `instr_inc` of `hashmap/hash.h` are not part of this model.
They are taken to be the registry's lookup-or-create (no size check) and
add-to-count. `decode_sizeof` is a parameter of the tracer: a function from
address to length.

Two choices about the code's failure cases:

- `read_instrs` never checks the result of `strtok` before converting it,
  so a malformed line has no defined behaviour. The model therefore asks
  that every line of a snapshot parse (`Readable`).
- The assertion in `fetch_instr` that a known address is looked up again
  with the same length aborts the client when it fails. It is a
  precondition of `FetchInstr`. For whole blocks and snapshots it becomes
  the conditions `SitesAgree` and `RecordsAgree`. The lemmas
  `FetchAllStep` and `MergeStep` show those conditions are enough for each
  step.

## Model

| member | source | states |
|---|---|---|
| Registry.Fetched | icounter-dynamorio.c:103-125 | lookup-or-create: the keys gain exactly `a`; a known address leaves the table as it was; a new one gets record `(a, size, 0)`; other records are untouched; records stay stored under their own address |
| Registry.AddCount | icounter-dynamorio.c:166 | adding `d` to one record: the same keys, that record's count up by `d`, its address and length kept, every other record unchanged |
| Registry.FetchIdempotent | icounter-dynamorio.c:103-125 | a second lookup of the same address and length finds the record the first made, passes the size check and changes nothing |
| Registry.FetchAll | icounter-dynamorio.c:284-293 | fetching a block's instructions in turn adds exactly the block's addresses to the keys, and each instruction has a record afterwards |
| Registry.FetchAllStep | icounter-dynamorio.c:284-292 | fetching instruction `i` of a block after the first `i` passes the size assertion when the block's lengths agree, and extends the block fold by that one fetch |
| Registry.FetchAllSizes | icounter-dynamorio.c:284-294 | after a whole block is fetched, every instruction's record has that instruction's length |
| Registry.FetchAllNew | icounter-dynamorio.c:109-116 | an instruction of the block not in the table before gets a fresh record at its address with its length and count zero |
| Registry.FetchAllKeeps | icounter-dynamorio.c:119-121 | a record already in the table is not changed by fetching a block |
| Registry.FetchAllWellKeyed | icounter-dynamorio.c:113 | fetching a block keeps every record stored under its own address |
| Registry.FetchedTotal | icounter-dynamorio.c:115 | creating a record leaves the sum of all counts unchanged (new counts start at zero) |
| Registry.AddCountTotal | icounter-dynamorio.c:166 | adding `d` to one record raises the sum of all counts by exactly `d` |
| Groups.FlushMembers | icounter-dynamorio.c:225-226 | the inner loop over one group's slots keeps the table's keys (its values are given by `FlushMembersEffect`) |
| Groups.FlushAll | icounter-dynamorio.c:222-229 | the walk over the group list keeps the table's keys (its values are given by `FlushAllEffect`) |
| Groups.FlushMembersEffect | icounter-dynamorio.c:224-226 | the inner loop adds the group's counter to a record once for every slot that names it |
| Groups.FlushAllStep | icounter-dynamorio.c:223-229 | walking the list: after the first `i` groups, group `i` is still covered and is flushed on top of them |
| Groups.FlushAllEffect | icounter-dynamorio.c:221-230 | the flush adds to every record the sum over groups of counter times occurrences, and changes no key, address or length |
| Groups.FlushSkipsNonMembers | icounter-dynamorio.c:221-230 | an instruction in no group leaves the flush unchanged |
| Groups.GainOfDistinctMembers | icounter-dynamorio.c:221-230 | when no group lists an instruction twice, the flush adds to it exactly the sum of the counters of the groups that contain it |
| Groups.FlushTwice | icounter-dynamorio.c:221-230 | counters are not reset by a flush, so flushing twice adds twice the gain |
| Groups.FlushAllTotal | icounter-dynamorio.c:221-230 | the flush raises the sum of all counts by the sum of counter times group size |
| Snapshot.Render | icounter-dynamorio.c:133 | a number is printed as a non-empty digit string of the base that reads back as that number |
| Snapshot.RenderInt | icounter-dynamorio.c:133 | the `%d` text of a length, sign included, is non-empty, holds no separator and reads back as that length |
| Snapshot.RenderPointer | icounter-dynamorio.c:133 | the `%p` text of the null address is `(nil)`; any other address is `0x` followed by hexadecimal digits that read back as the address |
| Snapshot.FormatLine | icounter-dynamorio.c:133 | a dump line ends in a newline and starts with `0x` for a non-null address, with `(nil)` for the null one |
| Snapshot.Tokens | icounter-dynamorio.c:153-166 | `strtok` with separators `:`, `\r`, `\n` yields non-empty tokens free of separators |
| Snapshot.ParseLine | icounter-dynamorio.c:162-164 | a line shorter than the two skipped characters, or with fewer than three tokens after them, gives no record |
| Snapshot.ParseAll | icounter-dynamorio.c:157-166 | one record per line, in line order, each the record its line parses to |
| Snapshot.ParseFormat | icounter-dynamorio.c:133 | a line `dump_instr` writes for a non-null address is read back by `read_instrs` as that same record |
| Snapshot.NullLineUnread | icounter-dynamorio.c:133 | the null address prints as `(nil)`, and such a line is outside the format read back |
| Snapshot.MergeOne | icounter-dynamorio.c:165-166 | one line: the keys gain the line's address, its count becomes the old count (zero if new) plus the line's, a new record is the line's record, a compatible length is kept, other records are untouched |
| Snapshot.Merge | icounter-dynamorio.c:157-167 | merging a snapshot adds exactly the snapshot's addresses to the table's keys |
| Snapshot.MergeStep | icounter-dynamorio.c:162-166 | line `i` passes the size assertion after the lines before it, when the snapshot's lengths agree, and extends the merge by one line |
| Snapshot.MergeKeeps | icounter-dynamorio.c:165 | a record already in the table keeps its address and length through a merge |
| Snapshot.MergeSizes | icounter-dynamorio.c:165 | after a merge, every line's address has that line's length |
| Snapshot.MergeNewAddr | icounter-dynamorio.c:165 | a record created by the merge is stored under its own address |
| Snapshot.MergeCounts | icounter-dynamorio.c:157-167 | every count after a merge is the count before plus the sum of the snapshot's counts for that address |
| Snapshot.MergeOrderIndependent | icounter-dynamorio.c:157-167 | any permutation of a snapshot's lines merges to the same table |
| Snapshot.MergeCommutes | icounter-dynamorio.c:157-167 | merging snapshot A then B gives the same table as B then A |
| Snapshot.MergeConcat | icounter-dynamorio.c:157-167 | merging two snapshots one after the other is merging their concatenation |
| Snapshot.DumpLines | icounter-dynamorio.c:326-327 | every record of the table has its line in the dump |
| Snapshot.DumpEnumerates | icounter-dynamorio.c:326-327 | the lines of a dump, each once, parse to distinct records of the table that cover all of it |
| Snapshot.RecordsRebuild | icounter-dynamorio.c:157-167 | records enumerating a table merge into the empty table to give back exactly that table |
| Snapshot.DumpReadRoundTrip | icounter-dynamorio.c:149-171 | reading the lines of a dump, in any order, into an empty table rebuilds the dumped table, when no address is null |
| ICounter.InstrGroup.constructor | icounter-dynamorio.c:177-190 | a new group has counter zero and one slot per instruction of the block |
| ICounter.InstrGroup.Execute | icounter-dynamorio.c:296-302 | one execution of the block adds one to its group's counter |
| ICounter.Profiler.constructor | icounter-dynamorio.c:357-367 | the client starts with an empty table and an empty group list |
| ICounter.Profiler.FetchInstr | icounter-dynamorio.c:103-125 | the table becomes `Fetched` of the old one; the result is the table's record for that address, with that length, the old record when there was one, a zero count otherwise |
| ICounter.Profiler.NewGroup | icounter-dynamorio.c:177-204 | a fresh group with counter zero and `size` slots is pushed at the head of the list; the table is unchanged |
| ICounter.Profiler.AddExecCount | icounter-dynamorio.c:166 | the table becomes `AddCount` of the old one |
| ICounter.Profiler.FillSlot | icounter-dynamorio.c:289-292 | one instruction is fetched and only its slot of the group is set, to that instruction's record |
| ICounter.Profiler.FillGroup | icounter-dynamorio.c:280-294 | slot `k` holds instruction `k`'s record for every `k`, all slots are filled, and the table is the fetch of the whole block |
| ICounter.Profiler.RegisterBlock | icounter-dynamorio.c:275-294 | a new group heads the list with counter zero and one slot per instruction, each naming its instruction's record; the table is the block fetch; every slot of every group names a record |
| ICounter.Profiler.FlushGroup | icounter-dynamorio.c:224-226 | the table becomes the inner-loop fold of the group's members by its counter |
| ICounter.Profiler.FlushGroups | icounter-dynamorio.c:221-230 | the table becomes the flush fold of every group, in list order; the list and the groups are unchanged and every slot still names a record, so flushes can be chained |
| ICounter.Profiler.ReadInstrs | icounter-dynamorio.c:149-171 | a file that cannot be opened changes nothing; otherwise the table becomes the merge of its lines, in order, and no record is lost |
| ICounter.Profiler.EventExit | icounter-dynamorio.c:319-329 | flush first, then dump: with an output file the dump is the lines of the flushed table, without one there is no dump; the groups are unchanged and still covered |
| ICounter.ClientMain | icounter-dynamorio.c:357-382 | start-up: an empty group list; the table is empty, or the merge of the snapshot into the empty table; the output flag as given |
| InstructionCount.DrainOne | instruction_count.c:70-72 | one drained entry: the keys gain its pc, that count becomes the old count (zero if new) plus one, a new pc gets a record with the decoder's length, other records are untouched |
| InstructionCount.Drained | instruction_count.c:67-75 | draining the entries adds exactly their pcs to the pool's keys |
| InstructionCount.DrainedStep | instruction_count.c:67-75 | the drain of the first `p + 1` entries is one more drain step on the drain of the first `p` |
| InstructionCount.DrainedCount | instruction_count.c:67-75 | after a drain, each count is the count before plus the number of entries for that pc |
| InstructionCount.DrainedRecord | instruction_count.c:70-72 | a drain keeps the address and length of known records, and creates records at their own pc with the decoder's length |
| InstructionCount.DrainedTotal | instruction_count.c:67-75 | each drained entry adds exactly one to the sum of all counts |
| InstructionCount.DrainedConcat | instruction_count.c:56-78 | two drains in a row are the drain of the concatenated entries: where the clean calls cut the trace does not matter |
| InstructionCount.DrainedWellKeyed | instruction_count.c:70-71 | a drain keeps every record stored under its own address |
| InstructionCount.PoolCounts | instruction_count.c:56-78 | the pool built from the drained entries has a record exactly for each pc that occurs, holding that pc, its decoded length and its number of occurrences, and its counts add up to the number of entries |
| InstructionCount.ThreadData.constructor | instruction_count.c:195-213 | thread init: a fresh 8192-entry buffer, the pointer at its base, no entries written, a zero count |
| InstructionCount.ThreadData.Append | instruction_count.c:135-160 | with room in the buffer, `{pc, opcode}` is stored at the pointer and the pointer advances by one entry; nothing is drained |
| InstructionCount.ThreadData.AppendAll | instruction_count.c:135-160 | the inline code of several instructions in a row appends their entries in order |
| InstructionCount.ThreadData.CountRef | instruction_count.c:74 | the thread's count goes up by one; buffer and history unchanged |
| InstructionCount.Tracer.constructor | instruction_count.c:290-307 | the tracer starts with an empty pool and a zero global count |
| InstructionCount.Tracer.GetInstr | instruction_count.c:71 | the pool becomes `Fetched` of the old one, and the result is the record at that pc |
| InstructionCount.Tracer.InstrInc | instruction_count.c:72 | the pool becomes `AddCount` of the old one |
| InstructionCount.Tracer.DrainEntry | instruction_count.c:70-72 | one loop body: the pool takes exactly one drain step for the entry |
| InstructionCount.Tracer.DrainLoop | instruction_count.c:67-75 | the pool becomes the drain of the buffer's live entries, and the thread's count goes up by their number |
| InstructionCount.Tracer.Instrace | instruction_count.c:56-78 | the pending entries are drained into the pool, the thread's count goes up by their number, the pointer returns to the base, and the pool invariant is kept |
| InstructionCount.Tracer.RunBlock | instruction_count.c:162-193 | one run of a block: the first entry is written, the clean call drains, the rest are written; a block of at most 8192 instructions leaves room for the next, so the buffer never overflows |
| InstructionCount.Tracer.ThreadExit | instruction_count.c:230-239 | the thread's remaining entries are drained, its history of written entries is unchanged, and the global count grows by the thread's count plus the entries still buffered, which is every entry the thread wrote |

## Left out

- Instrumentation and code generation: register reservation, TLS slot
  allocation, counter-update and clean-call insertion. Their run-time
  effect is modelled by `InstrGroup.Execute`, `ThreadData.Append` and
  `Tracer.RunBlock`.
- Concurrency: the table lock, the group-list mutex and the tracer mutex.
  Every operation is modelled as atomic, and the racy counter update as an
  exact increment.
- Integer widths: counts, lengths and addresses are unbounded. The
  wrap-around of `uint64`/`size_t` counters and the 2-byte opcode store
  are not modelled.
- The `%p` format: the C standard leaves its output to the implementation.
  The model prints it as the GNU C library does: `0x` and lower-case
  hexadecimal digits, and `(nil)` for the null pointer (`RenderPointer`).
  The dump/read round trip depends on this, because `read_instrs` skips the
  first two characters of a line, taking them to be `0x`. Other C libraries
  are not modelled.
- Parsing leniency: only plain digit strings are read. `strtoull` and
  `atoi` also accept leading blanks, a `0x` prefix, trailing junk or no
  digits at all; those forms are not modelled. A `(nil)` line is outside
  the format the model reads back (`NullLineUnread`). The C code does read
  it: after the two skipped characters the token is `il)`, and `strtoull`
  of that gives 0. So the program's dump/read round trip also holds for
  address 0. The `a != 0` precondition of `DumpReadRoundTrip` is a limit of
  the model, not of the program.
- The 255-character `fgets` buffer: a longer line would be split into
  several reads; lines are taken whole.
- Malformed snapshot lines: the code converts `strtok`'s result without
  checking for null, so such a line has no defined behaviour.
  `ReadInstrs` requires every line to parse.
- File I/O: opening and closing files, and the order in which
  `hashtable_apply_to_all_payloads` visits records. The dump is a set of
  lines, and a snapshot file is its sequence of lines.
- Start-up argument handling: more than three arguments abort the
  client; that is not modelled. `ClientMain` takes the snapshot contents
  and whether an output file is named.
- Freeing memory: `free_instr`, the group-list free, buffer and
  thread-data release, and pool destruction.
- `GROUPS_MODE` 1 (groups in a `drvector`): only the linked-list mode 2
  is modelled.
- `hashmap/hash.h` (`init_instrs_pool`, `get_instr`, `instr_inc`,
  `dump_instrs`, `dump_instrs_in_file`): not part of this model. The pool
  operations are assumed to be lookup-or-create and add-to-count.
  `dump_instrs` and the tracer's exit events are left out with it.
- `decode_sizeof` and the other DynamoRIO queries (`instr_length`,
  `instr_get_app_pc`, `drx_instrlist_app_size`): they become parameters,
  the block's `(address, length)` sites or the decoder function.
- The ARM exception: no clean call before a first instruction that is an
  exclusive store. `RunBlock` always drains at the first instruction.
- Per-thread log files (commented out in the source) and the verbose
  disassembly output.
- `bbl_count.c`, a separate basic-block counting client, is not part of
  this model.
- ICounter.Profiler.FetchInstr: the size assertion is a precondition, so
  a length mismatch (which aborts the client) is excluded, not modelled as
  a failure.
