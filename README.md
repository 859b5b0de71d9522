# Operating-systems lab programs, modelled in Dafny

This project models four small C programs from an operating-systems
course. It proves properties of each model.

- **The job scheduler** (`lab04-template/scheduler.c`):
  - Jobs are read from a workload list. Job `k` gets id `k` and `100·(k+1)` tickets.
  - The jobs are run under FIFO, STCF (shortest time to completion first)
    or lottery scheduling.
  - The response, turnaround and wait metrics are then reported.
  - The linked list of jobs is the field `jobs: seq<Job>` of the class
    `Scheduler.Workload`. Each policy function updates it in place.
  - A step function over an explicit state models each policy's loop:
    `Fifo.Fifo`, `Stcf.Step`/`Stcf.Run` and `Lottery.Step`/`Lottery.Run`. A method that
    changes the workload is proved to follow that function.
  - For each policy these are proved:
    - every job completes;
    - its start, finish and wait times obey the policy's rules;
    - the trace of dispatches is the one the program prints.
- **The memory-management simulator** (`lab06_template/memsym.c`):
  - A trace of instructions drives a machine with 4 processes, an 8-entry TLB,
    per-process page tables and a physical memory.
  - The instructions are `define`, `ctxswitch`, `map`, `unmap` and the four `*inspect`
    commands.
  - The globals are a class, `MemSym.Simulator`. The TLB and the process table are
    arrays in it. Each handler is proved to follow a pure function on a `Machine` value.
  - Lemmas about that function prove these properties:
    - the slot that `map` picks;
    - that no process/page pair ever has two valid TLB entries;
    - define-before-use;
    - that `define` happens at most once;
    - the 32-bit timestamp counter.
- **The shell's line parser** (`lab03-template/parser.c`):
  - Covers `parse_args`, `trimstring`, `isvalidascii` and `findpipe`.
  - These work in place on C character buffers, which are modelled as `array<byte>`.
  - `parse_args` is proved equal to a reference parse `Parser.Parse`. Properties of
    that parse are proved as lemmas:
    - arguments are ordered;
    - arguments are separated by blanks;
    - each argument becomes a NUL-terminated string holding exactly its text.
- **The arena allocator** (`lab5-template/myalloc.c`):
  - `myinit` rounds the request up to whole pages and maps it.
  - `mydestroy` unmaps it.
  - The three globals are the class `MyAlloc.Arena`.
  - `mmap` and `munmap` are oracle parameters.

The code is followed where it differs from the programs' written description:

- The STCF trace prints "Job k starts" whenever the job's remaining time
  equals its length. It prints "Switch to Job k" only for a job it has run before.
- `main` never calls `policy_STCF`: its STCF branch is empty. `Scheduler.Simulate`
  models `main` as written, so STCF produces no output there.
  `Scheduler.Workload.RunSTCF` models `policy_STCF` on its own.
- A failed `mmap` leaves `MAP_FAILED` in `_arena_start`. This is not NULL, so a later
  `mydestroy` goes on to call `munmap`
  (`MyAlloc.FailedInitIsNotUninitialized`).
- `policy_STCF` (and line 62 of `append_to`) use a field `remaining_time` that
  `struct job` (scheduler.c:14-27) does not declare, so the file as written does
  not compile. The struct's own field is `remaining`, which `append_to` sets to the
  length for every job. The model reads every `remaining_time` as `remaining`.

## Model

| member | source | states |
|---|---|---|
| Jobs.NewJob | lab04-template/scheduler.c:41-48 | a new job has its remaining time equal to its length, and its start and finish times unset (-1) |
| Jobs.UpdateOne | lab04-template/scheduler.c:169-174 | replacing one job changes the total remaining time and total length by that job's difference and the completed count by one exactly when its remaining time reaches 0 |
| Scheduler.Workload.constructor | lab04-template/scheduler.c:12-30 | the program starts with an empty workload and zero jobs |
| Scheduler.Workload.Append | lab04-template/scheduler.c:32-65 | the new job is appended at the end, with the next id, the given arrival, length and tickets, remaining time = length, start and finish -1, wait 0 |
| Scheduler.LoadJobs | lab04-template/scheduler.c:95-104 | one job per workload line |
| Scheduler.LoadedJobs | lab04-template/scheduler.c:95-104 | job k of the workload has id k, the line's arrival and length, and 100·(k+1) tickets; ids are indices and tickets are positive |
| Scheduler.Workload.ReadJobConfig | lab04-template/scheduler.c:67-109 | an empty workload is an error that changes nothing; otherwise the loaded jobs are appended in order |
| Fifo.Schedule | lab04-template/scheduler.c:265-283 | a job starts at the later of the clock and its arrival, finishes after its length, and waits from arrival to start; nothing else changes |
| Fifo.FifoFormula | lab04-template/scheduler.c:258-287 | job k of the FIFO result is job k scheduled on the clock left by the jobs before it |
| Fifo.FifoOrder | lab04-template/scheduler.c:258-287 | for any lengths, FIFO keeps the jobs and their order; the first job starts at max(0, arrival); each next job starts at the later of the previous finish and its arrival; waits are non-negative; when no length is negative, finish times never decrease |
| Fifo.FinishMonotone | lab04-template/scheduler.c:277-280 | finish times that grow from each job to the next grow between any two jobs |
| Fifo.FifoScenario | lab04-template/scheduler.c:258-287 | jobs (0,5), (1,3), (2,8) run over [0,5), [5,8) and [8,16) |
| Scheduler.Workload.RunFIFO | lab04-template/scheduler.c:258-287 | policy_FIFO updates the workload exactly as the FIFO schedule says and prints one dispatch line per job with its start, id, arrival and length |
| Stcf.ShortestFrom | lab04-template/scheduler.c:143-150 | the selection scan returns -1 or an index in range |
| Stcf.ShortestFromSpec | lab04-template/scheduler.c:143-150 | the scan returns -1 exactly when no arrived unfinished job exists; otherwise the first job with the least remaining time among them |
| Stcf.ShortestSpec | lab04-template/scheduler.c:140-152 | the job policy_STCF picks is the earliest arrived unfinished job of least remaining time, and -1 means none has arrived |
| Stcf.ShortestUnique | lab04-template/scheduler.c:143-150 | at most one job satisfies the selection rule |
| Stcf.ShortestReady | lab04-template/scheduler.c:140-150 | the selection loop computes the selection rule |
| Stcf.StepSpec | lab04-template/scheduler.c:138-177 | one STCF pass: with no candidate only the clock advances; otherwise the chosen job runs one unit, every other job is unchanged, and the "starts", "switch" and "finished" lines follow the source's conditions |
| Stcf.StepProgress | lab04-template/scheduler.c:138-177 | an STCF pass either lowers the total remaining time by one or only advances the clock before the last arrival |
| Stcf.UnitProgress | lab04-template/scheduler.c:168-176 | running the chosen job one unit keeps the state runnable and lowers the total remaining time by one |
| Stcf.StepCounts | lab04-template/scheduler.c:161-175 | a pass adds a "starts" line only for a job's first unit and a "finished" line only for its last |
| Stcf.CountAppend | lab04-template/scheduler.c:161-175 | the event counts of a trace add up over concatenation |
| Stcf.StepKeepsProgress | lab04-template/scheduler.c:138-177 | a pass keeps the per-job progress invariant |
| Stcf.RunKeepsProgress | lab04-template/scheduler.c:138-177 | the STCF loop terminates with every job completed, keeping the invariant; the units run total the initial remaining time |
| Stcf.StcfComplete | lab04-template/scheduler.c:120-181 | on unstarted jobs STCF finishes every job no earlier than arrival + length, prints exactly one "starts" and one "finished" line per job, and leaves start and wait times untouched |
| Stcf.StcfScenario | lab04-template/scheduler.c:138-177 | jobs (0,5), (1,3), (2,8): after two passes job 1 runs and both first runs are "starts" lines |
| Scheduler.Workload.StcfPass | lab04-template/scheduler.c:139-176 | one pass of the STCF loop updates the workload as the STCF step says |
| Scheduler.Workload.RunSTCF | lab04-template/scheduler.c:120-181 | policy_STCF leaves the workload and the trace the STCF run says |
| Lottery.WinnerBelow | lab04-template/scheduler.c:222-233 | the winner scan returns -1 or an index in range |
| Lottery.TicketsMonotone | lab04-template/scheduler.c:222-233 | the cumulative ticket count never decreases along the list |
| Lottery.TotalZeroIffNoneReady | lab04-template/scheduler.c:200-215 | the ready-ticket total is 0 exactly when no job is ready |
| Lottery.NoneReadyNoTickets | lab04-template/scheduler.c:204-208 | jobs that are not ready add no tickets |
| Lottery.NotPassedBefore | lab04-template/scheduler.c:222-233 | if no earlier ready job passed the winning ticket, the cumulative count before k is at most the ticket |
| Lottery.WinsIffInInterval | lab04-template/scheduler.c:218-233 | job k wins ticket w exactly when it is ready and w falls in its own ticket interval |
| Lottery.InIntervalWins | lab04-template/scheduler.c:218-233 | a ready job whose ticket interval holds w wins |
| Lottery.WinsUnique | lab04-template/scheduler.c:222-233 | at most one job wins a ticket |
| Lottery.WinnerBelowSpec | lab04-template/scheduler.c:222-233 | the scan returns a ready job whose interval holds w, or -1 when no such job exists |
| Lottery.WinnerSpec | lab04-template/scheduler.c:218-233 | a ticket below the ready total always has a winner |
| Lottery.InIntervalSomewhere | lab04-template/scheduler.c:222-233 | a ticket below the cumulative count up to n lies in the interval of some ready job before n |
| Lottery.LastTicketWins | lab04-template/scheduler.c:218-233 | the last ticket belongs to the last ready job |
| Lottery.NoReadyAfter | lab04-template/scheduler.c:204-208 | a run of jobs that are not ready leaves the cumulative count unchanged |
| Lottery.SumReadyTickets | lab04-template/scheduler.c:200-208 | the summing loop computes the tickets of the ready jobs |
| Lottery.DrawWinner | lab04-template/scheduler.c:218-233 | the selection loop picks the job that wins ticket w |
| Lottery.StepSpec | lab04-template/scheduler.c:198-253 | one lottery round: with no ready job only the clock advances; otherwise ticket rand() % total picks the winner, which runs min(slice, remaining), gets its start time on its first run and its finish and wait on completion; every other job is unchanged |
| Lottery.StepProgress | lab04-template/scheduler.c:198-253 | a round either lowers the total remaining time or only advances the clock before the last arrival |
| Lottery.SliceProgress | lab04-template/scheduler.c:235-252 | running the winner lowers the total remaining time |
| Lottery.StepKeepsProgress | lab04-template/scheduler.c:198-253 | a round keeps the per-job progress invariant |
| Lottery.SliceKeepsProgress | lab04-template/scheduler.c:235-252 | running the winner keeps the per-job progress invariant |
| Lottery.SliceKeepsJob | lab04-template/scheduler.c:235-252 | running the winner keeps each job's own progress facts |
| Lottery.RunKeepsProgress | lab04-template/scheduler.c:198-253 | the lottery loop terminates with every job finished, keeping the invariant |
| Lottery.LotteryComplete | lab04-template/scheduler.c:190-256 | on unstarted jobs with positive tickets every job finishes, runs for exactly its length in total, starts no earlier than its arrival, and has wait = finish - arrival - length >= 0 |
| Scheduler.Workload.LotteryRound | lab04-template/scheduler.c:199-252 | one round of the lottery loop updates the workload as the lottery step says |
| Scheduler.Workload.RunLT | lab04-template/scheduler.c:190-256 | policy_LT leaves the workload and the trace the lottery run says |
| Metrics.Analyze | lab04-template/scheduler.c:332-354 | one report line per job with response = start - arrival, turnaround = finish - arrival and its wait; the totals exactly when there is a job |
| Metrics.WaitTotalFromTurnaround | lab04-template/scheduler.c:250 | under lottery scheduling the total wait is the total turnaround minus the total length |
| Metrics.WaitTotalIsResponse | lab04-template/scheduler.c:281 | under FIFO the total wait equals the total response time |
| Scheduler.AnalyzeJobs | lab04-template/scheduler.c:381-403 | the analysis of a non-empty workload gives each job's response, turnaround and wait in list order, and the totals behind the averages |
| Scheduler.Simulate | lab04-template/scheduler.c:289-409 | main: an empty workload fails; FIFO and LT print the traces of their schedules and, with analysis 1, for each scheduled job its response, turnaround and wait, and the totals behind the averages; the other policy names print nothing |
| MemTokens.WordLengthSpec | lab06_template/memsym.c:223-241 | the front word holds no space and ends at a space or the end |
| MemTokens.TokensSpec | lab06_template/memsym.c:223-241 | every token is non-empty and space-free, and the tokens together are the line without its spaces |
| MemTokens.TokensOfJoin | lab06_template/memsym.c:223-241 | tokenizing words joined by single spaces gives the words back |
| MemTokens.TokenizeInput | lab06_template/memsym.c:223-241 | tokenize_input returns the tokens of the line in order |
| MemTokens.AtoiDecimal | lab06_template/memsym.c:85-97 | atoi reads back the decimal numeral of every int |
| MemTokens.AtoiStopsAtJunk | lab06_template/memsym.c:85-97 | atoi stops at the first non-digit |
| MemTokens.AtoiSkipsSpaces | lab06_template/memsym.c:85-97 | atoi skips leading whitespace |
| MemSym.ToU32 | lab06_template/memsym.c:112-179 | the conversion to uint32_t is the value modulo 2^32 |
| MemSym.Start | lab06_template/memsym.c:19-56 | the program starts undefined, well formed, with no duplicate TLB pairs |
| MemSym.Invalidated | lab06_template/memsym.c:76-78 | the TLB with every valid flag cleared and the other fields kept |
| MemSym.FirstMatchSpec | lab06_template/memsym.c:121-129 | the first scan finds the first valid entry for the (process, page) pair, or -1 exactly when none exists |
| MemSym.FirstInvalidSpec | lab06_template/memsym.c:132-139 | the second scan finds the first invalid entry, or -1 exactly when all are valid |
| MemSym.OldestSpec | lab06_template/memsym.c:142-151 | the eviction scan finds the first entry of least timestamp |
| MemSym.SlotSpec | lab06_template/memsym.c:112-162 | map writes the entry already holding the pair, else the first free entry, else the first oldest |
| MemSym.SlotChoiceUnique | lab06_template/memsym.c:112-162 | that rule leaves exactly one slot |
| MemSym.MapTlbSpec | lab06_template/memsym.c:112-162 | map writes only its slot, keeps TLB pairs unique, and leaves exactly one valid entry for the mapped pair |
| MemSym.UnmapTlbSpec | lab06_template/memsym.c:164-179 | unmap clears only the valid flag of the first matching entry and leaves no valid entry for the pair |
| MemSym.DefineSpec | lab06_template/memsym.c:58-97 | define on a defined machine halts with an error; otherwise memory of 2^(off+pfn) zero words, zeroed registers and page tables of 2^vpn invalid entries, an invalidated TLB, and the same process and timestamp |
| MemSym.CtxSwitchSpec | lab06_template/memsym.c:99-110 | ctxswitch is an error exactly for targets outside [0, 4), and then changes nothing |
| MemSym.MapSpec | lab06_template/memsym.c:112-162 | map sets the page-table entry to (pfn, valid), updates the TLB with the current timestamp, and changes nothing else |
| MemSym.UnmapSpec | lab06_template/memsym.c:164-179 | unmap clears the page-table entry's valid flag, keeps its frame, removes the pair from the TLB, and changes nothing else |
| MemSym.RinspectSpec | lab06_template/memsym.c:205-221 | rinspect reports r1 or r2 of the current process, is an error for any other register name, and changes nothing |
| MemSym.InstructionKeepsInvariant | lab06_template/memsym.c:306-322 | every instruction keeps the machine well formed and TLB pairs unique |
| MemSym.InstructionTimestamp | lab06_template/memsym.c:306-322 | no handler changes the timestamp, and only a successful define defines the machine |
| MemSym.ExecuteSpec | lab06_template/memsym.c:291-322 | before define every other instruction halts with an error and changes nothing; otherwise the timestamp is incremented modulo 2^32 before dispatch |
| MemSym.ExecuteKeepsInvariant | lab06_template/memsym.c:291-322 | an executed instruction keeps the machine well formed and TLB pairs unique |
| MemSym.LineStepSpec | lab06_template/memsym.c:260-329 | empty, comment and blank lines are skipped without change; other lines are executed; success increments the timestamp |
| MemSym.RunFirstLine | lab06_template/memsym.c:260-329 | the run goes on after a skipped line or an output and stops at an error or undefined behaviour |
| MemSym.RunKeepsInvariant | lab06_template/memsym.c:260-329 | a whole run keeps the machine well formed and TLB pairs unique |
| MemSym.TicksStep | lab06_template/memsym.c:303 | k+1 increments are one increment followed by k |
| MemSym.TicksMod | lab06_template/memsym.c:303 | k increments of the 32-bit counter add k modulo 2^32 |
| MemSym.RunTimestamp | lab06_template/memsym.c:260-329 | a run that reads all its input has incremented the timestamp once per executed instruction |
| MemSym.TimestampFirstLine | lab06_template/memsym.c:260-329 | the timestamp claim for the remaining lines gives it for all |
| MemSym.DefineFirstAndOnce | lab06_template/memsym.c:291-300 | from an undefined machine the first output is the define report; afterwards no define report appears again and the machine stays defined |
| MemSym.Simulator.constructor | lab06_template/memsym.c:19-56 | the globals start as the initial machine |
| MemSym.Simulator.ChooseSlot | lab06_template/memsym.c:121-151 | the three scans of handle_map compute the slot rule |
| MemSym.Simulator.InitializeSimulator | lab06_template/memsym.c:58-83 | initialize_simulator sets the globals as the initialized machine says |
| MemSym.Simulator.ResetProcesses | lab06_template/memsym.c:68-73 | every process gets zero registers and a zeroed page table |
| MemSym.Simulator.InvalidateTlb | lab06_template/memsym.c:76-78 | every TLB entry becomes invalid and keeps its other fields |
| MemSym.Simulator.HandleDefine | lab06_template/memsym.c:85-97 | handle_define follows the define step |
| MemSym.Simulator.HandleCtxSwitch | lab06_template/memsym.c:99-110 | handle_ctxswitch follows the ctxswitch step |
| MemSym.Simulator.HandleMap | lab06_template/memsym.c:112-162 | handle_map follows the map step |
| MemSym.Simulator.HandleUnmap | lab06_template/memsym.c:164-179 | handle_unmap follows the unmap step |
| MemSym.Simulator.HandlePinspect | lab06_template/memsym.c:181-187 | handle_pinspect reports the page-table entry and changes nothing |
| MemSym.Simulator.HandleTinspect | lab06_template/memsym.c:189-195 | handle_tinspect reports the TLB entry and changes nothing |
| MemSym.Simulator.HandleLinspect | lab06_template/memsym.c:197-203 | handle_linspect reports the memory word and changes nothing |
| MemSym.Simulator.HandleRinspect | lab06_template/memsym.c:205-221 | handle_rinspect reports the register and changes nothing |
| MemSym.Simulator.AdvanceTimestamp | lab06_template/memsym.c:303 | the timestamp goes up by one modulo 2^32 and nothing else changes |
| MemSym.Simulator.Dispatch | lab06_template/memsym.c:306-322 | the dispatch calls the handler of the command word, and ignores unknown words |
| MemSym.Simulator.ExecuteTokens | lab06_template/memsym.c:291-322 | the define check, the increment and the dispatch follow the execute step |
| MemSym.Simulator.ProcessLine | lab06_template/memsym.c:260-322 | one pass of main's loop follows the line step |
| MemSym.Simulator.RunTrace | lab06_template/memsym.c:260-329 | main's loop produces the outputs and the stop of the run |
| Parser.NulFromSpec | lab03-template/parser.c:35 | the first NUL from i: no NUL before it, and a NUL at it when it is inside the buffer |
| Parser.NulFromAt | lab03-template/parser.c:35 | a NUL with no NUL before it is the first NUL |
| Parser.NulFromSkip | lab03-template/parser.c:35 | scanning from a point before the first NUL finds the same NUL |
| Parser.StrLen | lab03-template/parser.c:70 | strlen returns the index of the first NUL |
| Parser.ScanSpec | lab03-template/parser.c:37-51 | a scan stops at the first character that ends it |
| Parser.ScanBeforeNul | lab03-template/parser.c:37-51 | every scan stops at the terminating NUL at the latest |
| Parser.ScanBuffer | lab03-template/parser.c:37-51 | the scanning loops compute the scan |
| Parser.NextArgSpec | lab03-template/parser.c:36-53 | one pass finds no argument exactly when only blanks are left; otherwise an argument after blanks, cut by a NUL unless it reaches the end of the line |
| Parser.ParseCons | lab03-template/parser.c:35-54 | a non-empty parse is the first argument followed by the parse after it, and an argument that is not cut is the last |
| Parser.ParseInside | lab03-template/parser.c:35-54 | the parse holds at most max_args - 1 arguments, each inside the line |
| Parser.ParseAfter | lab03-template/parser.c:35-54 | every argument opens after the starting point |
| Parser.ParseOrdered | lab03-template/parser.c:35-54 | each argument is cut before the next one opens |
| Parser.ParseGaps | lab03-template/parser.c:37 | only blanks come before and between the arguments |
| Parser.ParseComplete | lab03-template/parser.c:35-38 | when fewer than max_args - 1 arguments are found, only blanks follow the last |
| Parser.ParseSpec | lab03-template/parser.c:31-58 | all the above for one parse |
| Parser.Terminate | lab03-template/parser.c:47-52 | cutting the arguments keeps the buffer's length |
| Parser.ArgIsString | lab03-template/parser.c:43-52 | each argument becomes a NUL-terminated string whose text is the original text |
| Parser.ArgsAreStrings | lab03-template/parser.c:31-58 | every argument of parse_args is such a string |
| Parser.ParseArgs | lab03-template/parser.c:31-58 | parse_args returns the number of arguments of the reference parse, stores their starts, cuts the buffer as the parse says, and sets the entry after the last to NULL |
| Parser.ParseRound | lab03-template/parser.c:35-53 | one pass of the loop of parse_args keeps the loop's invariant |
| Parser.ParseOne | lab03-template/parser.c:36-53 | one pass finds the next argument and cuts it |
| Parser.CutArg | lab03-template/parser.c:41-52 | an argument is scanned to its end and cut there unless it reaches the end of the line |
| Parser.ParseStep | lab03-template/parser.c:35-54 | one more argument found keeps the parse invariant |
| Parser.CutStep | lab03-template/parser.c:47-52 | one more cut keeps the buffer invariant |
| Parser.TrimEnd | lab03-template/parser.c:70-74 | the trimmed text is a prefix ending in a non-junk character, and only junk was removed |
| Parser.Copied | lab03-template/parser.c:67-68 | strncpy plus the final NUL keep the text before the first NUL and below bufferlen - 1 |
| Parser.TrimBuffer | lab03-template/parser.c:65-77 | the output buffer after trimstring has bufferlen bytes |
| Parser.StrNCopy | lab03-template/parser.c:67 | strncpy copies up to the first NUL and pads with NULs up to n |
| Parser.TrimString | lab03-template/parser.c:65-77 | trimstring fills the output as the trim says and returns the trimmed length |
| Parser.StripJunk | lab03-template/parser.c:70-74 | the loop NULs out the trailing junk characters |
| Parser.CopiedInBuffer | lab03-template/parser.c:67-68 | the buffer after copying holds the copied text and NULs |
| Parser.TrimDone | lab03-template/parser.c:70-76 | the buffer after the loop is the trimmed buffer and its strlen is the trimmed length |
| Parser.TrimIdempotent | lab03-template/parser.c:65-77 | trimming twice is trimming once |
| Parser.TrimmedPrefix | lab03-template/parser.c:65-77 | the trimmed string is a prefix of the input ending in a non-junk character, and everything cut was junk |
| Parser.IsValidAscii | lab03-template/parser.c:84-101 | isvalidascii says whether every character before min(strlen, bufferlen) is printable |
| Parser.TrimKeepsValid | lab03-template/parser.c:65-101 | trimming valid text keeps it valid |
| Parser.PipeFromSpec | lab03-template/parser.c:107-113 | the first '|' before the NUL and bufferlen, or -1 exactly when there is none |
| Parser.FindPipe | lab03-template/parser.c:107-113 | findpipe returns that index |
| MyAlloc.AlignUp | lab5-template/myalloc.c:25-28 | the adjusted size is a multiple of the page size, at least the request and less than a page more |
| MyAlloc.AlignedUnchanged | lab5-template/myalloc.c:25-28 | a whole number of pages is left as it is |
| MyAlloc.AlignUpLeast | lab5-template/myalloc.c:25-28 | the adjusted size is the least multiple of the page size holding the request |
| MyAlloc.AlignUpIdempotent | lab5-template/myalloc.c:25-28 | rounding twice is rounding once |
| MyAlloc.Init | lab5-template/myalloc.c:10-50 | too large a request fails and changes nothing; a failed mmap stores MAP_FAILED in the start and changes nothing else; otherwise the arena spans the adjusted size and that size is returned |
| MyAlloc.Destroy | lab5-template/myalloc.c:52-73 | without an arena, or when munmap fails, nothing changes and an error is returned; otherwise start becomes NULL and size 0, the end is kept, and 0 is returned |
| MyAlloc.InitThenDestroy | lab5-template/myalloc.c:10-73 | a successful init then destroy leaves no arena but the old end pointer |
| MyAlloc.FailedInitIsNotUninitialized | lab5-template/myalloc.c:37-59 | after a failed mmap, mydestroy does not report a missing arena |
| MyAlloc.DestroyUninitializedIdempotent | lab5-template/myalloc.c:55-59 | destroying with no arena is harmless however often it is repeated |
| MyAlloc.Arena.constructor | lab5-template/myalloc.c:6-8 | the globals start NULL, NULL, 0 |
| MyAlloc.Arena.MyInit | lab5-template/myalloc.c:10-50 | myinit updates the globals and returns as the init function says |
| MyAlloc.Arena.MyDestroy | lab5-template/myalloc.c:52-73 | mydestroy updates the globals and returns as the destroy function says |

## Left out

- Output: `printf`, `fprintf` and `perror` text is left out. Traces and reports are
  sequences of datatype values holding the printed numbers.
- File input: `fopen`, `getline` and `fgets` are left out. The workload is a sequence
  of (arrival, length) pairs and the memory trace is a sequence of lines. An empty
  file is modelled as an empty workload, and the split of long lines into `fgets`
  chunks is left out.
- NUL characters inside a line are not modelled.
- `malloc`/`calloc` failure and `exit` are not modelled.
- Averages: the floating-point divisions in `main` are left out. `Metrics.Analyze`
  returns the exact totals and the count they divide.
- `rand()` is a parameter `rand: nat -> nat`, where call k gives the k-th value.
  `srand(42)` is not modelled.
- `getpagesize()` is a positive parameter.
- `mmap` and `munmap` are oracle parameters.
- `myalloc.h` is not part of this model. `MAX_ARENA_SIZE` is a parameter and the
  error codes are symbolic.
- Integer widths: the C `int` arithmetic of the scheduler is unbounded here. So are
  the `size_t` rounding in `myinit` and its conversion to the `int` it returns, and
  the `size_t`-to-`int` return of `findpipe`. The memory simulator's 32-bit timestamp
  and its `uint32_t` operand conversions are modelled explicitly.
- Scheduler.Workload.RunSTCF: it requires every remaining time to be in (0, INT_MAX).
  `policy_STCF` never finishes on a job of length ≤ 0. It never picks a job whose
  remaining time is `INT_MAX`.
- Scheduler.Workload.RunLT: it requires positive lengths, positive tickets and a
  positive slice, because otherwise `policy_LT` never finishes.
- Stcf.StcfComplete: it requires every length below `INT_MAX`, the starting bound
  of the STCF minimum search (scheduler.c:141-145). A job of that length is never
  picked. The lottery lemma `Lottery.LotteryComplete` has no such bound.
- Scheduler.Simulate: when the policy is LT it requires a positive slice and positive lengths, as Scheduler.Workload.RunLT does.
- `policy_SJF` and `policy_RR` and the SJF and RR branches of `main` are left out. They
  are empty in the source.
- Parser.TrimString: `char` is taken to be signed, as on x86 Linux. Then bytes
  0x80..0xff compare below `'!'` and count as trailing junk. On a platform with
  unsigned `char` (for example ARM Linux), `trimstring` keeps them. The model does not
  cover that case.
- Parser.TrimString: it requires distinct buffers (`strncpy` on overlapping buffers is
  undefined) and `bufferlen >= 1` (otherwise the source writes before the buffer).
- Parser.FindPipe and Parser.IsValidAscii: they take the buffer's own terminating
  NUL (or its length) as the bound of what they may read. The source reads past the
  buffer in other cases.
- The `strategy` argument of the memory simulator is stored but never read by the source, so the model has no such input.
- `honour_PATH` in `lab03-template/parser.c` is left out. It searches the `PATH`
  directories and replaces the process with `execv`, which is process control and I/O.
- `lab03-template/shell.c` and `lab7-template` are not part of this model.
