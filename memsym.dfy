/**
 * The page-table and TLB simulator: four processes with a page table and
 * two registers each, an eight-entry TLB shared by all processes, the
 * current process id and a 32-bit instruction timestamp.
 *
 * The functions below are the reference model of the handlers and of the
 * dispatch loop over a machine value; the class `Simulator` holds the same
 * state in arrays and fields and updates it in place as the program does,
 * and each of its methods is proved to produce the reference model's state.
 */
module MemSym {
  import opened Wrappers
  import opened MemTokens

  const NUM_PROCESSES: int := 4
  const TLB_SIZE: int := 8
  /** Values of `uint32_t` are taken modulo this. */
  const U32: int := 0x1_0000_0000

  /** The conversion of an `int` to `uint32_t`. */
  function ToU32(x: int): (r: int)
    ensures 0 <= r < U32 && (r - x) % U32 == 0
  {
    x % U32
  }

  function Pow2(n: nat): (r: nat)
    ensures r >= 1
  {
    if n == 0 then 1 else 2 * Pow2(n - 1)
  }

  /** `1 << n` on a C `int` has a defined value only for these shift counts. */
  predicate ShiftDefined(n: int) {
    0 <= n <= 30
  }

  datatype TlbEntry = TlbEntry(vpn: int, pfn: int, valid: bool, pid: int, timestamp: int)

  datatype Pte = Pte(pfn: int, valid: bool)

  datatype ProcessState = ProcessState(r1: int, r2: int, pageTable: seq<Pte>)

  /** The program's globals. A page table of an undefined machine is empty (a NULL pointer). */
  datatype Machine = Machine(
    tlb: seq<TlbEntry>,
    processes: seq<ProcessState>,
    currentPid: int,
    timestamp: int,
    defined: bool,
    offBits: int,
    pfnBits: int,
    vpnBits: int,
    memorySize: int,
    memory: seq<int>)

  /** What an instruction reports in the output trace. */
  datatype Output =
    | MemoryDefined(pid: int, off: int, pfn: int, vpn: int)
    | Switched(pid: int)
    | Mapped(pid: int, vpn: int, pfn: int)
    | Unmapped(pid: int, vpn: int)
    | PageEntry(pid: int, vpn: int, pte: Pte)
    | TlbInspected(pid: int, index: int, entry: TlbEntry)
    | Location(pid: int, address: int, value: int)
    | Register(pid: int, name: string, value: int)
    | NoOutput

  /** The errors after which the program writes a message and exits. */
  datatype Error =
    | MultipleDefine(pid: int)
    | BeforeDefine(pid: int)
    | InvalidSwitch(pid: int, target: int)
    | InvalidRegister(pid: int, name: string)

  /**
   * How one line ends: skipped, executed with an output, halted on an
   * error, or stopped where C leaves the behaviour undefined (a missing
   * operand, an out-of-range index, an `int` overflow in `atoi`, a bad shift).
   */
  datatype Status = Skipped | Ok(out: Output) | Halt(error: Error) | Undefined

  datatype Step = Step(m: Machine, status: Status)

  /** The globals before the first line: nothing defined, every TLB entry zero. */
  function Start(): (m: Machine)
    ensures WellFormed(m) && UniqueTlb(m.tlb) && !m.defined
  {
    var e, p := TlbEntry(0, 0, false, 0, 0), ProcessState(0, 0, []);
    Machine([e, e, e, e, e, e, e, e], [p, p, p, p], 0, 0, false, -1, -1, -1, 0, [])
  }

  /** `n` zero words, as calloc returns them. */
  function Zeros(n: nat): (r: seq<int>)
    ensures |r| == n && forall i :: 0 <= i < n ==> r[i] == 0
  {
    if n == 0 then [] else Zeros(n - 1) + [0]
  }

  /** A calloc'ed page table of `n` entries: frame 0, not valid. */
  function EmptyTable(n: nat): (r: seq<Pte>)
    ensures |r| == n && forall i :: 0 <= i < n ==> r[i] == Pte(0, false)
  {
    if n == 0 then [] else EmptyTable(n - 1) + [Pte(0, false)]
  }

  /** The TLB with every valid flag cleared and every other field kept. */
  function Invalidated(t: seq<TlbEntry>): (r: seq<TlbEntry>)
    ensures |r| == |t| && forall i :: 0 <= i < |t| ==> r[i] == t[i].(valid := false)
  {
    if t == [] then [] else Invalidated(t[..|t| - 1]) + [t[|t| - 1].(valid := false)]
  }

  predicate WellFormed(m: Machine) {
    |m.tlb| == TLB_SIZE && |m.processes| == NUM_PROCESSES &&
    0 <= m.currentPid < NUM_PROCESSES && 0 <= m.timestamp < U32 &&
    |m.memory| == m.memorySize
  }

  predicate Matches(e: TlbEntry, pid: int, vpn: int) {
    e.valid && e.pid == pid && e.vpn == vpn
  }

  /** At most one valid TLB entry per (process, virtual page). */
  predicate UniqueTlb(t: seq<TlbEntry>) {
    forall i, j :: 0 <= i < j < |t| && t[i].valid && t[j].valid ==>
      t[i].pid != t[j].pid || t[i].vpn != t[j].vpn
  }

  // ---------------------------------------------------------------- TLB slot

  /** First index from `i` on holding a valid entry for (pid, vpn), or -1. */
  function FirstMatch(t: seq<TlbEntry>, pid: int, vpn: int, i: int): (r: int)
    requires 0 <= i <= |t|
    ensures r == -1 || i <= r < |t|
    decreases |t| - i
  {
    if i == |t| then -1
    else if Matches(t[i], pid, vpn) then i
    else FirstMatch(t, pid, vpn, i + 1)
  }

  /** First index from `i` on holding an invalid entry, or -1. */
  function FirstInvalid(t: seq<TlbEntry>, i: int): (r: int)
    requires 0 <= i <= |t|
    ensures r == -1 || i <= r < |t|
    decreases |t| - i
  {
    if i == |t| then -1
    else if !t[i].valid then i
    else FirstInvalid(t, i + 1)
  }

  /** The eviction scan over `t[..n]`: a later entry replaces the candidate only with a strictly smaller timestamp. */
  function Oldest(t: seq<TlbEntry>, n: int): (r: int)
    requires 1 <= n <= |t|
    ensures 0 <= r < n
  {
    if n == 1 then 0
    else
      var o := Oldest(t, n - 1);
      if t[n - 1].timestamp < t[o].timestamp then n - 1 else o
  }

  /** The slot `map` writes: the entry already holding the page, else a free entry, else the oldest. */
  function Slot(t: seq<TlbEntry>, pid: int, vpn: int): (r: int)
    requires |t| > 0
    ensures 0 <= r < |t|
  {
    var hit := FirstMatch(t, pid, vpn, 0);
    if hit != -1 then hit
    else
      var free := FirstInvalid(t, 0);
      if free != -1 then free else Oldest(t, |t|)
  }

  /**
   * The slot rule stated without the scans: the lowest-index valid entry
   * for (pid, vpn); failing that, the lowest-index invalid entry; failing
   * that, the lowest-index entry of minimum timestamp.
   */
  predicate IsSlotChoice(t: seq<TlbEntry>, pid: int, vpn: int, r: int) {
    0 <= r < |t| &&
    ((Matches(t[r], pid, vpn) && forall j :: 0 <= j < r ==> !Matches(t[j], pid, vpn)) ||
     ((forall j :: 0 <= j < |t| ==> !Matches(t[j], pid, vpn)) &&
      !t[r].valid && forall j :: 0 <= j < r ==> t[j].valid) ||
     ((forall j :: 0 <= j < |t| ==> t[j].valid && !Matches(t[j], pid, vpn)) &&
      (forall j :: 0 <= j < |t| ==> t[r].timestamp <= t[j].timestamp) &&
      (forall j :: 0 <= j < r ==> t[r].timestamp < t[j].timestamp)))
  }

  lemma {:induction false} FirstMatchSpec(t: seq<TlbEntry>, pid: int, vpn: int, i: int)
    requires 0 <= i <= |t|
    ensures var r := FirstMatch(t, pid, vpn, i);
      (r == -1 <==> forall j :: i <= j < |t| ==> !Matches(t[j], pid, vpn)) &&
      (r != -1 ==> i <= r < |t| && Matches(t[r], pid, vpn) &&
                   forall j :: i <= j < r ==> !Matches(t[j], pid, vpn))
    decreases |t| - i
  {
    if i < |t| {
      FirstMatchSpec(t, pid, vpn, i + 1);
    }
  }

  lemma {:induction false} FirstInvalidSpec(t: seq<TlbEntry>, i: int)
    requires 0 <= i <= |t|
    ensures var r := FirstInvalid(t, i);
      (r == -1 <==> forall j :: i <= j < |t| ==> t[j].valid) &&
      (r != -1 ==> i <= r < |t| && !t[r].valid && forall j :: i <= j < r ==> t[j].valid)
    decreases |t| - i
  {
    if i < |t| {
      FirstInvalidSpec(t, i + 1);
    }
  }

  lemma {:induction false} OldestSpec(t: seq<TlbEntry>, n: int)
    requires 1 <= n <= |t|
    ensures var r := Oldest(t, n);
      0 <= r < n &&
      (forall j :: 0 <= j < n ==> t[r].timestamp <= t[j].timestamp) &&
      (forall j :: 0 <= j < r ==> t[r].timestamp < t[j].timestamp)
  {
    if n > 1 {
      OldestSpec(t, n - 1);
    }
  }

  /** The scans pick the slot the rule describes. */
  lemma SlotSpec(t: seq<TlbEntry>, pid: int, vpn: int)
    requires |t| > 0
    ensures IsSlotChoice(t, pid, vpn, Slot(t, pid, vpn))
  {
    FirstMatchSpec(t, pid, vpn, 0);
    FirstInvalidSpec(t, 0);
    OldestSpec(t, |t|);
  }

  /** The rule leaves no choice: at most one slot satisfies it. */
  lemma SlotChoiceUnique(t: seq<TlbEntry>, pid: int, vpn: int, r1: int, r2: int)
    requires IsSlotChoice(t, pid, vpn, r1) && IsSlotChoice(t, pid, vpn, r2)
    ensures r1 == r2
  {
  }

  // ---------------------------------------------------------------- table updates

  /** The TLB after `map` writes (vpn, pfn) for `pid` with timestamp `ts`. */
  function MapTlb(t: seq<TlbEntry>, pid: int, vpn: int, pfn: int, ts: int): seq<TlbEntry>
    requires |t| > 0
  {
    t[Slot(t, pid, vpn) := TlbEntry(vpn, pfn, true, pid, ts)]
  }

  /** The TLB after `unmap`: the first valid entry for (pid, vpn), if any, becomes invalid. */
  function UnmapTlb(t: seq<TlbEntry>, pid: int, vpn: int): seq<TlbEntry> {
    var hit := FirstMatch(t, pid, vpn, 0);
    if hit == -1 then t else t[hit := t[hit].(valid := false)]
  }

  /**
   * The TLB after `map`: the chosen slot holds the new entry and the others
   * are untouched; uniqueness per (process, page) is kept, and the mapped
   * pair now has exactly one valid entry, the chosen slot.
   */
  lemma MapTlbSpec(t: seq<TlbEntry>, pid: int, vpn: int, pfn: int, ts: int)
    requires |t| > 0 && UniqueTlb(t)
    ensures var t' := MapTlb(t, pid, vpn, pfn, ts); var r := Slot(t, pid, vpn);
      IsSlotChoice(t, pid, vpn, r) && |t'| == |t| &&
      t'[r] == TlbEntry(vpn, pfn, true, pid, ts) &&
      (forall i :: 0 <= i < |t| && i != r ==> t'[i] == t[i]) &&
      UniqueTlb(t') &&
      (forall i :: 0 <= i < |t'| ==> (Matches(t'[i], pid, vpn) <==> i == r))
  {
    var t' := MapTlb(t, pid, vpn, pfn, ts);
    var r := Slot(t, pid, vpn);
    SlotSpec(t, pid, vpn);
    FirstMatchSpec(t, pid, vpn, 0);
    forall i | 0 <= i < |t'| && i != r
      ensures !Matches(t'[i], pid, vpn)
    {
      assert t'[i] == t[i];
      if FirstMatch(t, pid, vpn, 0) != -1 {
        assert r == FirstMatch(t, pid, vpn, 0) && Matches(t[r], pid, vpn);
      }
    }
  }

  /**
   * The TLB after `unmap`: only the first valid entry for the pair changes,
   * and only its valid flag; with uniqueness, no valid entry for the pair
   * is left, and uniqueness is kept.
   */
  lemma UnmapTlbSpec(t: seq<TlbEntry>, pid: int, vpn: int)
    requires UniqueTlb(t)
    ensures var t' := UnmapTlb(t, pid, vpn); var hit := FirstMatch(t, pid, vpn, 0);
      |t'| == |t| &&
      (hit == -1 ==> t' == t) &&
      (hit != -1 ==>
        Matches(t[hit], pid, vpn) && t'[hit] == t[hit].(valid := false) &&
        (forall i :: 0 <= i < |t| && i != hit ==> t'[i] == t[i])) &&
      UniqueTlb(t') &&
      (forall i :: 0 <= i < |t'| ==> !Matches(t'[i], pid, vpn))
  {
    FirstMatchSpec(t, pid, vpn, 0);
  }

  // ---------------------------------------------------------------- handlers

  /** initialize_simulator: record the bit widths, allocate zeroed memory and page tables, invalidate the TLB. */
  function Initialized(m: Machine, off: int, pfn: int, vpn: int): Machine
    requires ShiftDefined(off + pfn) && ShiftDefined(vpn)
  {
    m.(offBits := off, pfnBits := pfn, vpnBits := vpn,
       memorySize := Pow2(off + pfn), memory := Zeros(Pow2(off + pfn)),
       processes := var p := ProcessState(0, 0, EmptyTable(Pow2(vpn))); [p, p, p, p],
       tlb := Invalidated(m.tlb),
       defined := true)
  }

  /** Operand `k` of an instruction read with atoi; `None` where C's behaviour is undefined. */
  function Operand(tokens: seq<string>, k: nat): Option<int> {
    if k < |tokens| then Atoi(tokens[k]) else None
  }

  /** handle_define. */
  function Define(m: Machine, tokens: seq<string>): Step {
    if m.defined then Step(m, Halt(MultipleDefine(m.currentPid)))
    else
      var off, pfn, vpn := Operand(tokens, 1), Operand(tokens, 2), Operand(tokens, 3);
      if off.None? || pfn.None? || vpn.None? then Step(m, Undefined)
      else if !ShiftDefined(off.value + pfn.value) || !ShiftDefined(vpn.value) then Step(m, Undefined)
      else
        Step(Initialized(m, off.value, pfn.value, vpn.value),
             Ok(MemoryDefined(m.currentPid, off.value, pfn.value, vpn.value)))
  }

  /** handle_ctxswitch. */
  function CtxSwitch(m: Machine, tokens: seq<string>): Step {
    var p := Operand(tokens, 1);
    if p.None? then Step(m, Undefined)
    else if p.value < 0 || p.value >= NUM_PROCESSES then Step(m, Halt(InvalidSwitch(m.currentPid, p.value)))
    else Step(m.(currentPid := p.value), Ok(Switched(p.value)))
  }

  /** handle_map. */
  function Map(m: Machine, tokens: seq<string>): Step
    requires WellFormed(m)
  {
    var a, b := Operand(tokens, 1), Operand(tokens, 2);
    if a.None? || b.None? then Step(m, Undefined)
    else
      var vpn, pfn := ToU32(a.value), ToU32(b.value);
      var p := m.processes[m.currentPid];
      if vpn >= |p.pageTable| then Step(m, Undefined)
      else
        Step(m.(processes := m.processes[m.currentPid := p.(pageTable := p.pageTable[vpn := Pte(pfn, true)])],
                tlb := MapTlb(m.tlb, m.currentPid, vpn, pfn, m.timestamp)),
             Ok(Mapped(m.currentPid, vpn, pfn)))
  }

  /** handle_unmap. */
  function Unmap(m: Machine, tokens: seq<string>): Step
    requires WellFormed(m)
  {
    var a := Operand(tokens, 1);
    if a.None? then Step(m, Undefined)
    else
      var vpn := ToU32(a.value);
      var p := m.processes[m.currentPid];
      if vpn >= |p.pageTable| then Step(m, Undefined)
      else
        Step(m.(processes := m.processes[m.currentPid := p.(pageTable := p.pageTable[vpn := p.pageTable[vpn].(valid := false)])],
                tlb := UnmapTlb(m.tlb, m.currentPid, vpn)),
             Ok(Unmapped(m.currentPid, vpn)))
  }

  /** handle_pinspect: an unchecked read of the current page table. */
  function Pinspect(m: Machine, tokens: seq<string>): Step
    requires WellFormed(m)
  {
    var a := Operand(tokens, 1);
    if a.None? then Step(m, Undefined)
    else
      var vpn := ToU32(a.value);
      var pt := m.processes[m.currentPid].pageTable;
      if vpn >= |pt| then Step(m, Undefined) else Step(m, Ok(PageEntry(m.currentPid, vpn, pt[vpn])))
  }

  /** handle_tinspect: an unchecked read of the TLB. */
  function Tinspect(m: Machine, tokens: seq<string>): Step {
    var a := Operand(tokens, 1);
    if a.None? || a.value < 0 || a.value >= |m.tlb| then Step(m, Undefined)
    else Step(m, Ok(TlbInspected(m.currentPid, a.value, m.tlb[a.value])))
  }

  /** handle_linspect: an unchecked read of physical memory. */
  function Linspect(m: Machine, tokens: seq<string>): Step {
    var a := Operand(tokens, 1);
    if a.None? then Step(m, Undefined)
    else
      var pl := ToU32(a.value);
      if pl >= |m.memory| then Step(m, Undefined) else Step(m, Ok(Location(m.currentPid, pl, m.memory[pl])))
  }

  /** handle_rinspect. */
  function Rinspect(m: Machine, tokens: seq<string>): Step
    requires WellFormed(m)
  {
    if |tokens| < 2 then Step(m, Undefined)
    else
      var reg := tokens[1];
      var p := m.processes[m.currentPid];
      if reg == "r1" then Step(m, Ok(Register(m.currentPid, reg, p.r1)))
      else if reg == "r2" then Step(m, Ok(Register(m.currentPid, reg, p.r2)))
      else Step(m, Halt(InvalidRegister(m.currentPid, reg)))
  }

  /** The command dispatch of `main`; an unknown command does nothing. */
  function Instruction(m: Machine, tokens: seq<string>): Step
    requires WellFormed(m) && |tokens| > 0
  {
    var c := tokens[0];
    if c == "define" then Define(m, tokens)
    else if c == "ctxswitch" then CtxSwitch(m, tokens)
    else if c == "map" then Map(m, tokens)
    else if c == "unmap" then Unmap(m, tokens)
    else if c == "pinspect" then Pinspect(m, tokens)
    else if c == "tinspect" then Tinspect(m, tokens)
    else if c == "linspect" then Linspect(m, tokens)
    else if c == "rinspect" then Rinspect(m, tokens)
    else Step(m, Ok(NoOutput))
  }

  /** A line as `fgets` returns it, without its trailing newline. */
  function Chomp(line: string): string {
    if |line| > 0 && line[|line| - 1] == '\n' then line[..|line| - 1] else line
  }

  /** A line that is executed: not empty, not a `%` comment, and holding a token. */
  predicate IsInstruction(line: string) {
    var text := Chomp(line);
    text != [] && text[0] != '%' && Tokens(text) != []
  }

  /** An instruction line once tokenized: the define-before-use check, the timestamp increment, the dispatch. */
  function Execute(m: Machine, tokens: seq<string>): Step
    requires WellFormed(m) && |tokens| > 0
  {
    if tokens[0] != "define" && !m.defined then Step(m, Halt(BeforeDefine(m.currentPid)))
    else Instruction(m.(timestamp := Tick(m.timestamp)), tokens)
  }

  /** One pass of the loop of `main`. */
  function LineStep(m: Machine, line: string): Step
    requires WellFormed(m)
  {
    if !IsInstruction(line) then Step(m, Skipped)
    else Execute(m, Tokens(Chomp(line)))
  }

  // ---------------------------------------------------------------- handler facts

  /**
   * `define` on an undefined machine with good operands: memory of
   * `1 << (off + pfn)` zero words, every process with zero registers and a
   * zeroed page table of `1 << vpn` invalid entries, every TLB entry
   * invalid (its other fields kept), the current process and the timestamp
   * unchanged. A second `define` is an error that changes nothing.
   */
  lemma DefineSpec(m: Machine, tokens: seq<string>)
    requires WellFormed(m)
    ensures var st := Define(m, tokens);
      (m.defined ==> st == Step(m, Halt(MultipleDefine(m.currentPid)))) &&
      (st.status.Ok? ==>
        var off, pfn, vpn := Operand(tokens, 1).value, Operand(tokens, 2).value, Operand(tokens, 3).value;
        !m.defined && st.m.defined && WellFormed(st.m) && UniqueTlb(st.m.tlb) &&
        st.m.memorySize == Pow2(off + pfn) &&
        (forall a :: 0 <= a < |st.m.memory| ==> st.m.memory[a] == 0) &&
        (forall p :: 0 <= p < NUM_PROCESSES ==>
          st.m.processes[p].r1 == 0 && st.m.processes[p].r2 == 0 &&
          |st.m.processes[p].pageTable| == Pow2(vpn) &&
          forall v :: 0 <= v < Pow2(vpn) ==> st.m.processes[p].pageTable[v] == Pte(0, false)) &&
        (forall i :: 0 <= i < TLB_SIZE ==> st.m.tlb[i] == m.tlb[i].(valid := false)) &&
        st.m.currentPid == m.currentPid && st.m.timestamp == m.timestamp)
  {
  }

  /** `ctxswitch` is rejected exactly for targets outside [0, 4), and then nothing changes. */
  lemma CtxSwitchSpec(m: Machine, tokens: seq<string>, target: int)
    requires Operand(tokens, 1) == Some(target)
    ensures var st := CtxSwitch(m, tokens);
      (st.status.Halt? <==> target < 0 || target >= NUM_PROCESSES) &&
      (st.status.Halt? ==> st.m == m) &&
      (!st.status.Halt? ==> st.m == m.(currentPid := target) && st.status == Ok(Switched(target)))
  {
  }

  /**
   * `map` of page `vpn` to frame `pfn`: the current process's entry
   * `vpn` becomes (pfn, valid), every other page-table entry, process and
   * register is untouched, the TLB changes as MapTlb says with the
   * current timestamp, and uniqueness of TLB entries is kept.
   */
  lemma MapSpec(m: Machine, tokens: seq<string>, vpn: int, pfn: int)
    requires WellFormed(m) && UniqueTlb(m.tlb)
    requires Operand(tokens, 1).Some? && Operand(tokens, 2).Some?
    requires vpn == ToU32(Operand(tokens, 1).value) && pfn == ToU32(Operand(tokens, 2).value)
    requires vpn < |m.processes[m.currentPid].pageTable|
    ensures var st := Map(m, tokens); var pid := m.currentPid;
      st.status == Ok(Mapped(pid, vpn, pfn)) && WellFormed(st.m) && UniqueTlb(st.m.tlb) &&
      st.m.tlb == MapTlb(m.tlb, pid, vpn, pfn, m.timestamp) &&
      (forall i :: 0 <= i < TLB_SIZE ==> (Matches(st.m.tlb[i], pid, vpn) <==> i == Slot(m.tlb, pid, vpn))) &&
      |st.m.processes[pid].pageTable| == |m.processes[pid].pageTable| &&
      st.m.processes[pid].pageTable[vpn] == Pte(pfn, true) &&
      (forall v :: 0 <= v < |m.processes[pid].pageTable| && v != vpn ==>
        st.m.processes[pid].pageTable[v] == m.processes[pid].pageTable[v]) &&
      st.m.processes[pid].r1 == m.processes[pid].r1 && st.m.processes[pid].r2 == m.processes[pid].r2 &&
      (forall p :: 0 <= p < NUM_PROCESSES && p != pid ==> st.m.processes[p] == m.processes[p]) &&
      st.m.(processes := m.processes, tlb := m.tlb) == m
  {
    MapTlbSpec(m.tlb, m.currentPid, vpn, pfn, m.timestamp);
  }

  /**
   * `unmap` of page `vpn`: the current process's entry `vpn` loses its
   * valid flag (its frame is kept), nothing else in the page tables
   * changes, the TLB changes as UnmapTlb says, and afterwards no valid
   * TLB entry for the page of the current process is left.
   */
  lemma UnmapSpec(m: Machine, tokens: seq<string>, vpn: int)
    requires WellFormed(m) && UniqueTlb(m.tlb)
    requires Operand(tokens, 1).Some? && vpn == ToU32(Operand(tokens, 1).value)
    requires vpn < |m.processes[m.currentPid].pageTable|
    ensures var st := Unmap(m, tokens); var pid := m.currentPid;
      st.status == Ok(Unmapped(pid, vpn)) && WellFormed(st.m) && UniqueTlb(st.m.tlb) &&
      st.m.tlb == UnmapTlb(m.tlb, pid, vpn) &&
      (forall i :: 0 <= i < TLB_SIZE ==> !Matches(st.m.tlb[i], pid, vpn)) &&
      |st.m.processes[pid].pageTable| == |m.processes[pid].pageTable| &&
      st.m.processes[pid].pageTable[vpn] == Pte(m.processes[pid].pageTable[vpn].pfn, false) &&
      (forall v :: 0 <= v < |m.processes[pid].pageTable| && v != vpn ==>
        st.m.processes[pid].pageTable[v] == m.processes[pid].pageTable[v]) &&
      (forall p :: 0 <= p < NUM_PROCESSES && p != pid ==> st.m.processes[p] == m.processes[p]) &&
      st.m.(processes := m.processes, tlb := m.tlb) == m
  {
    UnmapTlbSpec(m.tlb, m.currentPid, vpn);
  }

  /** `rinspect` reads `r1` or `r2` of the current process and is an error for any other operand; it changes nothing. */
  lemma RinspectSpec(m: Machine, tokens: seq<string>)
    requires WellFormed(m) && |tokens| >= 2
    ensures var st := Rinspect(m, tokens); var p := m.processes[m.currentPid];
      st.m == m &&
      (st.status.Halt? <==> tokens[1] != "r1" && tokens[1] != "r2") &&
      (tokens[1] == "r1" ==> st.status == Ok(Register(m.currentPid, "r1", p.r1))) &&
      (tokens[1] == "r2" ==> st.status == Ok(Register(m.currentPid, "r2", p.r2)))
  {
  }

  /** Every instruction keeps the machine well formed and the TLB free of duplicate pairs. */
  lemma InstructionKeepsInvariant(m: Machine, tokens: seq<string>)
    requires WellFormed(m) && UniqueTlb(m.tlb) && |tokens| > 0
    ensures WellFormed(Instruction(m, tokens).m) && UniqueTlb(Instruction(m, tokens).m.tlb)
  {
    var c := tokens[0];
    if c == "map" {
      var a, b := Operand(tokens, 1), Operand(tokens, 2);
      if a.Some? && b.Some? && ToU32(a.value) < |m.processes[m.currentPid].pageTable| {
        MapSpec(m, tokens, ToU32(a.value), ToU32(b.value));
      }
    } else if c == "unmap" {
      var a := Operand(tokens, 1);
      if a.Some? && ToU32(a.value) < |m.processes[m.currentPid].pageTable| {
        UnmapSpec(m, tokens, ToU32(a.value));
      }
    } else if c == "define" {
      DefineSpec(m, tokens);
    }
  }

  /**
   * Before `define`, any other instruction is an error that changes
   * nothing; otherwise the timestamp goes up by one (modulo 2^32) before
   * the instruction runs, so every executed instruction sees the
   * incremented value.
   */
  lemma ExecuteSpec(m: Machine, tokens: seq<string>)
    requires WellFormed(m) && |tokens| > 0
    ensures var st := Execute(m, tokens);
      st.status != Skipped &&
      (!m.defined && tokens[0] != "define" ==> st == Step(m, Halt(BeforeDefine(m.currentPid)))) &&
      (m.defined || tokens[0] == "define" ==>
        st == Instruction(m.(timestamp := Tick(m.timestamp)), tokens) &&
        st.m.timestamp == Tick(m.timestamp)) &&
      (st.m.defined <==> m.defined || (st.status.Ok? && st.status.out.MemoryDefined?)) &&
      (m.defined ==> !(st.status.Ok? && st.status.out.MemoryDefined?)) &&
      (!m.defined && st.status.Ok? ==> st.status.out.MemoryDefined?)
  {
    if m.defined || tokens[0] == "define" {
      var m' := m.(timestamp := Tick(m.timestamp));
      assert WellFormed(m');
      assert Execute(m, tokens) == Instruction(m', tokens);
      InstructionTimestamp(m', tokens);
      if tokens[0] == "define" {
        assert Instruction(m', tokens) == Define(m', tokens);
      } else {
        assert m.defined;
      }
    }
  }

  /** Executing an instruction keeps the machine well formed and the TLB free of duplicate pairs. */
  lemma ExecuteKeepsInvariant(m: Machine, tokens: seq<string>)
    requires WellFormed(m) && UniqueTlb(m.tlb) && |tokens| > 0
    ensures WellFormed(Execute(m, tokens).m) && UniqueTlb(Execute(m, tokens).m.tlb)
  {
    var st := Execute(m, tokens);
    if m.defined || tokens[0] == "define" {
      var m' := m.(timestamp := Tick(m.timestamp));
      assert WellFormed(m');
      assert st == Instruction(m', tokens);
      InstructionKeepsInvariant(m', tokens);
    } else {
      assert st.m == m;
    }
  }

  /** Lines that are empty, `%` comments or blank are skipped and change nothing; every other line is executed. */
  lemma LineStepSpec(m: Machine, line: string)
    requires WellFormed(m) && UniqueTlb(m.tlb)
    ensures var st := LineStep(m, line);
      WellFormed(st.m) && UniqueTlb(st.m.tlb) &&
      (!IsInstruction(line) ==> st == Step(m, Skipped)) &&
      (IsInstruction(line) ==> |Tokens(Chomp(line))| > 0 && st == Execute(m, Tokens(Chomp(line))) && st.status != Skipped) &&
      (st.status.Ok? ==> st.m.timestamp == Tick(m.timestamp)) &&
      (st.m.defined <==> m.defined || (st.status.Ok? && st.status.out.MemoryDefined?)) &&
      (m.defined ==> !(st.status.Ok? && st.status.out.MemoryDefined?)) &&
      (!m.defined && st.status.Ok? ==> st.status.out.MemoryDefined?)
  {
    var st := LineStep(m, line);
    if IsInstruction(line) {
      var tokens := Tokens(Chomp(line));
      assert st == Execute(m, tokens);
      ExecuteSpec(m, tokens);
      ExecuteKeepsInvariant(m, tokens);
    } else {
      assert st == Step(m, Skipped);
    }
  }

  /** No handler touches the timestamp counter. */
  lemma InstructionTimestamp(m: Machine, tokens: seq<string>)
    requires WellFormed(m) && |tokens| > 0
    ensures Instruction(m, tokens).m.timestamp == m.timestamp
    ensures Instruction(m, tokens).status != Skipped
    ensures Instruction(m, tokens).m.defined == (m.defined || (Instruction(m, tokens).status.Ok? && Instruction(m, tokens).status.out.MemoryDefined?))
  {
  }

  // ---------------------------------------------------------------- the trace

  datatype Stop = EndOfInput | Stopped(error: Error) | UndefinedBehaviour

  /** The outputs of a whole input trace, the final machine and how the run ended. */
  datatype Trace = Trace(m: Machine, outputs: seq<Output>, stop: Stop)

  /** The loop of `main` over the lines of the input trace. */
  function Run(m: Machine, lines: seq<string>): Trace
    requires WellFormed(m) && UniqueTlb(m.tlb)
    decreases |lines|, 1
  {
    if lines == [] then Trace(m, [], EndOfInput) else RunFrom(m, lines[0], lines[1..])
  }

  /** The run from one line on: the line's step, then the rest of the lines unless the program has stopped. */
  function RunFrom(m: Machine, line: string, rest: seq<string>): Trace
    requires WellFormed(m) && UniqueTlb(m.tlb)
    decreases |rest| + 1, 0
  {
    LineStepSpec(m, line);
    var st := LineStep(m, line);
    match st.status
    case Skipped => Run(m, rest)
    case Ok(out) =>
      var r := Run(st.m, rest);
      r.(outputs := [out] + r.outputs)
    case Halt(e) => Trace(st.m, [], Stopped(e))
    case Undefined => Trace(st.m, [], UndefinedBehaviour)
  }

  /** How a run proceeds past its first line. */
  lemma RunFirstLine(m: Machine, lines: seq<string>)
    requires WellFormed(m) && UniqueTlb(m.tlb) && lines != []
    ensures var st := LineStep(m, lines[0]); var r := Run(m, lines);
      WellFormed(st.m) && UniqueTlb(st.m.tlb) &&
      InstructionCount(lines) == InstructionCount(lines[1..]) + (if st.status == Skipped then 0 else 1) &&
      (st.status.Ok? ==> st.m.timestamp == Tick(m.timestamp)) &&
      (st.status == Skipped ==> st.m == m && r == Run(m, lines[1..])) &&
      (st.status.Ok? ==>
        r == Trace(Run(st.m, lines[1..]).m, [st.status.out] + Run(st.m, lines[1..]).outputs, Run(st.m, lines[1..]).stop)) &&
      (st.status.Halt? ==> r == Trace(st.m, [], Stopped(st.status.error))) &&
      (st.status.Undefined? ==> r == Trace(st.m, [], UndefinedBehaviour))
  {
    LineStepSpec(m, lines[0]);
  }

  /** Number of lines that are executed instructions. */
  function InstructionCount(lines: seq<string>): nat {
    if lines == [] then 0 else (if IsInstruction(lines[0]) then 1 else 0) + InstructionCount(lines[1..])
  }

  /** A run keeps the machine well formed and the TLB free of duplicate pairs. */
  lemma {:induction false} RunKeepsInvariant(m: Machine, lines: seq<string>)
    requires WellFormed(m) && UniqueTlb(m.tlb)
    ensures WellFormed(Run(m, lines).m) && UniqueTlb(Run(m, lines).m.tlb)
    decreases |lines|
  {
    if lines != [] {
      RunFirstLine(m, lines);
      var st := LineStep(m, lines[0]);
      if st.status.Skipped? {
        RunKeepsInvariant(m, lines[1..]);
      } else if st.status.Ok? {
        RunKeepsInvariant(st.m, lines[1..]);
      }
    }
  }

  /** One increment of the 32-bit timestamp counter. */
  function Tick(t: int): int {
    (t + 1) % U32
  }

  lemma TicksStep(t: int, k: nat)
    ensures Ticks(t, k + 1) == Ticks(Tick(t), k)
  {
  }

  /** The timestamp after `k` increments of the 32-bit counter starting from `t`. */
  function Ticks(t: int, k: nat): int
    decreases k
  {
    if k == 0 then t else Ticks(Tick(t), k - 1)
  }

  /** Counting `k` increments one at a time is adding `k` modulo 2^32. */
  lemma {:induction false} TicksMod(t: int, k: nat)
    requires 0 <= t < U32
    ensures Ticks(t, k) == (t + k) % U32
    decreases k
  {
    if k > 0 {
      if t + 1 < U32 {
        assert (t + 1) % U32 == t + 1;
        TicksMod(t + 1, k - 1);
      } else {
        assert (t + 1) % U32 == 0;
        TicksMod(0, k - 1);
        assert t + k == (k - 1) + U32;
      }
    }
  }

  /**
   * A run that reaches the end of its input has counted every executed
   * instruction in its timestamp: one 32-bit increment per instruction
   * line (see TicksMod for the sum this is).
   */
  lemma {:induction false} RunTimestamp(m: Machine, lines: seq<string>)
    requires WellFormed(m) && UniqueTlb(m.tlb)
    ensures Run(m, lines).stop == EndOfInput ==>
      Run(m, lines).m.timestamp == Ticks(m.timestamp, InstructionCount(lines))
    decreases |lines|
  {
    if lines == [] {
      assert Run(m, lines) == Trace(m, [], EndOfInput);
    } else {
      LineStepSpec(m, lines[0]);
      RunTimestamp(LineStep(m, lines[0]).m, lines[1..]);
      TimestampFirstLine(m, lines);
    }
  }

  /** The inductive step of RunTimestamp: the claim for the rest of the lines gives it for all of them. */
  lemma TimestampFirstLine(m: Machine, lines: seq<string>)
    requires WellFormed(m) && UniqueTlb(m.tlb) && lines != []
    requires WellFormed(LineStep(m, lines[0]).m) && UniqueTlb(LineStep(m, lines[0]).m.tlb)
    requires var st := LineStep(m, lines[0]); var r := Run(st.m, lines[1..]);
      r.stop == EndOfInput ==> r.m.timestamp == Ticks(st.m.timestamp, InstructionCount(lines[1..]))
    ensures Run(m, lines).stop == EndOfInput ==>
      Run(m, lines).m.timestamp == Ticks(m.timestamp, InstructionCount(lines))
  {
    RunFirstLine(m, lines);
    var st := LineStep(m, lines[0]);
    var rest := Run(st.m, lines[1..]);
    var n := InstructionCount(lines[1..]);
    if st.status == Skipped {
      assert Run(m, lines) == rest;
      assert InstructionCount(lines) == n;
      assert st.m == m;
      assert rest.stop == EndOfInput ==> rest.m.timestamp == Ticks(m.timestamp, n);
    } else if st.status.Ok? {
      assert Run(m, lines).m == rest.m && Run(m, lines).stop == rest.stop;
      TicksStep(m.timestamp, n);
      assert InstructionCount(lines) == n + 1;
      assert Ticks(m.timestamp, InstructionCount(lines)) == Ticks(st.m.timestamp, n);
      assert rest.stop == EndOfInput ==> rest.m.timestamp == Ticks(st.m.timestamp, n);
    } else {
      assert Run(m, lines).stop != EndOfInput;
    }
  }


  /**
   * Define comes first and only once: from an undefined machine, the first
   * output of a run (if any) is the `define` report; from a defined one, no
   * output is a `define` report and the machine stays defined.
   */
  lemma {:induction false} DefineFirstAndOnce(m: Machine, lines: seq<string>)
    requires WellFormed(m) && UniqueTlb(m.tlb)
    ensures !m.defined ==> Run(m, lines).outputs == [] || Run(m, lines).outputs[0].MemoryDefined?
    ensures m.defined ==>
      Run(m, lines).m.defined &&
      (forall k :: 0 <= k < |Run(m, lines).outputs| ==> !Run(m, lines).outputs[k].MemoryDefined?)
    decreases |lines|
  {
    if lines != [] {
      RunFirstLine(m, lines);
      LineStepSpec(m, lines[0]);
      var st := LineStep(m, lines[0]);
      if st.status.Skipped? {
        DefineFirstAndOnce(m, lines[1..]);
      } else if st.status.Ok? {
        DefineFirstAndOnce(st.m, lines[1..]);
      }
    }
  }

  // ---------------------------------------------------------------- in place

  /** The simulator's globals, updated in place by the handlers. */
  class Simulator {
    const tlb: array<TlbEntry>
    const processes: array<ProcessState>
    var currentPid: int
    var timestampCounter: int
    var defined: bool
    var offBits: int
    var pfnBits: int
    var vpnBits: int
    var memorySize: int
    var physicalMemory: seq<int>

    /** The machine value these fields and arrays hold. */
    function Snapshot(): Machine
      reads this, tlb, processes
    {
      Machine(tlb[..], processes[..], currentPid, timestampCounter, defined,
              offBits, pfnBits, vpnBits, memorySize, physicalMemory)
    }

    ghost predicate Valid()
      reads this, tlb, processes
    {
      WellFormed(Snapshot()) && UniqueTlb(tlb[..])
    }

    constructor ()
      ensures Valid() && Snapshot() == Start()
    {
      tlb := new TlbEntry[TLB_SIZE](_ => TlbEntry(0, 0, false, 0, 0));
      processes := new ProcessState[NUM_PROCESSES](_ => ProcessState(0, 0, []));
      currentPid, timestampCounter, defined := 0, 0, false;
      offBits, pfnBits, vpnBits := -1, -1, -1;
      memorySize, physicalMemory := 0, [];
      new;
      assert tlb[..] == Start().tlb && processes[..] == Start().processes;
    }

    /** The three scans of handle_map: an entry already holding the page, else a free one, else the oldest. */
    method ChooseSlot(vpn: int) returns (idx: int)
      requires tlb.Length == TLB_SIZE
      ensures idx == Slot(tlb[..], currentPid, vpn)
      ensures IsSlotChoice(tlb[..], currentPid, vpn, idx)
    {
      ghost var t := tlb[..];
      idx := -1;
      var i := 0;
      while i < tlb.Length
        invariant 0 <= i <= tlb.Length
        invariant FirstMatch(t, currentPid, vpn, i) == FirstMatch(t, currentPid, vpn, 0)
      {
        if tlb[i].valid && tlb[i].pid == currentPid && tlb[i].vpn == vpn {
          idx := i;
          break;
        }
        i := i + 1;
      }
      if idx == -1 {
        i := 0;
        while i < tlb.Length
          invariant 0 <= i <= tlb.Length
          invariant FirstInvalid(t, i) == FirstInvalid(t, 0)
        {
          if !tlb[i].valid {
            idx := i;
            break;
          }
          i := i + 1;
        }
      }
      if idx == -1 {
        var oldestTimestamp := tlb[0].timestamp;
        idx := 0;
        i := 1;
        while i < tlb.Length
          invariant 1 <= i <= tlb.Length
          invariant idx == Oldest(t, i) && 0 <= idx < i && oldestTimestamp == tlb[idx].timestamp
        {
          if tlb[i].timestamp < oldestTimestamp {
            oldestTimestamp := tlb[i].timestamp;
            idx := i;
          }
          i := i + 1;
        }
      }
      SlotSpec(t, currentPid, vpn);
    }

    /** initialize_simulator. */
    method InitializeSimulator(off: int, pfn: int, vpn: int)
      requires Valid() && ShiftDefined(off + pfn) && ShiftDefined(vpn)
      modifies this, tlb, processes
      ensures Valid() && Snapshot() == Initialized(old(Snapshot()), off, pfn, vpn)
    {
      offBits, pfnBits, vpnBits := off, pfn, vpn;
      memorySize := Pow2(off + pfn);
      physicalMemory := Zeros(memorySize);
      ResetProcesses(Pow2(vpn));
      InvalidateTlb();
      defined := true;
    }

    /** The page-table loop of initialize_simulator: every process gets a zeroed table of `numPages` entries. */
    method ResetProcesses(numPages: nat)
      requires processes.Length == NUM_PROCESSES
      modifies processes
      ensures processes[..] == var p := ProcessState(0, 0, EmptyTable(numPages)); [p, p, p, p]
    {
      for i := 0 to NUM_PROCESSES
        invariant forall p :: 0 <= p < i ==> processes[p] == ProcessState(0, 0, EmptyTable(numPages))
      {
        processes[i] := ProcessState(0, 0, EmptyTable(numPages));
      }
    }

    /** The TLB loop of initialize_simulator: every entry is marked invalid and keeps its other fields. */
    method InvalidateTlb()
      modifies tlb
      ensures tlb[..] == Invalidated(old(tlb[..]))
    {
      for i := 0 to tlb.Length
        invariant forall k :: 0 <= k < i ==> tlb[k] == old(tlb[k]).(valid := false)
        invariant forall k :: i <= k < tlb.Length ==> tlb[k] == old(tlb[k])
      {
        tlb[i] := tlb[i].(valid := false);
      }
    }

    method HandleDefine(tokens: seq<string>) returns (status: Status)
      requires Valid()
      modifies this, tlb, processes
      ensures Valid()
      ensures Step(Snapshot(), status) == Define(old(Snapshot()), tokens)
    {
      if defined {
        return Halt(MultipleDefine(currentPid));
      }
      var off, pfn, vpn := Operand(tokens, 1), Operand(tokens, 2), Operand(tokens, 3);
      if off.None? || pfn.None? || vpn.None? {
        return Undefined;
      }
      if !ShiftDefined(off.value + pfn.value) || !ShiftDefined(vpn.value) {
        return Undefined;
      }
      InitializeSimulator(off.value, pfn.value, vpn.value);
      status := Ok(MemoryDefined(currentPid, off.value, pfn.value, vpn.value));
    }

    method HandleCtxSwitch(tokens: seq<string>) returns (status: Status)
      requires Valid()
      modifies this
      ensures Valid()
      ensures Step(Snapshot(), status) == CtxSwitch(old(Snapshot()), tokens)
    {
      var newPid := Operand(tokens, 1);
      if newPid.None? {
        return Undefined;
      }
      if newPid.value < 0 || newPid.value >= NUM_PROCESSES {
        return Halt(InvalidSwitch(currentPid, newPid.value));
      }
      currentPid := newPid.value;
      status := Ok(Switched(currentPid));
    }

    method HandleMap(tokens: seq<string>) returns (status: Status)
      requires Valid()
      modifies processes, tlb
      ensures Valid()
      ensures Step(Snapshot(), status) == Map(old(Snapshot()), tokens)
    {
      var a, b := Operand(tokens, 1), Operand(tokens, 2);
      if a.None? || b.None? {
        return Undefined;
      }
      var vpn, pfn := ToU32(a.value), ToU32(b.value);
      var p := processes[currentPid];
      if vpn >= |p.pageTable| {
        return Undefined;
      }
      ghost var m := Snapshot();
      MapSpec(m, tokens, vpn, pfn);
      processes[currentPid] := p.(pageTable := p.pageTable[vpn := Pte(pfn, true)]);
      var idx := ChooseSlot(vpn);
      tlb[idx] := TlbEntry(vpn, pfn, true, currentPid, timestampCounter);
      assert processes[..] == Map(m, tokens).m.processes;
      assert tlb[..] == Map(m, tokens).m.tlb;
      status := Ok(Mapped(currentPid, vpn, pfn));
    }

    method HandleUnmap(tokens: seq<string>) returns (status: Status)
      requires Valid()
      modifies processes, tlb
      ensures Valid()
      ensures Step(Snapshot(), status) == Unmap(old(Snapshot()), tokens)
    {
      var a := Operand(tokens, 1);
      if a.None? {
        return Undefined;
      }
      var vpn := ToU32(a.value);
      var p := processes[currentPid];
      if vpn >= |p.pageTable| {
        return Undefined;
      }
      ghost var m := Snapshot();
      UnmapSpec(m, tokens, vpn);
      processes[currentPid] := p.(pageTable := p.pageTable[vpn := p.pageTable[vpn].(valid := false)]);
      var i := 0;
      while i < tlb.Length
        modifies tlb
        invariant 0 <= i <= tlb.Length
        invariant tlb[..] == m.tlb
        invariant FirstMatch(m.tlb, currentPid, vpn, i) == FirstMatch(m.tlb, currentPid, vpn, 0)
        invariant processes[..] == Unmap(m, tokens).m.processes
      {
        if tlb[i].valid && tlb[i].pid == currentPid && tlb[i].vpn == vpn {
          tlb[i] := tlb[i].(valid := false);
          break;
        }
        i := i + 1;
      }
      assert tlb[..] == Unmap(m, tokens).m.tlb;
      status := Ok(Unmapped(currentPid, vpn));
    }

    method HandlePinspect(tokens: seq<string>) returns (status: Status)
      requires Valid()
      ensures Step(Snapshot(), status) == Pinspect(Snapshot(), tokens)
    {
      var a := Operand(tokens, 1);
      if a.None? {
        return Undefined;
      }
      var vpn := ToU32(a.value);
      var pte := processes[currentPid].pageTable;
      if vpn >= |pte| {
        return Undefined;
      }
      status := Ok(PageEntry(currentPid, vpn, pte[vpn]));
    }

    method HandleTinspect(tokens: seq<string>) returns (status: Status)
      requires Valid()
      ensures Step(Snapshot(), status) == Tinspect(Snapshot(), tokens)
    {
      var a := Operand(tokens, 1);
      if a.None? || a.value < 0 || a.value >= tlb.Length {
        return Undefined;
      }
      status := Ok(TlbInspected(currentPid, a.value, tlb[a.value]));
    }

    method HandleLinspect(tokens: seq<string>) returns (status: Status)
      requires Valid()
      ensures Step(Snapshot(), status) == Linspect(Snapshot(), tokens)
    {
      var a := Operand(tokens, 1);
      if a.None? {
        return Undefined;
      }
      var pl := ToU32(a.value);
      if pl >= |physicalMemory| {
        return Undefined;
      }
      status := Ok(Location(currentPid, pl, physicalMemory[pl]));
    }

    method HandleRinspect(tokens: seq<string>) returns (status: Status)
      requires Valid()
      ensures Step(Snapshot(), status) == Rinspect(Snapshot(), tokens)
    {
      if |tokens| < 2 {
        return Undefined;
      }
      var reg := tokens[1];
      if reg == "r1" {
        status := Ok(Register(currentPid, reg, processes[currentPid].r1));
      } else if reg == "r2" {
        status := Ok(Register(currentPid, reg, processes[currentPid].r2));
      } else {
        status := Halt(InvalidRegister(currentPid, reg));
      }
    }

    /** One pass of the loop of `main` over a line read by fgets. */
    method ProcessLine(line: string) returns (status: Status)
      requires Valid()
      modifies this, tlb, processes
      ensures Valid()
      ensures Step(Snapshot(), status) == LineStep(old(Snapshot()), line)
    {
      var text := line;
      if |text| > 0 && text[|text| - 1] == '\n' {
        text := text[..|text| - 1];
      }
      if |text| == 0 || text[0] == '%' {
        return Skipped;
      }
      var tokens := TokenizeInput(text);
      if |tokens| == 0 {
        return Skipped;
      }
      assert Tokens(Chomp(line)) == tokens && IsInstruction(line);
      status := ExecuteTokens(tokens);
    }

    /** An instruction line once tokenized: the define-before-use check, the timestamp increment, the dispatch. */
    method ExecuteTokens(tokens: seq<string>) returns (status: Status)
      requires Valid() && |tokens| > 0
      modifies this, tlb, processes
      ensures Valid()
      ensures Step(Snapshot(), status) == Execute(old(Snapshot()), tokens)
    {
      if tokens[0] != "define" && !defined {
        return Halt(BeforeDefine(currentPid));
      }
      ghost var m0 := Snapshot();
      assert Execute(m0, tokens) == Instruction(m0.(timestamp := Tick(m0.timestamp)), tokens);
      AdvanceTimestamp();
      status := Dispatch(tokens);
    }

    /** The increment of the global timestamp before each executed instruction, wrapping at 2^32. */
    method AdvanceTimestamp()
      requires Valid()
      modifies this
      ensures Valid()
      ensures Snapshot() == old(Snapshot()).(timestamp := Tick(old(timestampCounter)))
    {
      timestampCounter := (timestampCounter + 1) % U32;
    }

    /** The command dispatch of the loop of `main`: one handler per command word, anything else ignored. */
    method Dispatch(tokens: seq<string>) returns (status: Status)
      requires Valid() && |tokens| > 0
      modifies this, tlb, processes
      ensures Valid()
      ensures Step(Snapshot(), status) == Instruction(old(Snapshot()), tokens)
    {
      var command := tokens[0];
      if command == "define" {
        status := HandleDefine(tokens);
      } else if command == "ctxswitch" {
        status := HandleCtxSwitch(tokens);
      } else if command == "map" {
        status := HandleMap(tokens);
      } else if command == "unmap" {
        status := HandleUnmap(tokens);
      } else if command == "pinspect" {
        status := HandlePinspect(tokens);
      } else if command == "tinspect" {
        status := HandleTinspect(tokens);
      } else if command == "linspect" {
        status := HandleLinspect(tokens);
      } else if command == "rinspect" {
        status := HandleRinspect(tokens);
      } else {
        status := Ok(NoOutput);
      }
    }

    /** The loop of `main` over the whole input trace: stop at the first error or undefined step. */
    method RunTrace(lines: seq<string>) returns (outputs: seq<Output>, stop: Stop)
      requires Valid()
      modifies this, tlb, processes
      ensures Valid()
      ensures Trace(Snapshot(), outputs, stop) == Run(old(Snapshot()), lines)
    {
      outputs := [];
      var i := 0;
      while i < |lines|
        invariant Valid() && 0 <= i <= |lines|
        invariant var r := Run(Snapshot(), lines[i..]);
          Trace(r.m, outputs + r.outputs, r.stop) == Run(old(Snapshot()), lines)
      {
        ghost var m := Snapshot();
        assert lines[i..][0] == lines[i] && lines[i..][1..] == lines[i + 1..];
        RunFirstLine(m, lines[i..]);
        var status := ProcessLine(lines[i]);
        match status {
          case Skipped =>
          case Ok(out) =>
            outputs := outputs + [out];
          case Halt(e) =>
            return outputs, Stopped(e);
          case Undefined =>
            return outputs, UndefinedBehaviour;
        }
        i := i + 1;
      }
      stop := EndOfInput;
    }
  }
}
