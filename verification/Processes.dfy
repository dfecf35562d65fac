/**
 * Process nesting: EXEC and EXIT over PID, MAX_PID, CODE_ADDR and the process table, with the CPU
 * context the syscall handler saves on EXEC and restores on EXIT.
 */
module Processes {
  import opened Common
  import opened Memory

  const MAX_PROCS: nat := 4
  const MAX_PROC_SIZE: nat := 10485760      // 10 << 20
  const HEAP_END: nat := 0x4444_4444_0000 + 10485760
  const USER_ADDR: nat := 0x800000
  const EXEC_ERROR: nat := 130
  const MINUS_ONE: nat := 0xFFFF_FFFF_FFFF_FFFF

  datatype StackFrame = StackFrame(rip: nat, cs: nat, rflags: nat, rsp: nat, ss: nat)

  datatype Registers = Registers(
    r11: nat, r10: nat, r9: nat, r8: nat, rdi: nat, rsi: nat, rdx: nat, rcx: nat, rax: nat)

  datatype Process = Process(
    pid: nat, ppid: nat, codeAddr: nat, stackAddr: nat, entryPoint: nat,
    stackFrame: Option<StackFrame>, registers: Registers)

  const NO_REGISTERS: Registers := Registers(0, 0, 0, 0, 0, 0, 0, 0, 0)
  const NEW_PROCESS: Process := Process(0, 0, 0, 0, 0, None, NO_REGISTERS)

  /** The statics; `windows` is history: the base address of every window handed out so far. */
  datatype Kernel = Kernel(pid: nat, maxPid: nat, codeAddr: nat, table: seq<Process>, windows: seq<nat>)

  const BOOTED: Kernel := Kernel(0, 1, HEAP_END, [NEW_PROCESS, NEW_PROCESS, NEW_PROCESS, NEW_PROCESS], [])

  /** A saved CPU context. */
  datatype Context = Context(registers: Registers, frame: StackFrame)

  /** What EXEC finds under the path: nothing readable, or a file whose segments load or do not. */
  datatype Program =
    | Unreadable
    | Binary(bytes: seq<nat>, parses: bool, entry: nat, loads: bool)

  datatype Call =
    | ExecCall(context: Context, program: Program, frameFree: bool, argsFit: bool)
    | ExitCall(context: Context)

  /** Where the CPU goes next. */
  datatype Outcome =
    | Resume(context: Context)       // back to user mode with this context
    | Start(id: nat, rip: nat, rsp: nat)   // into a new process
    | Panicked

  const ELF_MAGIC: seq<nat> := [0x7F, 0x45, 0x4C, 0x46]
  const BIN_MAGIC: seq<nat> := [0x7F, 0x42, 0x49, 0x4E]

  datatype Created = NoProcess | NewProcess(id: nat) | CreatePanic

  /** Process::create. */
  function CreateProcess(k: Kernel, p: Program, frameFree: bool): (Kernel, Created)
    requires p.Binary? && k.pid < |k.table|
  {
    if k.maxPid >= MAX_PROCS then (k, NoProcess)
    else if !frameFree then (k, CreatePanic)
    else
      var code := k.codeAddr;
      var k1 := k.(codeAddr := code + MAX_PROC_SIZE, windows := k.windows + [code]);
      if |p.bytes| < 4 then (k1, CreatePanic)
      else if p.bytes[..4] == ELF_MAGIC then
        if p.parses && !p.loads then (k1, NoProcess) else Install(k1, code, if p.parses then p.entry else 0)
      else if p.bytes[..4] == BIN_MAGIC then
        if !p.loads then (k1, NoProcess) else Install(k1, code, 0)
      else (k1, NoProcess)
  }

  function Install(k: Kernel, code: nat, entry: nat): (Kernel, Created)
    requires k.pid < |k.table|
  {
    var parent, id := k.table[k.pid], k.maxPid;
    if id >= |k.table| then (k.(maxPid := id + 1), CreatePanic)
    else
      var proc := Process(id, parent.pid, code, code + MAX_PROC_SIZE - 4096, entry,
                          parent.stackFrame, parent.registers);
      (k.(maxPid := id + 1, table := k.table[id := proc]), NewProcess(id))
  }

  /** The handler's save on EXEC, into the current process's entry. */
  function Save(k: Kernel, c: Context): Kernel
    requires k.pid < |k.table|
  {
    k.(table := k.table[k.pid := k.table[k.pid].(stackFrame := Some(c.frame), registers := c.registers)])
  }

  function Fail(c: Context, code: nat): Outcome {
    Resume(c.(registers := c.registers.(rax := code)))
  }

  /** syscall_handler for EXEC and EXIT. */
  function Handle(k: Kernel, call: Call): (Kernel, Outcome)
    requires k.pid < |k.table|
  {
    match call
    case ExecCall(c, program, frameFree, argsFit) =>
      var k1 := Save(k, c);
      if program.Unreadable? then (k1, Fail(c, MINUS_ONE))
      else
        (match CreateProcess(k1, program, frameFree)
         case (k2, NoProcess) => (k2, Fail(c, EXEC_ERROR))
         case (k2, CreatePanic) => (k2, Panicked)
         case (k2, NewProcess(id)) =>
           if !argsFit || id >= |k2.table| then (k2, Panicked)
           else
             var proc := k2.table[id];
             (k2.(pid := proc.pid), Start(id, proc.codeAddr + proc.entryPoint, proc.stackAddr)))
    case ExitCall(c) =>
      var k1 := k.(maxPid := if k.maxPid == 0 then MINUS_ONE else k.maxPid - 1, pid := k.table[k.pid].ppid);
      if k1.pid >= |k1.table| || k1.table[k1.pid].stackFrame.None? then (k1, Panicked)
      else (k1, Resume(Context(k1.table[k1.pid].registers, k1.table[k1.pid].stackFrame.value)))
  }

  // ----- the stack it implements

  /** The contexts of the suspended processes, oldest first, and the windows handed out. */
  ghost predicate IsStack(k: Kernel, stack: seq<Context>) {
    && |k.table| == MAX_PROCS
    && k.pid == |stack| < MAX_PROCS && k.maxPid == k.pid + 1
    && k.table[0].pid == 0 && k.table[0].ppid == 0
    && (forall j :: 1 <= j <= k.pid ==> k.table[j].pid == j && k.table[j].ppid == j - 1)
    && (forall j :: 0 <= j < k.pid ==>
          k.table[j].stackFrame == Some(stack[j].frame) && k.table[j].registers == stack[j].registers)
    // windows are consecutive from the end of the kernel heap, and live processes have different ones
    && k.codeAddr == HEAP_END + |k.windows| * MAX_PROC_SIZE
    && (forall i :: 0 <= i < |k.windows| ==> k.windows[i] == HEAP_END + i * MAX_PROC_SIZE)
    && (forall j :: 1 <= j <= k.pid ==> k.table[j].codeAddr in k.windows)
    && (forall i, j :: 1 <= i < j <= k.pid ==> k.table[i].codeAddr < k.table[j].codeAddr)
  }

  lemma BootedIsStack()
    ensures IsStack(BOOTED, [])
  {
  }

  /** The reference machine: EXEC pushes its context or fails and pushes nothing, EXIT pops. */
  predicate Pushes(depth: nat, call: Call) {
    && call.ExecCall? && call.program.Binary? && depth + 1 < MAX_PROCS
    && |call.program.bytes| >= 4
    && var magic := call.program.bytes[..4];
    && (magic == ELF_MAGIC || magic == BIN_MAGIC)
    && (call.program.loads || (magic == ELF_MAGIC && !call.program.parses))
  }

  /** An EXEC that brings the kernel down: no frame, a file of fewer than four bytes, or no room for arguments. */
  predicate Dies(depth: nat, call: Call) {
    && call.ExecCall? && call.program.Binary? && depth + 1 < MAX_PROCS
    && (!call.frameFree || |call.program.bytes| < 4 || (Pushes(depth, call) && !call.argsFit))
  }

  predicate Proper(depth: nat, call: Call) {
    !Dies(depth, call) && (call.ExitCall? ==> depth >= 1)
  }

  function NextStack(stack: seq<Context>, call: Call): seq<Context>
    requires Proper(|stack|, call)
  {
    if call.ExitCall? then stack[..|stack| - 1]
    else if Pushes(|stack|, call) then stack + [call.context]
    else stack
  }

  /**
   * A failed EXEC: -1 in rax for an unreadable file, 130 otherwise; the window is used up if the process
   * table had room; only the caller's saved context is written.
   */
  lemma ExecFails(k: Kernel, stack: seq<Context>, call: Call)
    requires IsStack(k, stack) && call.ExecCall? && Proper(|stack|, call) && !Pushes(|stack|, call)
    ensures var (k', o) := Handle(k, call);
            && IsStack(k', stack) && k'.pid == k.pid && k'.maxPid == k.maxPid
            && o.Resume? && o.context.frame == call.context.frame
            && o.context.registers
               == call.context.registers.(rax := if call.program.Unreadable? then 0xFFFF_FFFF_FFFF_FFFF else 130)
            && k'.windows == (if call.program.Binary? && |stack| < 3 then k.windows + [k.codeAddr] else k.windows)
            && |k'.table| == |k.table|
            && forall j :: 0 <= j < |k.table| ==>
                 k'.table[j] == if j == k.pid
                                then k.table[j].(stackFrame := Some(call.context.frame),
                                                 registers := call.context.registers)
                                else k.table[j]
  {
    var (k', o) := Handle(k, call);
    var k1 := Save(k, call.context);
    assert k'.table == k1.table;
    WindowGrows(k, k');
  }

  lemma WindowGrows(k: Kernel, k': Kernel)
    requires k.codeAddr == HEAP_END + |k.windows| * MAX_PROC_SIZE
    requires forall i :: 0 <= i < |k.windows| ==> k.windows[i] == HEAP_END + i * MAX_PROC_SIZE
    requires (k'.windows == k.windows + [k.codeAddr] && k'.codeAddr == k.codeAddr + MAX_PROC_SIZE)
             || (k'.windows == k.windows && k'.codeAddr == k.codeAddr)
    ensures k'.codeAddr == HEAP_END + |k'.windows| * MAX_PROC_SIZE
    ensures forall i :: 0 <= i < |k'.windows| ==> k'.windows[i] == HEAP_END + i * MAX_PROC_SIZE
    ensures forall w :: w in k.windows ==> w in k'.windows && w < k.codeAddr
  {
  }

  /** Where a program starts in its window: an ELF file that parses says so itself, all others at 0. */
  function EntryOf(p: Program): nat
    requires p.Binary?
  {
    var bs := p.bytes;
    if |bs| >= 4 && bs[0] == 0x7F && bs[1] == 0x45 && bs[2] == 0x4C && bs[3] == 0x46 && p.parses then p.entry else 0
  }

  /** What a successful EXEC does to the statics. */
  lemma ExecEffect(k: Kernel, stack: seq<Context>, call: Call)
    requires IsStack(k, stack) && Proper(|stack|, call) && Pushes(|stack|, call)
    ensures var id, c, entry := k.pid + 1, call.context, EntryOf(call.program);
            var saved := k.table[k.pid].(stackFrame := Some(c.frame), registers := c.registers);
            var child := Process(id, k.pid, k.codeAddr, k.codeAddr + MAX_PROC_SIZE - 4096, entry,
                                 Some(c.frame), c.registers);
            && id < |k.table|
            && Handle(k, call).0 == Kernel(id, id + 1, k.codeAddr + MAX_PROC_SIZE,
                                           k.table[k.pid := saved][id := child], k.windows + [k.codeAddr])
            && Handle(k, call).1 == Start(id, k.codeAddr + entry, k.codeAddr + MAX_PROC_SIZE - 4096)
  {
    assert call.program.bytes[..4] == ELF_MAGIC <==>
           call.program.bytes[0] == 0x7F && call.program.bytes[1] == 0x45 && call.program.bytes[2] == 0x4C
           && call.program.bytes[3] == 0x46;
    assert k.table[k.pid].pid == k.pid;
  }

  lemma ExecSucceeds(k: Kernel, stack: seq<Context>, call: Call)
    requires IsStack(k, stack) && Proper(|stack|, call) && Pushes(|stack|, call)
    ensures var (k', o) := Handle(k, call);
            && IsStack(k', stack + [call.context])
            && o == Start(k.pid + 1, k.codeAddr + EntryOf(call.program), k.codeAddr + MAX_PROC_SIZE - 4096)
            && k'.windows == k.windows + [k.codeAddr]
            && var child := k'.table[k.pid + 1];
            && child.pid == k.pid + 1 && child.ppid == k.pid && child.codeAddr == k.codeAddr
            && child.entryPoint == EntryOf(call.program) && child.stackAddr == k.codeAddr + MAX_PROC_SIZE - 4096
  {
    hide Handle, Proper;
    ExecEffect(k, stack, call);
    var k' := Handle(k, call).0;
    WindowGrows(k, k');
    forall j | 1 <= j <= k.pid ensures k'.table[j].codeAddr == k.table[j].codeAddr < k.codeAddr {
      assert k.table[j].codeAddr in k.windows;
    }
    assert k.codeAddr in k'.windows by {
      assert k'.windows[|k.windows|] == k.codeAddr;
    }
  }

  lemma ExitPops(k: Kernel, stack: seq<Context>, call: Call)
    requires IsStack(k, stack) && call.ExitCall? && |stack| >= 1
    ensures var (k', o) := Handle(k, call);
            IsStack(k', stack[..|stack| - 1]) && o == Resume(stack[|stack| - 1])
  {
  }

  /**
   * Any EXEC, and any EXIT from a process other than the first: the kernel goes down exactly for the
   * EXECs that Dies describes, and otherwise takes the step of the stack.
   */
  lemma HandleRefines(k: Kernel, stack: seq<Context>, call: Call)
    requires IsStack(k, stack) && (call.ExitCall? ==> |stack| >= 1)
    ensures Handle(k, call).1.Panicked? <==> Dies(|stack|, call)
    ensures !Dies(|stack|, call) ==>
              IsStack(Handle(k, call).0, NextStack(stack, call)) && k.windows <= Handle(k, call).0.windows
  {
    if call.ExitCall? {
      ExitPops(k, stack, call);
    } else if Dies(|stack|, call) {
      assert Handle(k, call).1.Panicked?;
    } else if Pushes(|stack|, call) {
      ExecSucceeds(k, stack, call);
    } else {
      ExecFails(k, stack, call);
    }
  }

  predicate ProperRun(stack: seq<Context>, calls: seq<Call>)
    decreases |calls|
  {
    calls == [] || (Proper(|stack|, calls[0]) && ProperRun(NextStack(stack, calls[0]), calls[1..]))
  }

  function StackAfter(stack: seq<Context>, calls: seq<Call>): seq<Context>
    requires ProperRun(stack, calls)
    decreases |calls|
  {
    if calls == [] then stack else StackAfter(NextStack(stack, calls[0]), calls[1..])
  }

  ghost function KernelAfter(k: Kernel, stack: seq<Context>, calls: seq<Call>): Kernel
    requires IsStack(k, stack) && ProperRun(stack, calls)
    decreases |calls|
  {
    if calls == [] then k
    else
      HandleRefines(k, stack, calls[0]);
      KernelAfter(Handle(k, calls[0]).0, NextStack(stack, calls[0]), calls[1..])
  }

  /** Every run of EXEC and EXIT keeps the stack discipline. */
  lemma {:induction false} RunRefines(k: Kernel, stack: seq<Context>, calls: seq<Call>)
    requires IsStack(k, stack) && ProperRun(stack, calls)
    ensures IsStack(KernelAfter(k, stack, calls), StackAfter(stack, calls))
    ensures k.windows <= KernelAfter(k, stack, calls).windows
    decreases |calls|
  {
    hide Handle;
    if calls != [] {
      HandleRefines(k, stack, calls[0]);
      RunRefines(Handle(k, calls[0]).0, NextStack(stack, calls[0]), calls[1..]);
    }
  }

  /** So from boot on: PID is MAX_PID - 1, entry k has pid k and parent k - 1, and no two windows meet. */
  lemma FromBoot(calls: seq<Call>)
    requires ProperRun([], calls)
    ensures IsStack(BOOTED, [])
    ensures var k := KernelAfter(BOOTED, [], calls);
            && IsStack(k, StackAfter([], calls))
            && k.pid + 1 == k.maxPid <= 4 == |k.table|
            && (forall j :: 1 <= j <= k.pid ==> k.table[j].pid == j && k.table[j].ppid == j - 1)
            && (forall i :: 0 <= i < |k.windows| ==> k.windows[i] == 0x4444_44E4_0000 + i * 0xA0_0000)
            && (forall i, j :: 0 <= i < j < |k.windows| ==>
                  HEAP_END <= k.windows[i] && k.windows[i] + MAX_PROC_SIZE <= k.windows[j])
  {
    hide Handle, NextStack, Proper;
    BootedIsStack();
    RunRefines(BOOTED, [], calls);
    var k := KernelAfter(BOOTED, [], calls);
    forall i, j | 0 <= i < j < |k.windows|
      ensures HEAP_END <= k.windows[i] && k.windows[i] + MAX_PROC_SIZE <= k.windows[j]
    {
      WindowsDisjoint(k, StackAfter([], calls), i, j);
    }
  }

  /** A run that never returns below the depth it started at. */
  predicate StaysAbove(depth: nat, stack: seq<Context>, calls: seq<Call>)
    requires ProperRun(stack, calls)
    decreases |calls|
  {
    |stack| >= depth && (calls == [] || StaysAbove(depth, NextStack(stack, calls[0]), calls[1..]))
  }

  lemma {:induction false} BottomKept(depth: nat, stack: seq<Context>, calls: seq<Call>)
    requires ProperRun(stack, calls) && StaysAbove(depth, stack, calls)
    ensures |StackAfter(stack, calls)| >= depth && |stack| >= depth
    ensures StackAfter(stack, calls)[..depth] == stack[..depth]
    decreases |calls|
  {
    if calls != [] {
      BottomKept(depth, NextStack(stack, calls[0]), calls[1..]);
    }
  }

  /**
   * However deep the nesting in between, the EXIT that ends a child resumes its parent with exactly
   * the registers and stack frame saved at the EXEC that created the child.
   */
  lemma ExitRestoresParent(k: Kernel, stack: seq<Context>, exec: Call, inner: seq<Call>, exit: Call)
    requires IsStack(k, stack) && Proper(|stack|, exec) && Pushes(|stack|, exec) && exit.ExitCall?
    requires ProperRun(stack + [exec.context], inner)
    requires StaysAbove(|stack| + 1, stack + [exec.context], inner)
    requires |StackAfter(stack + [exec.context], inner)| == |stack| + 1
    ensures IsStack(Handle(k, exec).0, stack + [exec.context])
    ensures var k' := KernelAfter(Handle(k, exec).0, stack + [exec.context], inner);
            && k'.pid < |k'.table|
            && Handle(k', exit).1 == Resume(exec.context)
            && Handle(k', exit).0.pid == k.pid
  {
    hide Handle, NextStack, Pushes, Proper;
    ExecSucceeds(k, stack, exec);
    var k1, s1 := Handle(k, exec).0, stack + [exec.context];
    RunRefines(k1, s1, inner);
    BottomKept(|stack| + 1, s1, inner);
    var s2 := StackAfter(s1, inner);
    assert s2[..|stack| + 1] == s2 && s1[..|stack| + 1] == s1;
    ExitPops(KernelAfter(k1, s1, inner), s2, exit);
  }

  /**
   * EXIT keeps PID = MAX_PID - 1 exactly when some process other than the first is running; from the
   * first, MAX_PID drops to 0 and it resumes its own last EXEC, or the kernel goes down if there was none.
   */
  lemma ExitFromFirstIff(k: Kernel, stack: seq<Context>, call: Call)
    requires IsStack(k, stack) && call.ExitCall?
    ensures Handle(k, call).0.pid + 1 == Handle(k, call).0.maxPid <==> k.pid >= 1
    ensures k.pid == 0 ==>
              && Handle(k, call).0 == k.(maxPid := 0)
              && Handle(k, call).1
                 == match k.table[0].stackFrame
                    case None => Panicked
                    case Some(frame) => Resume(Context(k.table[0].registers, frame))
  {
    if k.pid >= 1 {
      ExitPops(k, stack, call);
    }
  }

  // ----- address windows

  /** Windows handed out on any run, failed creations included, are disjoint and above the kernel heap. */
  lemma WindowsDisjoint(k: Kernel, stack: seq<Context>, i: nat, j: nat)
    requires IsStack(k, stack) && i < j < |k.windows|
    ensures HEAP_END <= k.windows[i] && k.windows[i] + MAX_PROC_SIZE <= k.windows[j]
    ensures k.windows[j] + MAX_PROC_SIZE <= k.codeAddr
  {
    assert k.windows[i] == HEAP_END + i * MAX_PROC_SIZE && k.windows[j] == HEAP_END + j * MAX_PROC_SIZE;
  }

  /** Where exec puts the arguments, the heap and the stack of a process. */
  datatype Layout = Layout(args: nat, heap: nat, heapSize: nat, stack: nat)

  function LayoutOf(p: Process): Layout
    requires p.codeAddr <= p.stackAddr && p.codeAddr + (p.stackAddr - p.codeAddr) / 2 + 4096 <= p.stackAddr
  {
    var args := p.codeAddr + (p.stackAddr - p.codeAddr) / 2;
    var heap := args + 4096;
    Layout(args, heap, (p.stackAddr - heap) / 2, p.stackAddr)
  }

  /**
   * Inside a window: the page that holds the arguments lies below the heap, the heap below the stack
   * base, and the stack base is the start of the window's last page.
   */
  lemma LayoutOrdered(p: Process)
    requires p.codeAddr % 4096 == 0 && p.stackAddr == p.codeAddr + MAX_PROC_SIZE - 4096
    ensures var l := LayoutOf(p);
            && p.codeAddr < l.args / 4096 * 4096
            && EndPage(l.args, 1) * 4096 <= l.heap
            && l.heap + l.heapSize < l.stack
            && l.args == p.codeAddr + 5240832 && l.heap == l.args + 4096 && l.heapSize == 2618368
            && l.stack + 4096 == p.codeAddr + MAX_PROC_SIZE
  {
  }

  /** Process::free_pages: the window, then the fixed user range if its first page is a user page. */
  function FreeProcess(pages: map<nat, nat>, user: set<nat>, code: nat): map<nat, nat> {
    var left := RemoveRange(pages, FirstPage(code), EndPage(code, MAX_PROC_SIZE));
    if FirstPage(USER_ADDR) in left && FirstPage(USER_ADDR) in user
    then RemoveRange(left, FirstPage(USER_ADDR), EndPage(USER_ADDR, MAX_PROC_SIZE))
    else left
  }

  /** The mapping that process::exit leaves: what Process::free_pages of the exiting process does to it. */
  function PagesAfterExit(k: Kernel, pages: map<nat, nat>, user: set<nat>): map<nat, nat>
    requires k.pid < |k.table|
  {
    FreeProcess(pages, user, k.table[k.pid].codeAddr)
  }

  /**
   * EXIT from any process but the first: no page of the exiting process's window is mapped any more, and
   * in every other window handed out so far, those of its ancestors included, every mapping is as before.
   */
  lemma ExitUnmapsWindow(k: Kernel, stack: seq<Context>, call: Call, pages: map<nat, nat>, user: set<nat>)
    requires IsStack(k, stack) && call.ExitCall? && k.pid >= 1
    ensures var code, left := k.table[k.pid].codeAddr, PagesAfterExit(k, pages, user);
            && code in k.windows
            && (forall addr: nat :: code <= addr < code + MAX_PROC_SIZE ==> FirstPage(addr) !in left)
            && (forall w, addr: nat :: w in k.windows && w != code && w <= addr < w + MAX_PROC_SIZE ==>
                  SameMapping(pages, left, FirstPage(addr)))
    ensures var k' := Handle(k, call).0;
            && k'.windows == k.windows
            && forall j :: 1 <= j <= k'.pid ==>
                 k'.table[j].codeAddr in k.windows && k'.table[j].codeAddr != k.table[k.pid].codeAddr
  {
    ExitPops(k, stack, call);
    var i :| 0 <= i < |k.windows| && k.windows[i] == k.table[k.pid].codeAddr;
    forall w, addr: nat | w in k.windows && w != k.windows[i] && w <= addr < w + MAX_PROC_SIZE
      ensures SameMapping(pages, PagesAfterExit(k, pages, user), FirstPage(addr))
    {
      var j :| 0 <= j < |k.windows| && k.windows[j] == w;
      OtherWindowKept(k, stack, i, j, pages, user, addr);
    }
    WindowPages(k, stack, i);
  }

  /**
   * The fixed user range goes as well exactly when its first page is left, mapped and user-accessible;
   * no page outside that range and the window is touched.
   */
  lemma ExitFreesUserRange(k: Kernel, stack: seq<Context>, call: Call, pages: map<nat, nat>, user: set<nat>)
    requires IsStack(k, stack) && call.ExitCall? && k.pid >= 1
    ensures var code, left := k.table[k.pid].codeAddr, PagesAfterExit(k, pages, user);
            && (forall p: nat :: Overlaps(0x80_0000, 0xA0_0000, p) ==>
                  if 0x800 in pages && 0x800 in user then p !in left
                  else SameMapping(pages, left, p))
            && (forall p: nat :: !Overlaps(0x80_0000, 0xA0_0000, p) && !Overlaps(code, 0xA0_0000, p) ==>
                  SameMapping(pages, left, p))
  {
    var code := k.table[k.pid].codeAddr;
    var i :| 0 <= i < |k.windows| && k.windows[i] == code;
    WindowPages(k, stack, i);
    forall p: nat
      ensures FirstPage(USER_ADDR) <= p < EndPage(USER_ADDR, MAX_PROC_SIZE) <==> Overlaps(USER_ADDR, MAX_PROC_SIZE, p)
      ensures FirstPage(code) <= p < EndPage(code, MAX_PROC_SIZE) <==> Overlaps(code, MAX_PROC_SIZE, p)
    {
      PagesOverlap(USER_ADDR, MAX_PROC_SIZE, p);
      PagesOverlap(code, MAX_PROC_SIZE, p);
    }
  }

  predicate SameMapping(pages: map<nat, nat>, left: map<nat, nat>, p: nat) {
    (p in left <==> p in pages) && (p in pages ==> left[p] == pages[p])
  }

  lemma OtherWindowKept(k: Kernel, stack: seq<Context>, i: nat, j: nat, pages: map<nat, nat>, user: set<nat>, addr: nat)
    requires IsStack(k, stack) && i < |k.windows| && j < |k.windows| && i != j
    requires k.windows[j] <= addr < k.windows[j] + MAX_PROC_SIZE
    ensures SameMapping(pages, FreeProcess(pages, user, k.windows[i]), FirstPage(addr))
  {
    WindowPages(k, stack, i);
    WindowPages(k, stack, j);
    if i < j {
      WindowsDisjoint(k, stack, i, j);
    } else {
      WindowsDisjoint(k, stack, j, i);
    }
    var w := k.windows[i];
    assert !(FirstPage(w) <= FirstPage(addr) < EndPage(w, MAX_PROC_SIZE));
    assert FirstPage(addr) >= EndPage(USER_ADDR, MAX_PROC_SIZE);
  }

  /** A window is 2560 whole pages. */
  lemma WindowPages(k: Kernel, stack: seq<Context>, i: nat)
    requires IsStack(k, stack) && i < |k.windows|
    ensures k.windows[i] % 4096 == 0 && k.windows[i] >= HEAP_END
    ensures EndPage(k.windows[i], MAX_PROC_SIZE) == FirstPage(k.windows[i]) + 2560
  {
    var w := k.windows[i];
    assert w == HEAP_END + i * MAX_PROC_SIZE;
    assert w == 4096 * (HEAP_END / 4096 + i * 2560);
  }

  // ----- the statics, updated in place

  class ProcessTable {
    var pid: nat
    var maxPid: nat
    var codeAddr: nat
    var table: seq<Process>
    ghost var windows: seq<nat>
    ghost var stack: seq<Context>

    ghost function View(): Kernel
      reads this
    {
      Kernel(pid, maxPid, codeAddr, table, windows)
    }

    ghost predicate Valid()
      reads this
    {
      IsStack(View(), stack)
    }

    constructor ()
      ensures Valid() && View() == BOOTED && stack == []
    {
      pid, maxPid, codeAddr := 0, 1, HEAP_END;
      table := [NEW_PROCESS, NEW_PROCESS, NEW_PROCESS, NEW_PROCESS];
      windows, stack := [], [];
    }

    method Create(program: Program, frameFree: bool) returns (r: Created)
      requires program.Binary? && pid < |table|
      modifies this
      ensures (View(), r) == CreateProcess(old(View()), program, frameFree)
      ensures stack == old(stack)
    {
      if maxPid >= MAX_PROCS {
        return NoProcess;
      }
      if !frameFree {
        return CreatePanic;
      }
      var code := codeAddr;
      codeAddr := codeAddr + MAX_PROC_SIZE;
      windows := windows + [code];
      var stackAddr, entry := code + MAX_PROC_SIZE - 4096, 0;
      if |program.bytes| < 4 {
        return CreatePanic;
      }
      if program.bytes[..4] == ELF_MAGIC {
        if program.parses {
          entry := program.entry;
          if !program.loads {
            return NoProcess;
          }
        }
      } else if program.bytes[..4] == BIN_MAGIC {
        if !program.loads {
          return NoProcess;
        }
      } else {
        return NoProcess;
      }
      var parent := table[pid];
      var id := maxPid;
      maxPid := maxPid + 1;
      if id >= |table| {
        return CreatePanic;
      }
      table := table[id := Process(id, parent.pid, code, stackAddr, entry, parent.stackFrame, parent.registers)];
      return NewProcess(id);
    }

    /** process::exit; the mapper is that of the exiting process, `user` its user-accessible pages. */
    method Exit(mapper: Mapper, user: set<nat>)
      requires pid < |table|
      modifies this, mapper
      ensures mapper.pages == PagesAfterExit(old(View()), old(mapper.pages), user)
      ensures View() == old(View()).(maxPid := if old(maxPid) == 0 then MINUS_ONE else old(maxPid) - 1,
                                     pid := old(table)[old(pid)].ppid)
      ensures stack == old(stack)
    {
      var proc := table[pid];
      maxPid := if maxPid == 0 then MINUS_ONE else maxPid - 1;
      pid := proc.ppid;
      mapper.FreePages(proc.codeAddr, MAX_PROC_SIZE);
      if FirstPage(USER_ADDR) in mapper.pages && FirstPage(USER_ADDR) in user {
        mapper.FreePages(USER_ADDR, MAX_PROC_SIZE);
      }
    }

    /** The EXEC half of the handler: save, create, switch. */
    method ExecSyscall(call: Call) returns (o: Outcome)
      requires call.ExecCall? && pid < |table|
      modifies this
      ensures (View(), o) == Handle(old(View()), call) && stack == old(stack)
    {
      var ExecCall(c, program, frameFree, argsFit) := call;
      table := table[pid := table[pid].(stackFrame := Some(c.frame), registers := c.registers)];
      if program.Unreadable? {
        return Fail(c, MINUS_ONE);
      }
      var created := Create(program, frameFree);
      if created.NoProcess? {
        return Fail(c, EXEC_ERROR);
      }
      if created.CreatePanic? || !argsFit || created.id >= |table| {
        return Panicked;
      }
      var proc := table[created.id];
      pid := proc.pid;
      return Start(created.id, proc.codeAddr + proc.entryPoint, proc.stackAddr);
    }

    /** The EXIT half: switch to the parent and hand its saved context back. */
    method ExitSyscall(call: Call, mapper: Mapper, user: set<nat>) returns (o: Outcome)
      requires call.ExitCall? && pid < |table|
      modifies this, mapper
      ensures (View(), o) == Handle(old(View()), call) && stack == old(stack)
      ensures mapper.pages == PagesAfterExit(old(View()), old(mapper.pages), user)
    {
      Exit(mapper, user);
      if pid >= |table| || table[pid].stackFrame.None? {
        return Panicked;
      }
      return Resume(Context(table[pid].registers, table[pid].stackFrame.value));
    }

    /** syscall_handler, for the two calls that move between processes. */
    method Syscall(call: Call, mapper: Mapper, user: set<nat>) returns (o: Outcome)
      requires Valid() && (call.ExitCall? ==> |stack| >= 1)
      modifies this, mapper
      ensures (View(), o) == Handle(old(View()), call)
      ensures o.Panicked? <==> Dies(|old(stack)|, call)
      ensures !o.Panicked? ==> Valid() && stack == NextStack(old(stack), call)
      ensures call.ExitCall? ==> mapper.pages == PagesAfterExit(old(View()), old(mapper.pages), user)
    {
      hide Handle;
      HandleRefines(View(), stack, call);
      ghost var next := if Dies(|stack|, call) then stack else NextStack(stack, call);
      if call.ExecCall? {
        o := ExecSyscall(call);
      } else {
        o := ExitSyscall(call, mapper, user);
      }
      stack := next;
    }
  }
}
