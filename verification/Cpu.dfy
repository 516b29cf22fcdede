/** Running code: one step of the machine, with the kernel behind `syscall` and the compiled hook entry point
    behind its own address. */
module Cpu {
  import opened Bytes
  import opened Dispatch
  import opened Machine
  import HookApi

  // ---------------------------------------------------------------------
  // The kernel and the code that is not modelled byte by byte
  // ---------------------------------------------------------------------

  type KState = int

  /** The kernel's next state, its result, and the user memory it writes. */
  datatype KResult = KResult(next: KState, ret: u64, writes: map<int, byte>)

  /** What compiled code may leave behind in the places its calling convention lets it use freely. */
  datatype Junk = Junk(regs: RegFile, zf: bool, mem: map<int, byte>)

  /** `kreads` names the user memory a system call reads; `kcall` may depend on the kernel's state, the registers
      and that memory. The entry point uses at most `hookStack` bytes of stack. */
  datatype Env = Env(
    hookAddr: u64,
    hookStack: nat,
    kreads: (KState, SyscallRegs) -> set<int>,
    kcall: (KState, SyscallRegs, map<int, byte>) -> KResult,
    junk: (KState, nat) -> Junk)

  /** A system call as the kernel sees it: the view of the registers, the user memory read, the result. */
  datatype Event = Event(call: View, seen: map<int, byte>, ret: u64)

  datatype Cpu = Cpu(
    regs: RegFile,
    rip: int,
    zf: bool,
    mem: Mem,
    k: KState,
    trace: seq<Event>,
    hook: HookApi.State)

  function Seen(m: Mem, addrs: set<int>): map<int, byte> {
    map a | a in addrs :: Rd(m, a)
  }

  /** System call registers of a register file. */
  function Block(f: RegFile): SyscallRegs {
    SyscallRegs(f[RAX], f[RDI], f[RSI], f[RDX], f[R10], f[R8], f[R9])
  }

  /** The register block in memory, fields in declaration order. */
  function BlockAt(m: Mem, a: int): SyscallRegs {
    SyscallRegs(Read64(m, a), Read64(m, a + 8), Read64(m, a + 16), Read64(m, a + 24),
                Read64(m, a + 32), Read64(m, a + 40), Read64(m, a + 48))
  }

  function FlagsImage(zf: bool): u64 {
    if zf then 0x246 else 0x206
  }

  function KernelReply(env: Env, s: Cpu, r: SyscallRegs): KResult {
    env.kcall(s.k, r, Seen(s.mem, env.kreads(s.k, r)))
  }

  /** A kernel entry with register block `r`: kernel state, user memory and trace; registers untouched. */
  function KernelEntry(env: Env, s: Cpu, r: SyscallRegs): Cpu {
    var o := KernelReply(env, s, r);
    s.(mem := s.mem + o.writes,
       k := o.next,
       trace := s.trace + [Event(KernelView(r), Seen(s.mem, env.kreads(s.k, r)), o.ret)])
  }

  // ---------------------------------------------------------------------
  // One step
  // ---------------------------------------------------------------------

  /** The register file with `r` set to `v`. */
  function Set(f: RegFile, r: Reg, v: u64): (g: RegFile)
    ensures forall q: Reg :: g[q] == if q == r then v else f[q]
  {
    f[r := v]
  }

  predicate Accessible(a: int) {
    0 <= a && a + 8 <= TWO64
  }

  function Operand(s: Cpu, base: Reg, disp: byte): u64 {
    Wrap64(s.regs[base] + SignExt8(disp))
  }

  /** `None` is a fault: an undefined instruction or an access outside the address space. */
  function Exec(env: Env, d: Decoded, s: Cpu): Option<Cpu> {
    var next := s.rip + d.len;
    var sp: int := s.regs[RSP];
    if !(0 <= s.rip && next < TWO64) then None else
    match d.instr
    case Nop => Some(s.(rip := next))
    case Push(r) =>
      if sp < 8 then None
      else Some(s.(rip := next, mem := Write64(s.mem, sp - 8, s.regs[r]), regs := Set(s.regs, RSP, sp - 8)))
    case Pop(r) =>
      if !Accessible(sp) then None
      else Some(s.(rip := next, regs := Set(Set(s.regs, RSP, Wrap64(sp + 8)), r, Read64(s.mem, sp))))
    case Ret =>
      if !Accessible(sp) then None
      else Some(s.(rip := Read64(s.mem, sp), regs := Set(s.regs, RSP, Wrap64(sp + 8))))
    case CallReg(r) =>
      if sp < 8 then None
      else Some(s.(rip := s.regs[r], mem := Write64(s.mem, sp - 8, next), regs := Set(s.regs, RSP, sp - 8)))
    case JmpReg(r) => Some(s.(rip := s.regs[r]))
    case Jmp(rel) => Some(s.(rip := Wrap64(next + SignExt8(rel))))
    case Jz(rel) => Some(s.(rip := if s.zf then Wrap64(next + SignExt8(rel)) else next))
    case AddImm(r, imm) =>
      var v := Wrap64(s.regs[r] + SignExt8(imm));
      Some(s.(rip := next, regs := Set(s.regs, r, v), zf := v == 0))
    case SubImm(r, imm) =>
      var v := Wrap64(s.regs[r] - SignExt8(imm));
      Some(s.(rip := next, regs := Set(s.regs, r, v), zf := v == 0))
    case Lea(r, base, disp) => Some(s.(rip := next, regs := Set(s.regs, r, Operand(s, base, disp))))
    case MovReg(r, src) => Some(s.(rip := next, regs := Set(s.regs, r, s.regs[src])))
    case MovImm(r, imm) => Some(s.(rip := next, regs := Set(s.regs, r, imm)))
    case Load(r, base, disp) =>
      if !Accessible(Operand(s, base, disp)) then None
      else Some(s.(rip := next, regs := Set(s.regs, r, Read64(s.mem, Operand(s, base, disp)))))
    case Store(base, disp, src) =>
      if !Accessible(Operand(s, base, disp)) then None
      else Some(s.(rip := next, mem := Write64(s.mem, Operand(s, base, disp), s.regs[src])))
    case Syscall =>
      // rcx receives the return address and r11 the flags
      var ret := KernelReply(env, s, Block(s.regs)).ret;
      Some(KernelEntry(env, s, Block(s.regs)).(
             rip := next,
             regs := Set(Set(Set(s.regs, RAX, ret), RCX, next), R11, FlagsImage(s.zf))))
    case Sysenter => None
    case Bad => None
  }

  predicate CallerSaved(r: Reg) {
    r in {RAX, RCX, RDX, RSI, RDI, R8, R9, R10, R11}
  }

  /** Registers after a compiled function returned `ret` to a caller whose stack pointer becomes `sp`. */
  function RegsAfterCall(f: RegFile, junk: RegFile, ret: u64, sp: u64): (g: RegFile)
    ensures g[RAX] == ret && g[RSP] == sp
    ensures forall r: Reg :: !CallerSaved(r) && r != RSP ==> g[r] == f[r]
  {
    seq<u64>(16, r requires 0 <= r < 16 =>
      if r == RAX then ret else if r == RSP then sp else if CallerSaved(r) then junk[r] else f[r])
  }

  /** Stack bytes below `hi` that the entry point may have used. */
  function Scribble(m: Mem, junk: map<int, byte>, lo: int, hi: int): (r: Mem)
    ensures forall a {:trigger Rd(r, a)} :: !(lo <= a < hi) ==> Rd(r, a) == Rd(m, a)
  {
    m + map a | a in junk && lo <= a < hi :: junk[a]
  }

  /** The compiled `hook_entry(regs)`: the argument is in rdi, the decision what to ask of the kernel is the
      hook library's, and the rest follows the C calling convention. A call that never returns stops the machine. */
  function HookCall(env: Env, s: Cpu): Option<Cpu> {
    var sp: int := s.regs[RSP];
    var r := BlockAt(s.mem, s.regs[RDI]);
    var plan := HookApi.Decide(s.hook, r);
    var o := KernelReply(env, s, plan.issued);
    var reply := HookApi.Answer(plan, o.ret);
    var junk := env.junk(s.k, |s.trace|);
    if reply.NoReturn? || !Accessible(sp) then None
    else
      var m := Scribble(s.mem + o.writes, junk.mem, sp - env.hookStack, sp);
      Some(KernelEntry(env, s, plan.issued).(
             rip := Read64(m, sp),
             zf := junk.zf,
             mem := m,
             regs := RegsAfterCall(s.regs, junk.regs, reply.value, Wrap64(sp + 8)),
             hook := HookApi.After(s.hook, r)))
  }

  function Fetch(s: Cpu): Decoded {
    Decode(ReadN(s.mem, s.rip, 15))
  }

  function Step(env: Env, s: Cpu): Option<Cpu> {
    if s.rip == env.hookAddr then HookCall(env, s) else Exec(env, Fetch(s), s)
  }

  function Run(env: Env, n: nat, s: Cpu): Option<Cpu>
    decreases n
  {
    if n == 0 then Some(s)
    else match Step(env, s)
         case Some(t) => Run(env, n - 1, t)
         case None => None
  }

  lemma {:induction false} RunAppend(env: Env, m: nat, n: nat, s: Cpu, t: Cpu)
    requires Run(env, m, s) == Some(t)
    ensures Run(env, m + n, s) == Run(env, n, t)
    decreases m
  {
    hide Step;
    if m > 0 {
      RunAppend(env, m - 1, n, Step(env, s).value, t);
    }
  }

  /** The entry point is counted, and nothing else touches the hook library's state. */
  lemma HookOnlyAtEntry(env: Env, s: Cpu)
    requires Step(env, s).Some?
    ensures var t := Step(env, s).value;
            if s.rip == env.hookAddr then t.hook.entries == s.hook.entries + 1 else t.hook == s.hook
  {
    hide Decode, DecodeOp;
  }

  lemma StepTraceGrows(env: Env, s: Cpu)
    requires Step(env, s).Some?
    ensures s.trace <= Step(env, s).value.trace
  {
    hide Decode, DecodeOp;
  }

  /** Kernel calls are only ever appended. */
  lemma {:induction false} TraceGrows(env: Env, n: nat, s: Cpu)
    requires Run(env, n, s).Some?
    ensures s.trace <= Run(env, n, s).value.trace
    decreases n
  {
    hide Step;
    if n > 0 {
      StepTraceGrows(env, s);
      TraceGrows(env, n - 1, Step(env, s).value);
    }
  }

  // ---------------------------------------------------------------------
  // Code in memory
  // ---------------------------------------------------------------------

  /** An encoded instruction at the instruction pointer is the one that executes. */
  lemma StepEncoded(env: Env, s: Cpu, i: Instr)
    requires i != Bad && s.rip != env.hookAddr
    requires BytesAt(s.mem, s.rip, Encode(i))
    ensures Step(env, s) == Exec(env, Decoded(i, |Encode(i)|), s)
  {
    hide Exec, DecodeOp;
    var w := ReadN(s.mem, s.rip, 15);
    var n := |Encode(i)|;
    assert w[..n] == Encode(i) by {
      assert ReadN(s.mem, s.rip, n) == Encode(i);
    }
    assert w == Encode(i) + w[n..];
    DecodeEncode(i, w[n..]);
  }

  lemma BytesAtSplit(m: Mem, a: int, x: seq<byte>, y: seq<byte>)
    requires BytesAt(m, a, x + y)
    ensures BytesAt(m, a, x) && BytesAt(m, a + |x|, y)
  {
    var z := ReadN(m, a, |x + y|);
    assert z == x + y;
    assert forall i :: 0 <= i < |x| ==> x[i] == z[i] == Rd(m, a + i);
    assert forall i :: 0 <= i < |y| ==> y[i] == z[|x| + i] == Rd(m, a + (|x| + i));
    assert ReadN(m, a, |x|) == x;
    assert ReadN(m, a + |x|, |y|) == y;
  }

  lemma BytesAtSame(m: Mem, n: Mem, a: int, b: seq<byte>)
    requires BytesAt(m, a, b)
    requires forall x :: a <= x < a + |b| ==> Rd(m, x) == Rd(n, x)
    ensures BytesAt(n, a, b)
  {
    assert ReadN(n, a, |b|) == ReadN(m, a, |b|);
  }

  lemma AssembleFirst(p: seq<Instr>)
    requires p != [] && Bad !in p
    ensures Bad !in p[1..] && Assemble(p) == Encode(p[0]) + Assemble(p[1..])
  {
    hide Encode;
  }

  lemma {:induction false} AssembleAppend(p: seq<Instr>, q: seq<Instr>)
    requires Bad !in p && Bad !in q
    ensures Bad !in p + q && Assemble(p + q) == Assemble(p) + Assemble(q)
  {
    hide Encode;
    if p == [] {
      assert p + q == q;
    } else {
      DropFirst(p, q);
      AssembleFirst(p);
      AssembleFirst(p + q);
      hide Assemble;
      AssembleAppend(p[1..], q);
      Assoc(Encode(p[0]), Assemble(p[1..]), Assemble(q));
    }
  }
}
