/** Every safe run of a program is matched by a run of the rewritten program: the same kernel calls with the same
    data and results, and the same state apart from what a system call may clobber. */
module Simulation {
  import opened Bytes
  import opened Dispatch
  import opened Machine
  import opened Cpu
  import opened Trampoline
  import opened Stub
  import HookApi

  // ---------------------------------------------------------------------
  // Instructions: what they read and write
  // ---------------------------------------------------------------------

  function RegReads(i: Instr): set<Reg> {
    match i
    case Push(r) => {r, RSP}
    case Pop(_) => {RSP}
    case Ret => {RSP}
    case CallReg(r) => {r, RSP}
    case JmpReg(r) => {r}
    case AddImm(r, _) => {r}
    case SubImm(r, _) => {r}
    case Lea(_, base, _) => {base}
    case MovReg(_, src) => {src}
    case Load(_, base, _) => {base}
    case Store(base, _, src) => {base, src}
    case _ => {}
  }

  function RegWrites(i: Instr): set<Reg> {
    match i
    case Push(_) => {RSP}
    case Pop(r) => {RSP, r}
    case Ret => {RSP}
    case CallReg(_) => {RSP}
    case AddImm(r, _) => {r}
    case SubImm(r, _) => {r}
    case Lea(r, _, _) => {r}
    case MovReg(r, _) => {r}
    case MovImm(r, _) => {r}
    case Load(r, _, _) => {r}
    case _ => {}
  }

  /** The address of the memory word an instruction reads. */
  function WordRead(i: Instr, s: Cpu): Option<int> {
    match i
    case Pop(_) => Some(s.regs[RSP])
    case Ret => Some(s.regs[RSP])
    case Load(_, base, disp) => Some(Operand(s, base, disp))
    case _ => None
  }

  /** The address of the memory word an instruction writes. */
  function WordWritten(i: Instr, s: Cpu): Option<int> {
    match i
    case Push(_) => Some(s.regs[RSP] as int - 8)
    case CallReg(_) => Some(s.regs[RSP] as int - 8)
    case Store(base, disp, _) => Some(Operand(s, base, disp))
    case _ => None
  }

  function Zone(lo: int, hi: int): (z: set<int>)
    ensures forall a {:trigger a in z} :: a in z <==> lo <= a < hi
    decreases hi - lo
  {
    if lo >= hi then {} else {lo} + Zone(lo + 1, hi)
  }

  // ---------------------------------------------------------------------
  // Related states
  // ---------------------------------------------------------------------

  /** What may differ between the original and the rewritten program: registers, the flag, memory. */
  datatype Taint = Taint(regs: set<Reg>, zf: bool, mem: set<int>)

  const CLEAN: Taint := Taint({}, false, {})

  predicate Patched(sites: set<int>, a: int) {
    a in sites || a - 1 in sites
  }

  /** The byte of the rewritten program where the original has memory `m`. */
  function ByteOf(sites: set<int>, m: Mem, a: int): byte {
    if a in sites then 0xff else if a - 1 in sites then 0xd0 else Rd(m, a)
  }

  /** Sites are separate two-byte system call instructions above the trampoline. */
  ghost predicate SitesOk(sites: set<int>, m: Mem) {
    forall p :: p in sites ==> p >= LOW_END && Rd(m, p) == 0x0f && Rd(m, p + 1) in {0x05, 0x34} && p + 1 !in sites
  }

  ghost predicate MemRelated(sites: set<int>, dirty: set<int>, m: Mem, n: Mem) {
    && SitesOk(sites, m)
    && (forall a {:trigger Rd(n, a)} :: a >= LOW_END && a !in dirty ==> Rd(n, a) == ByteOf(sites, m, a))
    && (forall a :: a in dirty ==> a >= LOW_END && !Patched(sites, a))
  }

  ghost predicate RegsRelated(d: Taint, f: RegFile, g: RegFile) {
    && d.regs <= {RCX, R11}
    && forall r: Reg :: r !in d.regs ==> f[r] == g[r]
  }

  ghost predicate Related(env: Env, sites: set<int>, mode: HookApi.HookPtr, d: Taint, s: Cpu, t: Cpu) {
    && Loaded(env, t.mem)
    && s.rip == t.rip && s.k == t.k && s.trace == t.trace
    && RegsRelated(d, s.regs, t.regs)
    && (!d.zf ==> s.zf == t.zf)
    && MemRelated(sites, d.mem, s.mem, t.mem)
    && Ready(mode, t.hook)
  }

  /** The hook library between two calls of a thread. */
  predicate Ready(mode: HookApi.HookPtr, h: HookApi.State) {
    !h.inHook && !h.locked && h.hook == mode && (mode == HookApi.TraitHook ==> h.registered)
  }

  // ---------------------------------------------------------------------
  // Safe steps of the original program
  // ---------------------------------------------------------------------

  /** A word the program may read: above the low addresses, not dirty, not patched code. */
  ghost predicate CleanWord(sites: set<int>, d: Taint, a: int) {
    forall x :: a <= x < a + 8 ==> x >= LOW_END && x !in d.mem && !Patched(sites, x)
  }

  /** A word the program may write. */
  ghost predicate FreeWord(sites: set<int>, a: int) {
    forall x :: a <= x < a + 8 ==> x >= LOW_END && !Patched(sites, x)
  }

  /** The bytes of the instruction are clean, and it is a whole patched system call or touches none. */
  ghost predicate SafeFetch(env: Env, sites: set<int>, d: Taint, s: Cpu) {
    var f := Fetch(s);
    && s.rip != env.hookAddr && s.rip >= LOW_END && f.instr != Bad
    && (forall x :: s.rip <= x < s.rip + f.len ==> x !in d.mem)
    && (s.rip in sites ==> f.instr == Syscall)
    && (s.rip !in sites ==> forall x :: s.rip <= x < s.rip + f.len ==> !Patched(sites, x))
  }

  ghost predicate SafeOperands(sites: set<int>, d: Taint, s: Cpu, i: Instr) {
    && RegReads(i) !! d.regs
    && (i.Jz? ==> !d.zf)
    && (WordRead(i, s).Some? ==> CleanWord(sites, d, WordRead(i, s).value))
    && (WordWritten(i, s).Some? ==> FreeWord(sites, WordWritten(i, s).value))
  }

  /** Stack below rsp that a patched system call uses: the return address, the saved block, the padding, the
      return address into the stub, and the hook entry point's own frame. */
  function Below(env: Env, s: Cpu): set<int> {
    Zone(s.regs[RSP] as int - 80 - env.hookStack, s.regs[RSP])
  }

  /** The kernel's accesses avoid dirty bytes, code and the low addresses. */
  ghost predicate SafeKernel(env: Env, sites: set<int>, d: Taint, s: Cpu) {
    var r := Block(s.regs);
    && (forall a :: a in env.kreads(s.k, r) ==> a >= LOW_END && a !in d.mem && !Patched(sites, a))
    && (forall a :: a in KernelReply(env, s, r).writes ==> a >= LOW_END && !Patched(sites, a))
  }

  /** At a patched site: the number is one the sled covers, the stack below rsp is free for use, the kernel does
      not look there, and a typed hook can carry the result. */
  ghost predicate SafeSite(env: Env, sites: set<int>, mode: HookApi.HookPtr, s: Cpu) {
    var r := Block(s.regs);
    && s.regs[RAX] <= MAX_SYSCALL_NR
    && (forall a :: a in Below(env, s) ==> a >= LOW_END && !Patched(sites, a))
    && (forall a :: a in env.kreads(s.k, r) ==> a !in Below(env, s))
    && (forall a :: a in KernelReply(env, s, r).writes ==> a !in Below(env, s))
    && (mode == HookApi.TraitHook ==> ResultFits(r.rax, KernelReply(env, s, r).ret))
  }

  /** A step of the original program on which the rewritten program can be relied on. */
  ghost predicate Safe(env: Env, sites: set<int>, mode: HookApi.HookPtr, d: Taint, s: Cpu) {
    var i := Fetch(s).instr;
    && SafeFetch(env, sites, d, s)
    && Step(env, s).Some?
    && SafeOperands(sites, d, s, i)
    && (i == Syscall ==> SafeKernel(env, sites, d, s))
    && (s.rip in sites ==> SafeSite(env, sites, mode, s))
  }

  /** What may differ after the step. A patched system call leaves rcx, r11, the flag and the stack below rsp
      undefined; anything the program then writes from clean values is defined again. */
  function TaintAfter(env: Env, sites: set<int>, d: Taint, s: Cpu): Taint {
    var i := Fetch(s).instr;
    if i == Syscall then
      var written := KernelReply(env, s, Block(s.regs)).writes.Keys;
      if s.rip in sites then Taint({RCX, R11}, true, (d.mem - written) + Below(env, s))
      else Taint(if d.zf then {R11} else {}, d.zf, d.mem - written)
    else
      Taint(d.regs - RegWrites(i),
            if i.AddImm? || i.SubImm? then false else d.zf,
            match WordWritten(i, s) case Some(a) => d.mem - Zone(a, a + 8) case None => d.mem)
  }

  /** The kernel honours the prototypes, as a typed hook needs it to. */
  ghost predicate HonoursPrototypes(env: Env) {
    forall k, a, b {:trigger env.kreads(k, a), env.kreads(k, b)} :: KernelView(a) == KernelView(b) ==>
      env.kreads(k, a) == env.kreads(k, b) && forall m :: env.kcall(k, a, m) == env.kcall(k, b, m)
  }

  // ---------------------------------------------------------------------
  // Memory
  // ---------------------------------------------------------------------

  lemma WordBytes(m: Mem, a: int, v: u64, x: int)
    requires a <= x < a + 8
    ensures Rd(Write64(m, a, v), x) == LeBytes(v, 8)[x - a]
  {
    Pow256Of8();
  }

  lemma ReadRelated(sites: set<int>, d: Taint, m: Mem, n: Mem, a: int)
    requires MemRelated(sites, d.mem, m, n) && CleanWord(sites, d, a)
    ensures Read64(m, a) == Read64(n, a)
  {
    hide SitesOk;
    forall x | a <= x < a + 8
      ensures Rd(m, x) == Rd(n, x)
    {
      assert !Patched(sites, x);
    }
    Read64Same(m, n, a);
  }

  lemma WriteRelated(sites: set<int>, d: Taint, m: Mem, n: Mem, a: int, v: u64)
    requires MemRelated(sites, d.mem, m, n) && FreeWord(sites, a)
    ensures MemRelated(sites, d.mem - Zone(a, a + 8), Write64(m, a, v), Write64(n, a, v))
  {
    hide Write64, LeBytes, SitesOk;
    var m', n' := Write64(m, a, v), Write64(n, a, v);
    SitesKept(sites, m, m');
    forall x | x >= LOW_END && x !in d.mem - Zone(a, a + 8)
      ensures Rd(n', x) == ByteOf(sites, m', x)
    {
      if a <= x < a + 8 {
        WordBytes(m, a, v, x);
        WordBytes(n, a, v, x);
        assert !Patched(sites, x);
      } else {
        assert Rd(n', x) == Rd(n, x) && Rd(m', x) == Rd(m, x);
        assert x !in d.mem && Rd(n, x) == ByteOf(sites, m, x);
      }
    }
  }

  lemma SitesKept(sites: set<int>, m: Mem, n: Mem)
    requires SitesOk(sites, m)
    requires forall p :: Patched(sites, p) ==> Rd(n, p) == Rd(m, p)
    ensures SitesOk(sites, n)
  {
    forall p | p in sites
      ensures Rd(n, p) == Rd(m, p) && Rd(n, p + 1) == Rd(m, p + 1)
    {
      assert Patched(sites, p) && Patched(sites, p + 1);
    }
  }

  /** Kernel writes go to both memories alike. */
  lemma KernelWriteRelated(sites: set<int>, dirty: set<int>, m: Mem, n: Mem, w: map<int, byte>)
    requires MemRelated(sites, dirty, m, n)
    requires forall a :: a in w ==> a >= LOW_END && !Patched(sites, a)
    ensures MemRelated(sites, dirty - w.Keys, m + w, n + w)
  {
    SitesKept(sites, m, m + w);
    forall a | a >= LOW_END && a !in dirty - w.Keys
      ensures Rd(n + w, a) == ByteOf(sites, m + w, a)
    {
      if a !in w {
        assert Rd(n, a) == ByteOf(sites, m, a);
      } else {
        assert !Patched(sites, a);
      }
    }
  }

  lemma SeenRelated(sites: set<int>, d: Taint, m: Mem, n: Mem, addrs: set<int>)
    requires MemRelated(sites, d.mem, m, n)
    requires forall a :: a in addrs ==> a >= LOW_END && a !in d.mem && !Patched(sites, a)
    ensures Seen(m, addrs) == Seen(n, addrs)
  {
    hide SitesOk;
    forall a | a in addrs
      ensures Rd(m, a) == Rd(n, a)
    {
    }
  }

  lemma LoadedAbove(env: Env, m: Mem, n: Mem)
    requires Loaded(env, m)
    requires forall x :: x < LOW_END ==> Rd(n, x) == Rd(m, x)
    ensures Loaded(env, n)
  {
    LoadedSame(env, m, n);
  }

  // ---------------------------------------------------------------------
  // Steps outside the patched sites
  // ---------------------------------------------------------------------

  /** Both programs fetch the same instruction. */
  lemma SameFetch(env: Env, sites: set<int>, mode: HookApi.HookPtr, d: Taint, s: Cpu, t: Cpu)
    requires Related(env, sites, mode, d, s, t) && SafeFetch(env, sites, d, s) && s.rip !in sites
    ensures Fetch(t) == Fetch(s)
  {
    hide Decode, Loaded, SitesOk, RegsRelated;
    var c, e := ReadN(s.mem, s.rip, 15), ReadN(t.mem, t.rip, 15);
    DecodeLength(c);
    forall i | 0 <= i < Fetch(s).len
      ensures c[i] == e[i]
    {
      assert c[i] == Rd(s.mem, s.rip + i) && e[i] == Rd(t.mem, s.rip + i);
      assert !Patched(sites, s.rip + i);
    }
    DecodeComplete(c, e);
  }

  /** The part of `Related` that ordinary instructions work on. */
  ghost predicate CoreRelated(sites: set<int>, d: Taint, s: Cpu, t: Cpu) {
    && s.rip == t.rip && s.k == t.k && s.trace == t.trace
    && RegsRelated(d, s.regs, t.regs)
    && (!d.zf ==> s.zf == t.zf)
    && MemRelated(sites, d.mem, s.mem, t.mem)
  }

  predicate Plain(i: Instr) {
    i != Syscall && i != Sysenter && i != Bad
  }

  /** Both programs execute `f` and stay related; nothing below the low limit changes. */
  ghost predicate Together(env: Env, sites: set<int>, d: Taint, s: Cpu, t: Cpu, f: Decoded) {
    && Exec(env, f, s).Some? && Exec(env, f, t).Some?
    && CoreRelated(sites, TaintAfter(env, sites, d, s), Exec(env, f, s).value, Exec(env, f, t).value)
    && Exec(env, f, t).value.hook == t.hook
    && forall x :: x < LOW_END ==> Rd(Exec(env, f, t).value.mem, x) == Rd(t.mem, x)
  }

  ghost predicate ReadyToExec(env: Env, sites: set<int>, d: Taint, s: Cpu, t: Cpu, f: Decoded) {
    && CoreRelated(sites, d, s, t) && SafeOperands(sites, d, s, f.instr) && Plain(f.instr)
    && f == Fetch(s) && Exec(env, f, s).Some?
  }

  /** One instruction, executed on related states with clean operands, gives related states. */
  lemma ExecRelated(env: Env, sites: set<int>, d: Taint, s: Cpu, t: Cpu, f: Decoded)
    requires ReadyToExec(env, sites, d, s, t, f)
    ensures Together(env, sites, d, s, t, f)
  {
    hide Fetch, MemRelated, Write64, Read64, Together, Exec, RegsRelated;
    if WordRead(f.instr, s).Some? {
      ReadRelated(sites, d, s.mem, t.mem, WordRead(f.instr, s).value);
    }
    if f.instr.Store? {
      ExecStore(env, sites, d, s, t, f);
    } else if f.instr.Push? || f.instr.CallReg? {
      ExecPushes(env, sites, d, s, t, f);
    } else if f.instr.Pop? || f.instr.Ret? {
      ExecPops(env, sites, d, s, t, f);
    } else if f.instr.Nop? || f.instr.Jmp? || f.instr.Jz? || f.instr.JmpReg? {
      ExecJumps(env, sites, d, s, t, f);
    } else if f.instr.AddImm? || f.instr.SubImm? || f.instr.Lea? {
      ExecAlu(env, sites, d, s, t, f);
    } else {
      ExecMoves(env, sites, d, s, t, f);
    }
  }

  /** The same value, written to the same register. */
  lemma SetRelated(d: Taint, f: RegFile, g: RegFile, r: Reg, v: u64)
    requires RegsRelated(d, f, g)
    ensures RegsRelated(d.(regs := d.regs - {r}), Set(f, r, v), Set(g, r, v))
  {
  }

  lemma RegsRelatedBy(d: Taint, e: Taint, f: RegFile, g: RegFile)
    requires RegsRelated(d, f, g) && e.regs == d.regs
    ensures RegsRelated(e, f, g)
  {
  }

  lemma CleanRegs(d: Taint, f: RegFile, g: RegFile, r: Reg)
    requires RegsRelated(d, f, g) && (r !in d.regs || r == RSP)
    ensures f[r] == g[r]
  {
  }

  lemma ExecPops(env: Env, sites: set<int>, d: Taint, s: Cpu, t: Cpu, f: Decoded)
    requires ReadyToExec(env, sites, d, s, t, f) && (f.instr.Pop? || f.instr.Ret?)
    requires Read64(s.mem, s.regs[RSP]) == Read64(t.mem, s.regs[RSP])
    ensures Together(env, sites, d, s, t, f)
  {
    hide Fetch, MemRelated, Read64, CleanWord, RegsRelated, Set;
    CleanRegs(d, s.regs, t.regs, RSP);
    var e := TaintAfter(env, sites, d, s);
    var sp := Wrap64(s.regs[RSP] as int + 8);
    var g, h := Set(s.regs, RSP, sp), Set(t.regs, RSP, sp);
    SetRelated(d, s.regs, t.regs, RSP, sp);
    match f.instr
    case Pop(r) =>
      var v := Read64(s.mem, s.regs[RSP]);
      SetRelated(d.(regs := d.regs - {RSP}), g, h, r, v);
      RegsRelatedBy(d.(regs := d.regs - {RSP} - {r}), e, Set(g, r, v), Set(h, r, v));
    case _ =>
      RegsRelatedBy(d.(regs := d.regs - {RSP}), e, g, h);
  }

  lemma ExecJumps(env: Env, sites: set<int>, d: Taint, s: Cpu, t: Cpu, f: Decoded)
    requires ReadyToExec(env, sites, d, s, t, f) && (f.instr.Nop? || f.instr.Jmp? || f.instr.Jz? || f.instr.JmpReg?)
    ensures Together(env, sites, d, s, t, f)
  {
    hide Fetch, MemRelated, RegsRelated, SignExt8;
    if f.instr.JmpReg? {
      CleanRegs(d, s.regs, t.regs, f.instr.target);
    }
    RegsRelatedBy(d, TaintAfter(env, sites, d, s), s.regs, t.regs);
  }

  lemma ExecAlu(env: Env, sites: set<int>, d: Taint, s: Cpu, t: Cpu, f: Decoded)
    requires ReadyToExec(env, sites, d, s, t, f) && (f.instr.AddImm? || f.instr.SubImm? || f.instr.Lea?)
    ensures Together(env, sites, d, s, t, f)
  {
    hide Fetch, MemRelated, RegsRelated, SignExt8, Set;
    match f.instr
    case AddImm(r, imm) =>
      CleanRegs(d, s.regs, t.regs, r);
      OneSet(env, sites, d, s, t, f, r, Wrap64(s.regs[r] as int + SignExt8(imm)));
    case SubImm(r, imm) =>
      CleanRegs(d, s.regs, t.regs, r);
      OneSet(env, sites, d, s, t, f, r, Wrap64(s.regs[r] as int - SignExt8(imm)));
    case Lea(r, base, disp) =>
      CleanRegs(d, s.regs, t.regs, base);
      OneSet(env, sites, d, s, t, f, r, Operand(s, base, disp));
    case _ =>
  }

  lemma ExecMoves(env: Env, sites: set<int>, d: Taint, s: Cpu, t: Cpu, f: Decoded)
    requires ReadyToExec(env, sites, d, s, t, f) && (f.instr.MovReg? || f.instr.MovImm? || f.instr.Load?)
    requires f.instr.Load? ==> Read64(s.mem, WordRead(f.instr, s).value) == Read64(t.mem, WordRead(f.instr, s).value)
    ensures Together(env, sites, d, s, t, f)
  {
    hide Fetch, MemRelated, Read64, CleanWord, RegsRelated, SignExt8, Set;
    match f.instr
    case MovReg(r, src) =>
      CleanRegs(d, s.regs, t.regs, src);
      OneSet(env, sites, d, s, t, f, r, s.regs[src]);
    case MovImm(r, imm) =>
      OneSet(env, sites, d, s, t, f, r, imm);
    case Load(r, base, disp) =>
      CleanRegs(d, s.regs, t.regs, base);
      OneSet(env, sites, d, s, t, f, r, Read64(s.mem, Operand(s, base, disp)));
    case _ =>
  }

  lemma OneSet(env: Env, sites: set<int>, d: Taint, s: Cpu, t: Cpu, f: Decoded, r: Reg, v: u64)
    requires f == Fetch(s) && RegsRelated(d, s.regs, t.regs) && RegWrites(f.instr) == {r} && f.instr != Syscall
    ensures RegsRelated(TaintAfter(env, sites, d, s), Set(s.regs, r, v), Set(t.regs, r, v))
  {
    hide Fetch, RegsRelated, Set;
    SetRelated(d, s.regs, t.regs, r, v);
    RegsRelatedBy(d.(regs := d.regs - {r}), TaintAfter(env, sites, d, s), Set(s.regs, r, v), Set(t.regs, r, v));
  }

  lemma FreeIsHigh(sites: set<int>, a: int)
    requires FreeWord(sites, a)
    ensures a >= LOW_END
  {
    assert !Patched(sites, a);
  }

  /** A store runs in both programs or in neither, to the same address. */
  lemma StoreEffect(env: Env, s: Cpu, t: Cpu, f: Decoded)
    requires f.instr.Store? && Exec(env, f, s).Some? && s.rip == t.rip
    requires t.regs[f.instr.base] == s.regs[f.instr.base] && t.regs[f.instr.src] == s.regs[f.instr.src]
    ensures var a := WordWritten(f.instr, s).value;
            && Exec(env, f, s) == Some(s.(rip := s.rip + f.len, mem := Write64(s.mem, a, s.regs[f.instr.src])))
            && Exec(env, f, t) == Some(t.(rip := s.rip + f.len, mem := Write64(t.mem, a, s.regs[f.instr.src])))
  {
    hide Write64, Wrap64, SignExt8;
  }

  lemma ExecStore(env: Env, sites: set<int>, d: Taint, s: Cpu, t: Cpu, f: Decoded)
    requires ReadyToExec(env, sites, d, s, t, f) && f.instr.Store?
    ensures Together(env, sites, d, s, t, f)
  {
    hide Exec, Fetch, MemRelated, Write64, CleanWord, FreeWord, RegsRelated, Operand, Zone;
    var a := WordWritten(f.instr, s).value;
    FreeIsHigh(sites, a);
    CleanRegs(d, s.regs, t.regs, f.instr.base);
    CleanRegs(d, s.regs, t.regs, f.instr.src);
    StoreEffect(env, s, t, f);
    WriteRelated(sites, d, s.mem, t.mem, a, s.regs[f.instr.src]);
    RegsRelatedBy(d, TaintAfter(env, sites, d, s), s.regs, t.regs);
  }

  /** A push or a call stores the same word and goes to the same place in both programs. */
  lemma PushEffect(env: Env, s: Cpu, t: Cpu, f: Decoded) returns (v: u64, rip: int)
    requires (f.instr.Push? || f.instr.CallReg?) && Exec(env, f, s).Some? && s.rip == t.rip
    requires t.regs[RSP] == s.regs[RSP]
    requires f.instr.Push? ==> t.regs[f.instr.src] == s.regs[f.instr.src]
    requires f.instr.CallReg? ==> t.regs[f.instr.target] == s.regs[f.instr.target]
    ensures s.regs[RSP] >= 8
    ensures var sp := s.regs[RSP] as int - 8;
            && Exec(env, f, s) == Some(s.(rip := rip, mem := Write64(s.mem, sp, v), regs := Set(s.regs, RSP, sp)))
            && Exec(env, f, t) == Some(t.(rip := rip, mem := Write64(t.mem, sp, v), regs := Set(t.regs, RSP, sp)))
  {
    hide Write64, Set;
    match f.instr
    case Push(r) => v, rip := s.regs[r], s.rip + f.len;
    case CallReg(r) => v, rip := s.rip + f.len, s.regs[r];
  }

  lemma ExecPushes(env: Env, sites: set<int>, d: Taint, s: Cpu, t: Cpu, f: Decoded)
    requires ReadyToExec(env, sites, d, s, t, f) && (f.instr.Push? || f.instr.CallReg?)
    ensures Together(env, sites, d, s, t, f)
  {
    hide Exec, Fetch, MemRelated, Write64, CleanWord, FreeWord, RegsRelated, Set, Zone;
    var a := WordWritten(f.instr, s).value;
    FreeIsHigh(sites, a);
    CleanRegs(d, s.regs, t.regs, RSP);
    CleanRegs(d, s.regs, t.regs, if f.instr.Push? then f.instr.src else f.instr.target);
    var v, _ := PushEffect(env, s, t, f);
    WriteRelated(sites, d, s.mem, t.mem, a, v);
    OneSet(env, sites, d, s, t, f, RSP, s.regs[RSP] - 8);
  }

  /** A system call instruction that was not patched goes to the kernel in both programs. */
  lemma SyscallRelated(env: Env, sites: set<int>, d: Taint, s: Cpu, t: Cpu, f: Decoded)
    requires CoreRelated(sites, d, s, t) && SafeKernel(env, sites, d, s)
    requires f == Fetch(s) && f.instr == Syscall && Exec(env, f, s).Some? && s.rip !in sites
    ensures Together(env, sites, d, s, t, f)
  {
    hide Fetch, MemRelated, KernelView;
    var r := Block(s.regs);
    assert Block(t.regs) == r;
    SeenRelated(sites, d, s.mem, t.mem, env.kreads(s.k, r));
    assert KernelReply(env, t, r) == KernelReply(env, s, r);
    KernelWriteRelated(sites, d.mem, s.mem, t.mem, KernelReply(env, s, r).writes);
  }

  lemma OrdinaryStep(env: Env, sites: set<int>, mode: HookApi.HookPtr, d: Taint, s: Cpu, t: Cpu)
    requires Related(env, sites, mode, d, s, t) && Safe(env, sites, mode, d, s) && s.rip !in sites
    ensures Step(env, t).Some?
    ensures Related(env, sites, mode, TaintAfter(env, sites, d, s), Step(env, s).value, Step(env, t).value)
    ensures Step(env, t).value.hook == t.hook
  {
    hide Fetch, Exec, MemRelated, RegsRelated, Loaded, SafeOperands, SafeKernel, TaintAfter;
    SameFetch(env, sites, mode, d, s, t);
    var f := Fetch(s);
    NotBad(env, f, s);
    if f.instr == Syscall {
      SyscallRelated(env, sites, d, s, t, f);
    } else {
      ExecRelated(env, sites, d, s, t, f);
    }
    LoadedAbove(env, t.mem, Step(env, t).value.mem);
  }

  lemma NotBad(env: Env, f: Decoded, s: Cpu)
    ensures Exec(env, f, s).Some? ==> f.instr != Bad && f.instr != Sysenter
  {
  }

  // ---------------------------------------------------------------------
  // Patched system calls
  // ---------------------------------------------------------------------

  /** The two bytes at a site are `call rax` in the rewritten program, and the call enters the sled. */
  lemma SiteEnters(env: Env, sites: set<int>, mode: HookApi.HookPtr, d: Taint, s: Cpu, t: Cpu)
    requires Related(env, sites, mode, d, s, t) && Safe(env, sites, mode, d, s) && s.rip in sites
    ensures s.regs[RSP] >= LOW_END + 80
    ensures Step(env, t) == Some(t.(rip := s.regs[RAX],
                                    mem := Write64(t.mem, s.regs[RSP] - 8, s.rip + 2),
                                    regs := Set(t.regs, RSP, s.regs[RSP] - 8)))
  {
    hide Step, Fetch, Loaded, Write64;
    var sp: int := s.regs[RSP];
    assert sp - 80 - env.hookStack in Below(env, s);
    SiteBelowTop(env, sites, mode, d, s);
    SiteBytes(env, sites, mode, d, s, t);
    hide SafeOperands, SafeKernel, SafeSite, SafeFetch, MemRelated, Below, RegsRelated, Encode;
    StepCall(env, t, RAX);
  }

  lemma SiteBytes(env: Env, sites: set<int>, mode: HookApi.HookPtr, d: Taint, s: Cpu, t: Cpu)
    requires Related(env, sites, mode, d, s, t) && s.rip in sites
    ensures BytesAt(t.mem, t.rip, Encode(CallReg(RAX))) && |Encode(CallReg(RAX))| == 2
    ensures t.regs[RSP] == s.regs[RSP] && t.regs[RAX] == s.regs[RAX]
  {
    hide Loaded;
    assert Patched(sites, s.rip) && Patched(sites, s.rip + 1);
    assert ReadN(t.mem, s.rip, 2) == [Rd(t.mem, s.rip), Rd(t.mem, s.rip + 1)];
    assert Encode(CallReg(RAX)) == [0xff, 0xd0];
  }

  /** The original executes a two-byte instruction there. */
  lemma SiteBelowTop(env: Env, sites: set<int>, mode: HookApi.HookPtr, d: Taint, s: Cpu)
    requires Safe(env, sites, mode, d, s) && s.rip in sites && SitesOk(sites, s.mem)
    ensures Fetch(s) == Decoded(Syscall, 2)
    ensures s.rip + 2 < TWO64
  {
    hide SafeOperands, SafeKernel, SafeSite, DecodeOp;
    var w := ReadN(s.mem, s.rip, 15);
    assert w[0] == Rd(s.mem, s.rip + 0) && w[1] == Rd(s.mem, s.rip + 1);
    TwoByteSystem(w);
  }

  lemma TwoByteSystem(w: seq<byte>)
    requires |w| == 15 && w[0] == 0x0f && w[1] in {0x05, 0x34} && Decode(w).instr == Syscall
    ensures Decode(w) == Decoded(Syscall, 2)
  {
  }

  /** What the original program has after the system call at a site. */
  function AfterSyscall(env: Env, s: Cpu): Cpu {
    KernelEntry(env, s, Block(s.regs)).(
      rip := s.rip + 2,
      regs := Set(Set(Set(s.regs, RAX, KernelReply(env, s, Block(s.regs)).ret), RCX, Wrap64(s.rip + 2)),
                  R11, FlagsImage(s.zf)))
  }

  lemma OriginalSyscall(env: Env, sites: set<int>, mode: HookApi.HookPtr, d: Taint, s: Cpu)
    requires Safe(env, sites, mode, d, s) && s.rip in sites && SitesOk(sites, s.mem)
    ensures Step(env, s) == Some(AfterSyscall(env, s))
  {
    SiteBelowTop(env, sites, mode, d, s);
    hide Fetch, SafeOperands, SafeKernel, SafeSite, KernelEntry, KernelReply, Set;
  }

  /** The state in which the entry point starts, in terms of the program's state at the site. */
  ghost predicate AtHookFor(env: Env, sites: set<int>, mode: HookApi.HookPtr, d: Taint, s: Cpu, t: Cpu, u: Cpu) {
    var sp: int := s.regs[RSP];
    && sp >= LOW_END + 80 + env.hookStack
    && u.rip == env.hookAddr
    && u.regs == Set(Set(Set(Set(t.regs, RSP, sp - 8), RDI, sp - 64), R11, env.hookAddr), RSP, sp - 80)
    && BlockAt(u.mem, sp - 64) == Block(s.regs)
    && Read64(u.mem, sp - 80) == 544
    && Read64(u.mem, sp - 8) == s.rip + 2
    && (forall x {:trigger Rd(u.mem, x)} :: !(sp - 80 <= x < sp) ==> Rd(u.mem, x) == Rd(t.mem, x))
    && u.k == s.k && u.trace == s.trace && u.hook == t.hook
  }

  lemma SiteReachesHook(env: Env, sites: set<int>, mode: HookApi.HookPtr, d: Taint, s: Cpu, t: Cpu) returns (n: nat)
    requires Related(env, sites, mode, d, s, t) && Safe(env, sites, mode, d, s) && s.rip in sites
    ensures n >= 1 && Run(env, n, t).Some? && AtHookFor(env, sites, mode, d, s, t, Run(env, n, t).value)
  {
    hide Step, Loaded, Read64, Write64, MemRelated, Fetch, SafeFetch, SafeOperands, SafeKernel;
    var sp: int := s.regs[RSP];
    SiteEnters(env, sites, mode, d, s, t);
    assert sp - 80 - env.hookStack in Below(env, s);
    var t1 := Step(env, t).value;
    LoadedAbove(env, t.mem, t1.mem);
    assert t1.rip == s.regs[RAX] <= MAX_SYSCALL_NR;
    StubEnter(env, t1);
    n := 1 + EnterSteps(t1);
    var u := Run(env, EnterSteps(t1), t1).value;
    assert Run(env, n, t) == Some(u);
    Read64Same(t1.mem, u.mem, sp - 8);
    SameBlock(d, s.regs, t.regs, sp - 8);
  }

  /** The argument registers are never tainted, and moving rsp does not change them. */
  lemma SameBlock(d: Taint, f: RegFile, g: RegFile, sp: u64)
    requires RegsRelated(d, f, g)
    ensures Block(Set(g, RSP, sp)) == Block(f) == Block(g)
  {
  }

  /** The kernel reply to a safe system call that changes hands through the hook library. */
  lemma HookReply(env: Env, sites: set<int>, mode: HookApi.HookPtr, d: Taint, s: Cpu, t: Cpu, u: Cpu)
    requires Related(env, sites, mode, d, s, t) && Safe(env, sites, mode, d, s) && s.rip in sites
    requires AtHookFor(env, sites, mode, d, s, t, u) && Fetch(s).instr == Syscall
    requires mode == HookApi.TraitHook ==> HonoursPrototypes(env)
    ensures var r := Block(s.regs);
            var plan := HookApi.Decide(u.hook, r);
            && KernelView(plan.issued) == KernelView(r)
            && env.kreads(u.k, plan.issued) == env.kreads(s.k, r)
            && Seen(u.mem, env.kreads(s.k, r)) == Seen(s.mem, env.kreads(s.k, r))
            && KernelReply(env, u, plan.issued) == KernelReply(env, s, r)
            && HookApi.Answer(plan, KernelReply(env, s, r).ret) == Dispatch.Returned(KernelReply(env, s, r).ret)
  {
    hide KernelView, Typed, DefaultRegs, Loaded, Read64, MemRelated, SafeFetch, SafeOperands, RegsRelated;
    hide BlockAt, ResultFits, Zone;
    var r := Block(s.regs);
    var plan := HookApi.Decide(u.hook, r);
    HookApi.IssuedKeepsView(u.hook, r);
    SeenRelated(sites, d, s.mem, t.mem, env.kreads(s.k, r));
    forall a | a in env.kreads(s.k, r)
      ensures Rd(u.mem, a) == Rd(t.mem, a)
    {
      assert a !in Below(env, s);
    }
    assert Seen(u.mem, env.kreads(s.k, r)) == Seen(t.mem, env.kreads(s.k, r));
    if mode == HookApi.TraitHook {
      HookApi.PlanAnswer(u.hook, r, KernelReply(env, s, r).ret);
    }
  }

  /** The state in which the hook entry point returns to the stub. */
  ghost predicate HookDone(env: Env, sites: set<int>, mode: HookApi.HookPtr, d: Taint, s: Cpu, t: Cpu, h: Cpu) {
    var sp: int := s.regs[RSP];
    var r := Block(s.regs);
    var o := KernelReply(env, s, r);
    && h.rip == 544
    && h.regs[RSP] == sp - 72
    && h.regs[RAX] == o.ret
    && (forall q: Reg :: !CallerSaved(q) && q != RSP ==> h.regs[q] == t.regs[q])
    && BlockAt(h.mem, sp - 64) == r
    && Read64(h.mem, sp - 8) == s.rip + 2
    && (forall x {:trigger Rd(h.mem, x)} :: !(sp - 80 - env.hookStack <= x < sp) ==> Rd(h.mem, x) == Rd(t.mem + o.writes, x))
    && h.k == o.next
    && h.trace == s.trace + [Event(KernelView(r), Seen(s.mem, env.kreads(s.k, r)), o.ret)]
    && Ready(mode, h.hook) && h.hook.entries == t.hook.entries + 1
  }

  /** Outside the stack below rsp the hook changes what the kernel writes, and nothing inside the saved block, the
      padding or the return addresses. */
  lemma HookMemory(env: Env, sites: set<int>, mode: HookApi.HookPtr, d: Taint, s: Cpu, t: Cpu, u: Cpu,
                   w: map<int, byte>, junk: map<int, byte>, m: Mem)
    requires AtHookFor(env, sites, mode, d, s, t, u)
    requires forall a :: a in w ==> a !in Below(env, s)
    requires m == Scribble(u.mem + w, junk, s.regs[RSP] - 80 - env.hookStack, s.regs[RSP] - 80)
    ensures var sp: int := s.regs[RSP];
            && BlockAt(m, sp - 64) == Block(s.regs)
            && Read64(m, sp - 80) == 544 && Read64(m, sp - 8) == s.rip + 2
            && (forall x {:trigger Rd(m, x)} :: !(sp - 80 - env.hookStack <= x < sp) ==> Rd(m, x) == Rd(t.mem + w, x))
  {
    hide Read64, Scribble;
    var sp: int := s.regs[RSP];
    forall x | sp - 80 <= x < sp
      ensures Rd(m, x) == Rd(u.mem, x)
    {
      assert x in Below(env, s);
    }
    Read64Same(u.mem, m, sp - 80);
    Read64Same(u.mem, m, sp - 8);
    BlockSame(u.mem, m, sp - 64);
    forall x | !(sp - 80 - env.hookStack <= x < sp)
      ensures Rd(m, x) == Rd(t.mem + w, x)
    {
      assert Rd(u.mem, x) == Rd(t.mem, x);
    }
  }

  lemma BlockSame(m: Mem, n: Mem, a: int)
    requires forall x :: a <= x < a + 56 ==> Rd(m, x) == Rd(n, x)
    ensures BlockAt(m, a) == BlockAt(n, a)
  {
    hide Read64;
    Read64Same(m, n, a);
    Read64Same(m, n, a + 8);
    Read64Same(m, n, a + 16);
    Read64Same(m, n, a + 24);
    Read64Same(m, n, a + 32);
    Read64Same(m, n, a + 40);
    Read64Same(m, n, a + 48);
  }

  lemma SiteRunsHook(env: Env, sites: set<int>, mode: HookApi.HookPtr, d: Taint, s: Cpu, t: Cpu, u: Cpu)
    requires Related(env, sites, mode, d, s, t) && Safe(env, sites, mode, d, s) && s.rip in sites
    requires AtHookFor(env, sites, mode, d, s, t, u) && Fetch(s).instr == Syscall
    requires mode == HookApi.TraitHook ==> HonoursPrototypes(env)
    ensures HookCall(env, u).Some? && HookDone(env, sites, mode, d, s, t, HookCall(env, u).value)
  {
    hide HookApi.Decide, HookApi.Answer, KernelView, Loaded, Read64, MemRelated, SafeFetch, SafeOperands, SafeKernel;
    hide RegsRelated, BlockAt, ResultFits, Scribble, Seen, RegsAfterCall, Zone, Fetch;
    var sp: int := s.regs[RSP];
    var r := Block(s.regs);
    var w := KernelReply(env, s, r).writes;
    HookReply(env, sites, mode, d, s, t, u);
    var m := Scribble(u.mem + w, env.junk(u.k, |u.trace|).mem, sp - 80 - env.hookStack, sp - 80);
    HookMemory(env, sites, mode, d, s, t, u, w, env.junk(u.k, |u.trace|).mem, m);
    assert u.regs[RSP] == sp - 80 && u.regs[RDI] == sp - 64;
    assert Wrap64(u.regs[RSP] as int + 8) == sp - 72;
  }

  /** The stub returns behind the site, and the states are related again. */
  lemma SiteReturns(env: Env, sites: set<int>, mode: HookApi.HookPtr, d: Taint, s: Cpu, t: Cpu, h: Cpu)
    requires Related(env, sites, mode, d, s, t) && Safe(env, sites, mode, d, s) && s.rip in sites
    requires HookDone(env, sites, mode, d, s, t, h) && Fetch(s) == Decoded(Syscall, 2) && s.rip + 2 < TWO64
    requires s.regs[RSP] as int >= LOW_END + 80 + env.hookStack
    ensures Run(env, 9, h).Some?
    ensures Related(env, sites, mode, TaintAfter(env, sites, d, s), AfterSyscall(env, s), Run(env, 9, h).value)
    ensures Run(env, 9, h).value.hook.entries == t.hook.entries + 1
  {
    hide Run, Read64, Fetch, SafeFetch, SafeOperands, KernelView, Seen, Loaded, MemRelated;
    var sp: int := s.regs[RSP];
    var w := KernelReply(env, s, Block(s.regs)).writes;
    forall x | x < LOW_END
      ensures Rd(h.mem, x) == Rd(t.mem, x)
    {
      assert Rd(h.mem, x) == Rd(t.mem + w, x);
    }
    LoadedAbove(env, t.mem, h.mem);
    StubLeave(env, h);
    var f := Run(env, 9, h).value;
    ReturnedRegs(env, sites, mode, d, s, t, h, f);
    ReturnedMemory(env, sites, d, s, t, h, w);
  }

  lemma ReturnedRegs(env: Env, sites: set<int>, mode: HookApi.HookPtr, d: Taint, s: Cpu, t: Cpu, h: Cpu, f: Cpu)
    requires RegsRelated(d, s.regs, t.regs) && HookDone(env, sites, mode, d, s, t, h) && Left(h, f)
    requires s.regs[RSP] as int >= 80
    ensures RegsRelated(Taint({RCX, R11}, true, {}), AfterSyscall(env, s).regs, f.regs)
    ensures f.rip == s.rip + 2
  {
    hide Read64, KernelView, Seen, KernelReply;
    var sp: int := s.regs[RSP];
    assert BlockAt(h.mem, sp - 64) == Block(s.regs);
    var g := AfterSyscall(env, s).regs;
    forall r: Reg | r != RCX && r != R11
      ensures g[r] == f.regs[r]
    {
      if r in RESTORED {
      } else if CallerSaved(r) {
        assert r == RAX;
      }
    }
  }

  lemma ReturnedMemory(env: Env, sites: set<int>, d: Taint, s: Cpu, t: Cpu, h: Cpu, w: map<int, byte>)
    requires MemRelated(sites, d.mem, s.mem, t.mem) && Fetch(s).instr == Syscall && s.rip in sites
    requires w == KernelReply(env, s, Block(s.regs)).writes
    requires forall a :: a in w ==> a >= LOW_END && !Patched(sites, a)
    requires forall a :: a in Below(env, s) ==> a >= LOW_END && !Patched(sites, a)
    requires forall x: int {:trigger Rd(h.mem, x)} :: !(s.regs[RSP] as int - 80 - env.hookStack <= x < s.regs[RSP]) ==>
               Rd(h.mem, x) == Rd(t.mem + w, x)
    ensures MemRelated(sites, TaintAfter(env, sites, d, s).mem, AfterSyscall(env, s).mem, h.mem)
  {
    hide Fetch, SitesOk, KernelReply;
    KernelWriteRelated(sites, d.mem, s.mem, t.mem, w);
    var e := TaintAfter(env, sites, d, s).mem;
    forall a | a >= LOW_END && a !in e
      ensures Rd(h.mem, a) == ByteOf(sites, s.mem + w, a)
    {
      assert a !in Below(env, s) && a !in d.mem - w.Keys;
    }
  }

  /** From the site through the stub and the hook entry point. */
  lemma SiteToHookDone(env: Env, sites: set<int>, mode: HookApi.HookPtr, d: Taint, s: Cpu, t: Cpu) returns (n: nat, h: Cpu)
    requires Related(env, sites, mode, d, s, t) && Safe(env, sites, mode, d, s) && s.rip in sites
    requires Fetch(s).instr == Syscall
    requires mode == HookApi.TraitHook ==> HonoursPrototypes(env)
    ensures n >= 1 && Run(env, n, t) == Some(h) && HookDone(env, sites, mode, d, s, t, h)
    ensures s.regs[RSP] as int >= LOW_END + 80 + env.hookStack
  {
    hide Step, Fetch, Safe, Related, AtHookFor, HookDone, HookCall;
    var m := SiteReachesHook(env, sites, mode, d, s, t);
    var u := Run(env, m, t).value;
    SiteRunsHook(env, sites, mode, d, s, t, u);
    h := HookCall(env, u).value;
    AtEntry(env, sites, mode, d, s, t, u);
    assert Run(env, 1, u) == Some(h) by {
      assert Run(env, 0, h) == Some(h);
    }
    RunAppend(env, m, 1, t, u);
    n := m + 1;
  }

  /** A patched system call, from the site to the instruction behind it: one pass through the hook entry point. */
  lemma SiteStep(env: Env, sites: set<int>, mode: HookApi.HookPtr, d: Taint, s: Cpu, t: Cpu) returns (n: nat)
    requires Related(env, sites, mode, d, s, t) && Safe(env, sites, mode, d, s) && s.rip in sites
    requires mode == HookApi.TraitHook ==> HonoursPrototypes(env)
    ensures n >= 1 && Run(env, n, t).Some?
    ensures Related(env, sites, mode, TaintAfter(env, sites, d, s), Step(env, s).value, Run(env, n, t).value)
    ensures Run(env, n, t).value.hook.entries == t.hook.entries + 1
  {
    hide Step, Run, Fetch, Safe, Related, TaintAfter, HookDone, AfterSyscall;
    RelatedSites(env, sites, mode, d, s, t);
    SiteBelowTop(env, sites, mode, d, s);
    OriginalSyscall(env, sites, mode, d, s);
    var m, h := SiteToHookDone(env, sites, mode, d, s, t);
    SiteReturns(env, sites, mode, d, s, t, h);
    RunAppend(env, m, 9, t, h);
    n := m + 9;
  }

  lemma RelatedSites(env: Env, sites: set<int>, mode: HookApi.HookPtr, d: Taint, s: Cpu, t: Cpu)
    requires Related(env, sites, mode, d, s, t)
    ensures SitesOk(sites, s.mem)
  {
  }

  lemma AtEntry(env: Env, sites: set<int>, mode: HookApi.HookPtr, d: Taint, s: Cpu, t: Cpu, u: Cpu)
    requires AtHookFor(env, sites, mode, d, s, t, u)
    ensures Step(env, u) == HookCall(env, u)
    ensures s.regs[RSP] as int >= LOW_END + 80 + env.hookStack
  {
    hide HookCall, Exec, Fetch;
  }

  // ---------------------------------------------------------------------
  // Whole runs
  // ---------------------------------------------------------------------

  /** Every one of the next n steps of the original program is safe, given what is tainted at that point. */
  ghost predicate SafeRun(env: Env, sites: set<int>, mode: HookApi.HookPtr, n: nat, d: Taint, s: Cpu)
    decreases n
  {
    n > 0 ==>
      && Safe(env, sites, mode, d, s)
      && SafeRun(env, sites, mode, n - 1, TaintAfter(env, sites, d, s), Step(env, s).value)
  }

  ghost function FinalTaint(env: Env, sites: set<int>, n: nat, d: Taint, s: Cpu): Taint
    decreases n
  {
    if n == 0 || Step(env, s).None? then d
    else FinalTaint(env, sites, n - 1, TaintAfter(env, sites, d, s), Step(env, s).value)
  }

  /** Patched system calls among the next n steps. */
  ghost function SiteCalls(env: Env, sites: set<int>, n: nat, s: Cpu): nat
    decreases n
  {
    if n == 0 || Step(env, s).None? then 0
    else (if s.rip in sites then 1 else 0) + SiteCalls(env, sites, n - 1, Step(env, s).value)
  }

  lemma OneStep(env: Env, sites: set<int>, mode: HookApi.HookPtr, d: Taint, s: Cpu, t: Cpu) returns (n: nat)
    requires Related(env, sites, mode, d, s, t) && Safe(env, sites, mode, d, s)
    requires mode == HookApi.TraitHook ==> HonoursPrototypes(env)
    ensures n >= 1 && Run(env, n, t).Some? && Step(env, s).Some?
    ensures Related(env, sites, mode, TaintAfter(env, sites, d, s), Step(env, s).value, Run(env, n, t).value)
    ensures Run(env, n, t).value.hook.entries == t.hook.entries + (if s.rip in sites then 1 else 0)
  {
    hide Step, Related, TaintAfter, SafeFetch, SafeOperands, SafeKernel, SafeSite;
    if s.rip in sites {
      n := SiteStep(env, sites, mode, d, s, t);
    } else {
      OrdinaryStep(env, sites, mode, d, s, t);
      n := 1;
      assert Run(env, 0, Step(env, t).value) == Some(Step(env, t).value);
    }
  }

  /** Every safe run of the original program, of any length, is matched by a run of the rewritten program that ends
      in a related state: the same kernel calls with the same data and results, the same instruction pointer,
      registers and memory outside what system calls leave undefined. The hook entry point ran once for each
      patched system call. */
  lemma {:induction false} Simulation(env: Env, sites: set<int>, mode: HookApi.HookPtr, n: nat, d: Taint, s: Cpu, t: Cpu)
    returns (m: nat)
    requires Related(env, sites, mode, d, s, t) && SafeRun(env, sites, mode, n, d, s)
    requires mode == HookApi.TraitHook ==> HonoursPrototypes(env)
    ensures m >= n && Run(env, n, s).Some? && Run(env, m, t).Some?
    ensures Related(env, sites, mode, FinalTaint(env, sites, n, d, s), Run(env, n, s).value, Run(env, m, t).value)
    ensures Run(env, m, t).value.hook.entries == t.hook.entries + SiteCalls(env, sites, n, s)
    decreases n
  {
    hide Step, Related, TaintAfter, Safe;
    if n == 0 {
      m := 0;
    } else {
      var k := OneStep(env, sites, mode, d, s, t);
      var s1, t1 := Step(env, s).value, Run(env, k, t).value;
      var l := Simulation(env, sites, mode, n - 1, TaintAfter(env, sites, d, s), s1, t1);
      RunAppend(env, k, l, t, t1);
      m := k + l;
    }
  }

  /** At no point of a matching run has the rewritten program made a kernel call the original does not make. */
  lemma NoOtherCalls(env: Env, sites: set<int>, mode: HookApi.HookPtr, d: Taint, n: nat, m: nat, s: Cpu, t: Cpu)
    requires Run(env, n, s).Some? && Run(env, m, t).Some?
    requires Related(env, sites, mode, d, Run(env, n, s).value, Run(env, m, t).value)
    ensures Run(env, m, t).value.trace == Run(env, n, s).value.trace
    ensures forall j: nat :: j <= m ==> Run(env, j, t).Some? && Run(env, j, t).value.trace <= Run(env, n, s).value.trace
  {
    hide Step, Run, Related;
    SameTrace(env, sites, mode, d, Run(env, n, s).value, Run(env, m, t).value);
    forall j: nat | j <= m
      ensures Run(env, j, t).Some? && Run(env, j, t).value.trace <= Run(env, n, s).value.trace
    {
      RunPrefix(env, j, m, t);
      RunAppend(env, j, m - j, t, Run(env, j, t).value);
      TraceGrows(env, m - j, Run(env, j, t).value);
    }
  }

  lemma SameTrace(env: Env, sites: set<int>, mode: HookApi.HookPtr, d: Taint, s: Cpu, t: Cpu)
    requires Related(env, sites, mode, d, s, t)
    ensures t.trace == s.trace
  {
  }

  /** Patched system calls can be part of a safe run: a `syscall` at 0x20000 with a free stack. */
  lemma SafeRunExists(env: Env, s: Cpu)
    requires env.hookAddr != 0x20000 && env.hookStack == 0
    requires forall k, r {:trigger env.kreads(k, r)} :: env.kreads(k, r) == {}
    requires forall k, r, m {:trigger env.kcall(k, r, m)} :: env.kcall(k, r, m).writes == map[]
    requires s.rip == 0x20000 && s.regs[RSP] == 0x30000 && s.regs[RAX] == 39
    requires ReadN(s.mem, s.rip, 2) == [0x0f, 0x05]
    ensures SafeRun(env, {0x20000}, HookApi.DefaultHook, 1, CLEAN, s) && SiteCalls(env, {0x20000}, 1, s) == 1
  {
    var sites := {0x20000};
    FetchSyscall(env, s);
    hide Fetch, Step;
    assert Safe(env, sites, HookApi.DefaultHook, CLEAN, s);
    assert SafeRun(env, sites, HookApi.DefaultHook, 0, TaintAfter(env, sites, CLEAN, s), Step(env, s).value);
    assert SiteCalls(env, sites, 0, Step(env, s).value) == 0;
  }

  lemma FetchSyscall(env: Env, s: Cpu)
    requires s.rip == 0x20000 != env.hookAddr && ReadN(s.mem, s.rip, 2) == [0x0f, 0x05]
    ensures Fetch(s) == Decoded(Syscall, 2) && Step(env, s).Some?
  {
    hide DecodeOp, KernelEntry;
    assert Encode(Syscall) == [0x0f, 0x05];
    var w := ReadN(s.mem, s.rip, 15);
    assert w[0] == ReadN(s.mem, s.rip, 2)[0] && w[1] == ReadN(s.mem, s.rip, 2)[1];
    assert w == Encode(Syscall) + w[2..];
    DecodeEncode(Syscall, w[2..]);
  }

  lemma {:induction false} RunPrefix(env: Env, j: nat, m: nat, t: Cpu)
    requires j <= m && Run(env, m, t).Some?
    ensures Run(env, j, t).Some?
    decreases j
  {
    hide Step;
    if j > 0 {
      RunPrefix(env, j - 1, m - 1, Step(env, t).value);
    }
  }
}
