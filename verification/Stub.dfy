/** What executing the trampoline's bytes does, from an arbitrary machine state. */
module Stub {
  import opened Bytes
  import opened Dispatch
  import opened Machine
  import opened Cpu
  import opened Trampoline

  const STUB_END: int := MAX_SYSCALL_NR + STUB_SIZE

  /** The trampoline is in place, and the hook entry point lies elsewhere. */
  ghost predicate Loaded(env: Env, m: Mem) {
    BytesAt(m, 0, TrampolineCode(env.hookAddr)) && env.hookAddr >= STUB_END
  }

  lemma LoadedSame(env: Env, m: Mem, n: Mem)
    requires Loaded(env, m)
    requires forall x :: 0 <= x < STUB_END ==> Rd(m, x) == Rd(n, x)
    ensures Loaded(env, n)
  {
    hide Assemble, StubProgram;
    StubIsProgram(env.hookAddr);
    BytesAtSame(m, n, 0, TrampolineCode(env.hookAddr));
  }

  /** The stub's bytes, section by section. */
  ghost predicate StubAt(m: Mem, hookAddr: u64) {
    && BytesAt(m, 512, SaveBytes())
    && BytesAt(m, 522, AlignBytes())
    && BytesAt(m, 531, CallBytes(hookAddr))
    && BytesAt(m, 544, UnwindBytes())
    && BytesAt(m, 552, RestoreBytes())
  }

  lemma LoadedParts(env: Env, m: Mem)
    requires Loaded(env, m)
    ensures BytesAt(m, 0, Sled(MAX_SYSCALL_NR)) && StubAt(m, env.hookAddr)
  {
    hide Assemble, StubProgram, SaveBytes, AlignBytes, CallBytes, UnwindBytes, RestoreBytes;
    var h := env.hookAddr;
    StubIsProgram(h);
    BytesAtSplit(m, 0, Sled(MAX_SYSCALL_NR), StubBytes(h));
    BytesAtSplit(m, 512, SaveBytes() + AlignBytes() + CallBytes(h) + UnwindBytes(), RestoreBytes());
    BytesAtSplit(m, 512, SaveBytes() + AlignBytes() + CallBytes(h), UnwindBytes());
    BytesAtSplit(m, 512, SaveBytes() + AlignBytes(), CallBytes(h));
    BytesAtSplit(m, 512, SaveBytes(), AlignBytes());
  }

  // ---------------------------------------------------------------------
  // The sled
  // ---------------------------------------------------------------------

  /** From any address n in 0..512, 512 - n NOPs lead to the stub and change nothing else. */
  lemma {:induction false} SledRun(env: Env, s: Cpu)
    requires Loaded(env, s.mem) && 0 <= s.rip <= MAX_SYSCALL_NR
    ensures Run(env, MAX_SYSCALL_NR - s.rip, s) == Some(s.(rip := MAX_SYSCALL_NR))
    decreases MAX_SYSCALL_NR - s.rip
  {
    hide Step, TrampolineCode, Assemble, StubProgram;
    if s.rip < MAX_SYSCALL_NR {
      SledStep(env, s);
      SledRun(env, s.(rip := s.rip + 1));
    }
  }

  lemma SledStep(env: Env, s: Cpu)
    requires Loaded(env, s.mem) && 0 <= s.rip < MAX_SYSCALL_NR
    ensures Step(env, s) == Some(s.(rip := s.rip + 1))
  {
    hide Step, TrampolineCode, Assemble, StubProgram, StubAt;
    LoadedParts(env, s.mem);
    BytesAtRead(s.mem, 0, Sled(MAX_SYSCALL_NR), s.rip);
    assert ReadN(s.mem, s.rip, 1) == [0x90];
    StepEncoded(env, s, Nop);
  }

  // ---------------------------------------------------------------------
  // Straight-line runs of pushes and pops
  // ---------------------------------------------------------------------

  lemma StackOpLength(r: Reg)
    ensures |Encode(Push(r))| <= 2 && |Encode(Pop(r))| <= 2
  {
  }

  lemma StepPush(env: Env, s: Cpu, r: Reg)
    requires BytesAt(s.mem, s.rip, Encode(Push(r))) && s.rip != env.hookAddr
    requires 0 <= s.rip < TWO64 - 2 && s.regs[RSP] >= 8
    ensures Step(env, s) ==
            Some(s.(rip := s.rip + |Encode(Push(r))|,
                    mem := Write64(s.mem, s.regs[RSP] - 8, s.regs[r]),
                    regs := Set(s.regs, RSP, s.regs[RSP] - 8)))
  {
    StackOpLength(r);
    hide Step, DecodeOp, Write64, Encode;
    StepEncoded(env, s, Push(r));
  }

  lemma StepPop(env: Env, s: Cpu, r: Reg)
    requires BytesAt(s.mem, s.rip, Encode(Pop(r))) && s.rip != env.hookAddr
    requires 0 <= s.rip < TWO64 - 2 && s.regs[RSP] + 8 < TWO64
    ensures Step(env, s) ==
            Some(s.(rip := s.rip + |Encode(Pop(r))|,
                    regs := Set(Set(s.regs, RSP, s.regs[RSP] + 8), r, Read64(s.mem, s.regs[RSP]))))
  {
    StackOpLength(r);
    hide Step, DecodeOp, Read64, Encode;
    StepEncoded(env, s, Pop(r));
    assert Wrap64(s.regs[RSP] + 8) == s.regs[RSP] + 8;
  }

  function PushCode(rs: seq<Reg>): seq<byte> {
    Assemble(Pushes(rs))
  }

  function PopCode(rs: seq<Reg>): seq<byte> {
    Assemble(Pops(rs))
  }

  lemma CodeSplit(m: Mem, a: int, rs: seq<Reg>)
    requires rs != []
    ensures BytesAt(m, a, PushCode(rs)) ==>
              && BytesAt(m, a, Encode(Push(rs[0])))
              && BytesAt(m, a + |Encode(Push(rs[0]))|, PushCode(rs[1..]))
              && |PushCode(rs)| == |Encode(Push(rs[0]))| + |PushCode(rs[1..])|
    ensures BytesAt(m, a, PopCode(rs)) ==>
              && BytesAt(m, a, Encode(Pop(rs[0])))
              && BytesAt(m, a + |Encode(Pop(rs[0]))|, PopCode(rs[1..]))
              && |PopCode(rs)| == |Encode(Pop(rs[0]))| + |PopCode(rs[1..])|
  {
    hide Encode;
    PushesFrom(rs, 0);
    PopsFrom(rs, 0);
    assert rs[0..] == rs;
    if BytesAt(m, a, PushCode(rs)) {
      BytesAtSplit(m, a, Encode(Push(rs[0])), PushCode(rs[1..]));
    }
    if BytesAt(m, a, PopCode(rs)) {
      BytesAtSplit(m, a, Encode(Pop(rs[0])), PopCode(rs[1..]));
    }
  }

  /** `f` is `s` after pushing `rs`: the words stand below the old stack pointer, first register highest. */
  ghost predicate Pushed(s: Cpu, f: Cpu, rs: seq<Reg>) {
    var sp: int := s.regs[RSP];
    && sp >= 8 * |rs|
    && f == s.(rip := s.rip + |PushCode(rs)|, regs := Set(s.regs, RSP, sp - 8 * |rs|), mem := f.mem)
    && (forall x {:trigger Rd(f.mem, x)} :: !(sp - 8 * |rs| <= x < sp) ==> Rd(f.mem, x) == Rd(s.mem, x))
    && (forall i {:trigger rs[i]} :: 0 <= i < |rs| ==> Read64(f.mem, sp - 8 * (i + 1)) == s.regs[rs[i]])
  }

  lemma {:induction false} PushRun(env: Env, s: Cpu, rs: seq<Reg>)
    requires RSP !in rs && BytesAt(s.mem, s.rip, PushCode(rs))
    requires 0 <= s.rip && s.rip + |PushCode(rs)| + 2 <= s.regs[RSP] - 8 * |rs|
    requires env.hookAddr >= s.rip + |PushCode(rs)|
    ensures Run(env, |rs|, s).Some? && Pushed(s, Run(env, |rs|, s).value, rs)
    decreases |rs|
  {
    hide Step, PushCode, Encode, Write64, Read64;
    if rs == [] {
      assert PushCode(rs) == [] by { AssemblePushes(rs); EmptyCode(); }
      assert Set(s.regs, RSP, s.regs[RSP]) == s.regs;
    } else {
      var sp: int := s.regs[RSP];
      CodeSplit(s.mem, s.rip, rs);
      StepPush(env, s, rs[0]);
      var s1 := Step(env, s).value;
      BytesAtSame(s.mem, s1.mem, s1.rip, PushCode(rs[1..]));
      PushRun(env, s1, rs[1..]);
      var f := Run(env, |rs| - 1, s1).value;
      PushedCons(s, s1, f, rs);
    }
  }

  lemma EmptyCode()
    ensures PushCode([]) == [] && PopCode([]) == []
  {
  }

  lemma PushedCons(s: Cpu, s1: Cpu, f: Cpu, rs: seq<Reg>)
    requires rs != [] && RSP !in rs && s.regs[RSP] >= 8
    requires |PushCode(rs)| == |Encode(Push(rs[0]))| + |PushCode(rs[1..])|
    requires s1 == s.(rip := s.rip + |Encode(Push(rs[0]))|,
                      mem := Write64(s.mem, s.regs[RSP] - 8, s.regs[rs[0]]),
                      regs := Set(s.regs, RSP, s.regs[RSP] - 8))
    requires Pushed(s1, f, rs[1..])
    ensures Pushed(s, f, rs)
  {
    hide PushCode, Encode, Write64, Read64;
    var sp: int := s.regs[RSP];
    assert Set(s1.regs, RSP, sp - 8 * |rs|) == Set(s.regs, RSP, sp - 8 * |rs|);
    Read64Same(s1.mem, f.mem, sp - 8);
    forall i | 0 <= i < |rs|
      ensures Read64(f.mem, sp - 8 * (i + 1)) == s.regs[rs[i]]
    {
      if i > 0 {
        assert rs[1..][i - 1] == rs[i];
      }
    }
  }

  predicate Distinct(rs: seq<Reg>) {
    forall i, j :: 0 <= i < j < |rs| ==> rs[i] != rs[j]
  }

  /** `f` is `s` after popping `rs`: each register has its word, the others are untouched. */
  ghost predicate Popped(s: Cpu, f: Cpu, rs: seq<Reg>) {
    var sp: int := s.regs[RSP];
    && f == s.(rip := s.rip + |PopCode(rs)|, regs := f.regs)
    && f.regs[RSP] == sp + 8 * |rs|
    && (forall i {:trigger rs[i]} :: 0 <= i < |rs| ==> f.regs[rs[i]] == Read64(s.mem, sp + 8 * i))
    && (forall r: Reg :: r !in rs && r != RSP ==> f.regs[r] == s.regs[r])
  }

  lemma {:induction false} PopRun(env: Env, s: Cpu, rs: seq<Reg>)
    requires RSP !in rs && Distinct(rs) && BytesAt(s.mem, s.rip, PopCode(rs))
    requires 0 <= s.rip && s.rip + |PopCode(rs)| < TWO64 - 2 && s.regs[RSP] + 8 * |rs| < TWO64
    requires env.hookAddr >= s.rip + |PopCode(rs)|
    ensures Run(env, |rs|, s).Some? && Popped(s, Run(env, |rs|, s).value, rs)
    decreases |rs|
  {
    hide Step, PopCode, Encode, Read64;
    if rs == [] {
      EmptyCode();
    } else {
      var sp: int := s.regs[RSP];
      CodeSplit(s.mem, s.rip, rs);
      StepPop(env, s, rs[0]);
      var s1 := Step(env, s).value;
      assert forall i :: 0 <= i < |rs| - 1 ==> rs[1..][i] == rs[i + 1];
      PopRun(env, s1, rs[1..]);
      var f := Run(env, |rs| - 1, s1).value;
      forall i | 0 <= i < |rs|
        ensures f.regs[rs[i]] == Read64(s.mem, sp + 8 * i)
      {
        if i > 0 {
          assert rs[1..][i - 1] == rs[i];
        }
      }
    }
  }

  // ---------------------------------------------------------------------
  // The call of the hook entry point
  // ---------------------------------------------------------------------

  lemma StepSub(env: Env, s: Cpu)
    requires BytesAt(s.mem, s.rip, Encode(SubImm(RSP, 8))) && s.rip != env.hookAddr
    requires 0 <= s.rip < TWO64 - 10 && s.regs[RSP] >= 8
    ensures Step(env, s) ==
            Some(s.(rip := s.rip + 4, regs := Set(s.regs, RSP, s.regs[RSP] - 8), zf := s.regs[RSP] == 8))
  {
    hide Step, DecodeOp;
    StepEncoded(env, s, SubImm(RSP, 8));
    assert Wrap64(s.regs[RSP] - 8) == s.regs[RSP] - 8;
  }

  lemma StepAdd(env: Env, s: Cpu)
    requires BytesAt(s.mem, s.rip, Encode(AddImm(RSP, 8))) && s.rip != env.hookAddr
    requires 0 <= s.rip < TWO64 - 10 && s.regs[RSP] + 8 < TWO64
    ensures Step(env, s) == Some(s.(rip := s.rip + 4, regs := Set(s.regs, RSP, s.regs[RSP] + 8), zf := false))
  {
    hide Step, DecodeOp;
    StepEncoded(env, s, AddImm(RSP, 8));
    assert Wrap64(s.regs[RSP] + 8) == s.regs[RSP] + 8;
  }

  lemma StepLea(env: Env, s: Cpu)
    requires BytesAt(s.mem, s.rip, Encode(Lea(RDI, RSP, 8))) && s.rip != env.hookAddr
    requires 0 <= s.rip < TWO64 - 10 && s.regs[RSP] + 8 < TWO64
    ensures Step(env, s) == Some(s.(rip := s.rip + 5, regs := Set(s.regs, RDI, s.regs[RSP] + 8)))
  {
    hide Step, DecodeOp;
    StepEncoded(env, s, Lea(RDI, RSP, 8));
    assert Wrap64(s.regs[RSP] + 8) == s.regs[RSP] + 8;
  }

  lemma StepMovImm(env: Env, s: Cpu, v: u64)
    requires BytesAt(s.mem, s.rip, Encode(MovImm(R11, v))) && s.rip != env.hookAddr
    requires 0 <= s.rip < TWO64 - 10
    ensures Step(env, s) == Some(s.(rip := s.rip + 10, regs := Set(s.regs, R11, v)))
  {
    hide Step, DecodeOp;
    StepEncoded(env, s, MovImm(R11, v));
  }

  lemma StepCall(env: Env, s: Cpu, r: Reg)
    requires BytesAt(s.mem, s.rip, Encode(CallReg(r))) && s.rip != env.hookAddr
    requires 0 <= s.rip && s.rip + |Encode(CallReg(r))| < TWO64 && s.regs[RSP] >= 8
    ensures Step(env, s) ==
            Some(s.(rip := s.regs[r],
                    mem := Write64(s.mem, s.regs[RSP] - 8, s.rip + |Encode(CallReg(r))|),
                    regs := Set(s.regs, RSP, s.regs[RSP] - 8)))
  {
    hide Step, DecodeOp, Write64, Encode;
    StepEncoded(env, s, CallReg(r));
  }

  lemma StepRet(env: Env, s: Cpu)
    requires BytesAt(s.mem, s.rip, Encode(Ret)) && s.rip != env.hookAddr
    requires 0 <= s.rip < TWO64 - 10 && s.regs[RSP] + 8 < TWO64
    ensures Step(env, s) ==
            Some(s.(rip := Read64(s.mem, s.regs[RSP]), regs := Set(s.regs, RSP, s.regs[RSP] + 8)))
  {
    assert |Encode(Ret)| == 1;
    assert Wrap64(s.regs[RSP] + 8) == s.regs[RSP] + 8;
    hide Step, DecodeOp, Encode, Read64, Wrap64;
    StepEncoded(env, s, Ret);
  }

  lemma CallSection(env: Env, m: Mem)
    requires StubAt(m, env.hookAddr)
    ensures BytesAt(m, 522, Encode(SubImm(RSP, 8))) && BytesAt(m, 526, Encode(Lea(RDI, RSP, 8)))
    ensures BytesAt(m, 531, Encode(MovImm(R11, env.hookAddr))) && BytesAt(m, 541, Encode(CallReg(R11)))
    ensures |Encode(SubImm(RSP, 8))| == 4 && |Encode(Lea(RDI, RSP, 8))| == 5
    ensures |Encode(MovImm(R11, env.hookAddr))| == 10 && |Encode(CallReg(R11))| == 3
  {
    hide LeBytes;
    CallHookEncodings(env.hookAddr);
    BytesAtSplit(m, 522, Encode(SubImm(RSP, 8)), Encode(Lea(RDI, RSP, 8)));
    BytesAtSplit(m, 531, Encode(MovImm(R11, env.hookAddr)), Encode(CallReg(R11)));
  }

  /** Four instructions: align, load the two registers, call. */
  lemma CallRun(env: Env, s: Cpu)
    requires StubAt(s.mem, env.hookAddr) && env.hookAddr >= STUB_END
    requires s.rip == 522 && s.regs[RSP] >= 16
    ensures var sp: int := s.regs[RSP];
            Run(env, 4, s) ==
            Some(s.(rip := env.hookAddr,
                    zf := sp == 8,
                    mem := Write64(s.mem, sp - 16, 544),
                    regs := Set(Set(Set(s.regs, RDI, sp), R11, env.hookAddr), RSP, sp - 16)))
  {
    hide Step, StubAt, Encode, Write64;
    CallSection(env, s.mem);
    var sp: int := s.regs[RSP];
    StepSub(env, s);
    var s1 := Step(env, s).value;
    StepLea(env, s1);
    var s2 := Step(env, s1).value;
    StepMovImm(env, s2, env.hookAddr);
    var s3 := Step(env, s2).value;
    StepCall(env, s3, R11);
    var s4 := Step(env, s3).value;
    assert s4.regs == Set(Set(Set(s.regs, RDI, sp), R11, env.hookAddr), RSP, sp - 16);
    assert Run(env, 0, s4) == Some(s4);
    assert Run(env, 1, s3) == Some(s4);
    assert Run(env, 2, s2) == Some(s4);
    assert Run(env, 3, s1) == Some(s4);
  }

  // ---------------------------------------------------------------------
  // Entering: from any sled address to the hook entry point
  // ---------------------------------------------------------------------

  /** The state in which the hook entry point starts, for a trampoline entered in state `s` with the return
      address on top of the stack at `r`: the block of the seven entry registers is at r - 56 and rdi points to
      it, the slot at r - 64 is padding, the return address into the stub is at r - 72. */
  ghost predicate AtHook(env: Env, s: Cpu, u: Cpu) {
    var r: int := s.regs[RSP];
    && r >= 72
    && u.rip == env.hookAddr
    && u.regs == Set(Set(Set(s.regs, RDI, r - 56), R11, env.hookAddr), RSP, r - 72)
    && BlockAt(u.mem, r - 56) == Block(s.regs)
    && Read64(u.mem, r - 72) == 544
    && (forall x {:trigger Rd(u.mem, x)} :: !(r - 72 <= x < r) ==> Rd(u.mem, x) == Rd(s.mem, x))
    && u.k == s.k && u.trace == s.trace && u.hook == s.hook
  }

  function EnterSteps(s: Cpu): nat
    requires 0 <= s.rip <= MAX_SYSCALL_NR
  {
    MAX_SYSCALL_NR - s.rip + 11
  }

  /** From any of the 513 entry addresses and any register values, the emitted bytes reach the hook entry point
      with the register block built on the stack; nothing at or above the stack pointer changes. */
  lemma StubEnter(env: Env, s: Cpu)
    requires Loaded(env, s.mem) && 0 <= s.rip <= MAX_SYSCALL_NR
    requires s.regs[RSP] >= STUB_END + 72
    ensures Run(env, EnterSteps(s), s).Some? && AtHook(env, s, Run(env, EnterSteps(s), s).value)
  {
    hide Step, Loaded, StubAt, PushCode, Encode, Read64, Write64;
    var r: int := s.regs[RSP];
    SledRun(env, s);
    var s0 := s.(rip := MAX_SYSCALL_NR);
    SavedCode(env, s.mem);
    PushRun(env, s0, SAVED);
    var p := Run(env, 7, s0).value;
    LoadedSame(env, s.mem, p.mem);
    SavedCode(env, p.mem);
    CallRun(env, p);
    var u := Run(env, 4, p).value;
    RunAppend(env, MAX_SYSCALL_NR - s.rip, 11, s, s0);
    RunAppend(env, 7, 4, s0, p);
    SavedBlock(s0, p, u);
    assert u.regs == Set(Set(Set(s.regs, RDI, r - 56), R11, env.hookAddr), RSP, r - 72);
  }

  lemma SavedCode(env: Env, m: Mem)
    requires Loaded(env, m)
    ensures StubAt(m, env.hookAddr) && BytesAt(m, 512, PushCode(SAVED)) && |PushCode(SAVED)| == 10
    ensures env.hookAddr >= STUB_END
  {
    hide Assemble, Pushes, StubProgram, Sled;
    LoadedParts(env, m);
    SavedBytes();
  }

  /** Pushed last to first, the seven registers are a register block. */
  lemma SavedBlock(s: Cpu, p: Cpu, u: Cpu)
    requires Pushed(s, p, SAVED) && s.regs[RSP] >= 72
    requires forall x {:trigger Rd(u.mem, x)} :: !(s.regs[RSP] - 72 <= x < s.regs[RSP] - 64) ==> Rd(u.mem, x) == Rd(p.mem, x)
    ensures BlockAt(u.mem, s.regs[RSP] - 56) == Block(s.regs)
  {
    hide PushCode, Read64;
    var r: int := s.regs[RSP];
    forall i | 0 <= i < 7
      ensures Read64(u.mem, r - 8 * (i + 1)) == s.regs[SAVED[i]]
    {
      Read64Same(p.mem, u.mem, r - 8 * (i + 1));
    }
    assert Read64(u.mem, r - 8 * (0 + 1)) == s.regs[SAVED[0]];
    assert Read64(u.mem, r - 8 * (1 + 1)) == s.regs[SAVED[1]];
    assert Read64(u.mem, r - 8 * (2 + 1)) == s.regs[SAVED[2]];
    assert Read64(u.mem, r - 8 * (3 + 1)) == s.regs[SAVED[3]];
    assert Read64(u.mem, r - 8 * (4 + 1)) == s.regs[SAVED[4]];
    assert Read64(u.mem, r - 8 * (5 + 1)) == s.regs[SAVED[5]];
    assert Read64(u.mem, r - 8 * (6 + 1)) == s.regs[SAVED[6]];
  }

  /** The sled ends where it has to: entered one byte further on, at 513, the bytes read as a push of rcx, and the
      hook is handed rcx in place of the sixth argument. */
  lemma PastTheSled(env: Env, s: Cpu)
    requires Loaded(env, s.mem) && s.rip == MAX_SYSCALL_NR + 1 && s.regs[RSP] >= STUB_END + 72
    ensures Run(env, 11, s).Some?
    ensures var u := Run(env, 11, s).value;
            u.rip == env.hookAddr && BlockAt(u.mem, s.regs[RSP] - 56) == Block(s.regs).(r9 := s.regs[RCX])
  {
    hide Step, Loaded, StubAt, PushCode, Encode, Read64, Write64;
    var r: int := s.regs[RSP];
    SavedCode(env, s.mem);
    SecondByte(s.mem);
    StepPush(env, s, RCX);
    var s1 := Step(env, s).value;
    CodeSplit(s.mem, 512, SAVED);
    LoadedSame(env, s.mem, s1.mem);
    SavedCode(env, s1.mem);
    CodeSplit(s1.mem, 512, SAVED);
    PushRun(env, s1, SAVED[1..]);
    var p := Run(env, 6, s1).value;
    assert p.rip == 522;
    LoadedSame(env, s1.mem, p.mem);
    SavedCode(env, p.mem);
    CallRun(env, p);
    var u := Run(env, 4, p).value;
    RunAppend(env, 6, 4, s1, p);
    assert Run(env, 11, s) == Run(env, 10, s1);
    ShiftedBlock(s, s1, p, u);
  }

  lemma SecondByte(m: Mem)
    requires BytesAt(m, 512, PushCode(SAVED))
    ensures BytesAt(m, 513, Encode(Push(RCX))) && |Encode(Push(RCX))| == 1
    ensures |Encode(Push(SAVED[0]))| == 2
  {
    hide Assemble, Pushes;
    SavedBytes();
    BytesAtRead(m, 512, PushCode(SAVED), 1);
    assert ReadN(m, 513, 1) == [0x51];
  }

  /** Seen from the second push on, the run is that of a program with rcx in r9. */
  lemma ShiftedBlock(s: Cpu, s1: Cpu, p: Cpu, u: Cpu)
    requires s.regs[RSP] >= 72 && s.rip == 513
    requires |Encode(Push(SAVED[0]))| == 2 && |PushCode(SAVED)| == 2 + |PushCode(SAVED[1..])|
    requires s1 == s.(rip := 514,
                      mem := Write64(s.mem, s.regs[RSP] - 8, s.regs[RCX]),
                      regs := Set(s.regs, RSP, s.regs[RSP] - 8))
    requires Pushed(s1, p, SAVED[1..])
    requires forall x {:trigger Rd(u.mem, x)} :: !(s.regs[RSP] - 72 <= x < s.regs[RSP] - 64) ==> Rd(u.mem, x) == Rd(p.mem, x)
    ensures BlockAt(u.mem, s.regs[RSP] - 56) == Block(s.regs).(r9 := s.regs[RCX])
  {
    hide PushCode, Encode, Write64, Read64;
    var v := s.regs[RCX];
    var t := s.(rip := 512, regs := Set(s.regs, R9, v));
    var t1 := s1.(regs := Set(s1.regs, R9, v));
    var q := p.(regs := Set(p.regs, R9, v));
    assert t1.regs == Set(t.regs, RSP, s.regs[RSP] - 8);
    assert q.regs == Set(t1.regs, RSP, s.regs[RSP] - 56);
    assert Pushed(t1, q, SAVED[1..]);
    PushedCons(t, t1, q, SAVED);
    SavedBlock(t, q, u);
  }

  // ---------------------------------------------------------------------
  // Leaving: from the hook's return to the program
  // ---------------------------------------------------------------------

  /** The state after the stub has unwound, for a hook that returned in state `h`: the six argument registers
      come from the block as the hook left it, rax is the hook's result, rsp is above the return address. */
  ghost predicate Left(h: Cpu, f: Cpu) {
    var b: int := h.regs[RSP] as int + 8;
    && f.rip == Read64(h.mem, b + 56)
    && f.regs[RSP] == b + 64
    && f.regs[RDI] == Read64(h.mem, b + 8) && f.regs[RSI] == Read64(h.mem, b + 16)
    && f.regs[RDX] == Read64(h.mem, b + 24) && f.regs[R10] == Read64(h.mem, b + 32)
    && f.regs[R8] == Read64(h.mem, b + 40) && f.regs[R9] == Read64(h.mem, b + 48)
    && (forall q: Reg :: q !in RESTORED && q != RSP ==> f.regs[q] == h.regs[q])
    && f.mem == h.mem && f.k == h.k && f.trace == h.trace && f.hook == h.hook
  }

  lemma StubLeave(env: Env, h: Cpu)
    requires Loaded(env, h.mem) && h.rip == 544 && h.regs[RSP] + 72 < TWO64
    ensures Run(env, 9, h).Some? && Left(h, Run(env, 9, h).value)
  {
    hide Step, Loaded, StubAt, PopCode, Encode, Read64;
    RestoreSection(env, h.mem);
    StepAdd(env, h);
    var h1 := Step(env, h).value;
    StepAdd(env, h1);
    var h2 := Step(env, h1).value;
    assert Run(env, 2, h) == Some(h2) by { assert Run(env, 1, h1) == Some(h2); }
    PopRun(env, h2, RESTORED);
    var h3 := Run(env, 6, h2).value;
    StepRet(env, h3);
    var f := Step(env, h3).value;
    assert Run(env, 1, h3) == Some(f);
    RunAppend(env, 2, 7, h, h2);
    RunAppend(env, 6, 1, h2, h3);
    PoppedFields(h2, h3);
  }

  lemma PoppedFields(s: Cpu, f: Cpu)
    requires Popped(s, f, RESTORED)
    ensures var sp: int := s.regs[RSP];
            && f.regs[RDI] == Read64(s.mem, sp) && f.regs[RSI] == Read64(s.mem, sp + 8)
            && f.regs[RDX] == Read64(s.mem, sp + 16) && f.regs[R10] == Read64(s.mem, sp + 24)
            && f.regs[R8] == Read64(s.mem, sp + 32) && f.regs[R9] == Read64(s.mem, sp + 40)
  {
    hide PopCode, Read64;
    assert RESTORED[0] == RDI && RESTORED[1] == RSI && RESTORED[2] == RDX;
    assert RESTORED[3] == R10 && RESTORED[4] == R8 && RESTORED[5] == R9;
  }

  lemma RestoreSection(env: Env, m: Mem)
    requires Loaded(env, m)
    ensures BytesAt(m, 544, Encode(AddImm(RSP, 8))) && BytesAt(m, 548, Encode(AddImm(RSP, 8)))
    ensures BytesAt(m, 552, PopCode(RESTORED)) && |PopCode(RESTORED)| == 9
    ensures BytesAt(m, 561, Encode(Ret)) && env.hookAddr >= STUB_END
  {
    hide Assemble, Pops, StubProgram, Sled;
    LoadedParts(env, m);
    RestoredBytes();
    assert RestoreBytes() == PopCode(RESTORED) + Encode(Ret);
    BytesAtSplit(m, 552, PopCode(RESTORED), Encode(Ret));
    assert UnwindBytes() == Encode(AddImm(RSP, 8)) + Encode(AddImm(RSP, 8));
    BytesAtSplit(m, 544, Encode(AddImm(RSP, 8)), Encode(AddImm(RSP, 8)));
  }

  // ---------------------------------------------------------------------
  // The whole stub, around any hook
  // ---------------------------------------------------------------------

  /** A hook that returns to the stub as the calling convention demands: it may change the registers a callee may
      change, memory below its frame, the register block it was given, and memory the stub does not own. */
  ghost predicate HookReturned(env: Env, u: Cpu, h: Cpu) {
    var sp: int := u.regs[RSP];
    && h.rip == Read64(u.mem, sp)
    && h.regs[RSP] == sp + 8
    && (forall q: Reg :: !CallerSaved(q) && q != RSP ==> h.regs[q] == u.regs[q])
    && Loaded(env, h.mem)
    && Read64(h.mem, sp + 72) == Read64(u.mem, sp + 72)
  }

  /** Around any hook: the program resumes at the pushed return address with its own rsp and callee-saved
      registers, rax is the hook's result, and the argument registers are the block's fields as the hook left
      them. The stub itself writes no memory after the hook. */
  lemma StubAroundHook(env: Env, s: Cpu, u: Cpu, h: Cpu)
    requires Loaded(env, s.mem) && 0 <= s.rip <= MAX_SYSCALL_NR
    requires STUB_END + 72 <= s.regs[RSP] && s.regs[RSP] + 8 < TWO64
    requires Run(env, EnterSteps(s), s) == Some(u) && HookReturned(env, u, h)
    ensures Run(env, 9, h).Some?
    ensures var f := Run(env, 9, h).value;
            var r: int := s.regs[RSP];
            && f.rip == Read64(s.mem, r)
            && f.regs[RSP] == r + 8
            && f.regs[RAX] == h.regs[RAX]
            && Block(f.regs).(rax := 0) == BlockAt(h.mem, r - 56).(rax := 0)
            && (forall q: Reg :: !CallerSaved(q) && q != RSP ==> f.regs[q] == s.regs[q])
            && f.mem == h.mem && f.trace == h.trace && f.hook == h.hook
  {
    hide Step, Run, Loaded, Read64;
    StubEnter(env, s);
    StubLeave(env, h);
    Read64Same(s.mem, u.mem, s.regs[RSP]);
  }

  /** The call of the hook entry point is made on a 16-byte boundary exactly when the program's stack pointer was
      8 modulo 16 at the system call instruction, as in a function that has pushed nothing. */
  lemma StackAlignment(env: Env, s: Cpu)
    requires Loaded(env, s.mem) && 0 <= s.rip <= MAX_SYSCALL_NR
    requires s.regs[RSP] >= STUB_END + 72
    ensures Run(env, EnterSteps(s), s).Some?
    ensures var atCall := Run(env, EnterSteps(s), s).value.regs[RSP] as int + 8;
            var atSyscall := s.regs[RSP] as int + 8;
            atCall % 16 == 0 <==> atSyscall % 16 == 8
  {
    hide Step, Run, Loaded, Read64;
    StubEnter(env, s);
  }
}
