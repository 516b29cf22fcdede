/** The code at address zero: its generator, and what executing it does from any machine state. */
module Trampoline {
  import opened Bytes
  import opened Dispatch
  import opened Machine
  import opened Cpu

  const MAX_SYSCALL_NR: nat := 512
  const TRAMPOLINE_SIZE: nat := MAX_SYSCALL_NR + 4096

  /** Addresses below are set aside for the trampoline. */
  const LOW_END: nat := 65536

  // ---------------------------------------------------------------------
  // The stub as a program
  // ---------------------------------------------------------------------

  function Pushes(rs: seq<Reg>): (p: seq<Instr>)
    ensures |p| == |rs| && Bad !in p
  {
    if rs == [] then [] else [Push(rs[0])] + Pushes(rs[1..])
  }

  function Pops(rs: seq<Reg>): (p: seq<Instr>)
    ensures |p| == |rs| && Bad !in p
  {
    if rs == [] then [] else [Pop(rs[0])] + Pops(rs[1..])
  }

  /** Pushed last to first, the saved registers form a register block: rax, rdi, rsi, rdx, r10, r8, r9. */
  const SAVED: seq<Reg> := [R9, R8, R10, RDX, RSI, RDI, RAX]
  const RESTORED: seq<Reg> := [RDI, RSI, RDX, R10, R8, R9]

  /** Align the stack, pass the address of the block, call the hook entry point. */
  function CallHook(hookAddr: u64): (p: seq<Instr>)
    ensures Bad !in p
  {
    [SubImm(RSP, 8), Lea(RDI, RSP, 8), MovImm(R11, hookAddr), CallReg(R11)]
  }

  /** Drop the padding, and drop the saved rax: the hook's result stays in the register. */
  function Unwind(): (p: seq<Instr>)
    ensures Bad !in p
  {
    [AddImm(RSP, 8), AddImm(RSP, 8)]
  }

  function StubProgram(hookAddr: u64): (p: seq<Instr>)
    ensures Bad !in p
  {
    Pushes(SAVED) + CallHook(hookAddr) + Unwind() + Pops(RESTORED) + [Ret]
  }

  const STUB_SIZE: nat := 50

  function Sled(n: nat): (b: seq<byte>)
    ensures |b| == n && forall i :: 0 <= i < n ==> b[i] == 0x90
  {
    seq<byte>(n, i => 0x90)
  }

  function TrampolineCode(hookAddr: u64): seq<byte> {
    Sled(MAX_SYSCALL_NR) + Assemble(StubProgram(hookAddr))
  }

  lemma {:induction false} AssemblePushes(rs: seq<Reg>)
    ensures |Assemble(Pushes(rs))| <= 2 * |rs|
  {
    if rs != [] {
      AssemblePushes(rs[1..]);
      assert Pushes(rs)[1..] == Pushes(rs[1..]);
    }
  }

  // ---------------------------------------------------------------------
  // The generator
  // ---------------------------------------------------------------------

  // The stub's bytes, written out.

  function SaveBytes(): (b: seq<byte>)
    ensures |b| == 10
  {
    [0x41, 0x51, 0x41, 0x50, 0x41, 0x52, 0x52, 0x56, 0x57, 0x50]
  }

  function AlignBytes(): (b: seq<byte>)
    ensures |b| == 9
  {
    [0x48, 0x83, 0xec, 0x08, 0x48, 0x8d, 0x7c, 0x24, 0x08]
  }

  function CallBytes(hookAddr: u64): (b: seq<byte>)
    ensures |b| == 13
  {
    [0x49, 0xbb] + LeBytes(hookAddr, 8) + [0x41, 0xff, 0xd3]
  }

  function UnwindBytes(): (b: seq<byte>)
    ensures |b| == 8
  {
    [0x48, 0x83, 0xc4, 0x08, 0x48, 0x83, 0xc4, 0x08]
  }

  function RestoreBytes(): (b: seq<byte>)
    ensures |b| == 10
  {
    [0x5f, 0x5e, 0x5a, 0x41, 0x5a, 0x41, 0x58, 0x41, 0x59, 0xc3]
  }

  function StubBytes(hookAddr: u64): (b: seq<byte>)
    ensures |b| == STUB_SIZE
  {
    SaveBytes() + AlignBytes() + CallBytes(hookAddr) + UnwindBytes() + RestoreBytes()
  }

  lemma AssembleOne(i: Instr)
    requires i != Bad
    ensures Assemble([i]) == Encode(i)
  {
    hide Encode;
    assert [i][1..] == [];
    assert Assemble([i]) == Encode(i) + [];
  }

  lemma AssembleCons(i: Instr, p: seq<Instr>)
    requires i != Bad && Bad !in p
    ensures Assemble([i] + p) == Encode(i) + Assemble(p)
  {
    hide Encode;
    assert ([i] + p)[1..] == p;
  }

  lemma PushesFrom(rs: seq<Reg>, k: nat)
    requires k < |rs|
    ensures Assemble(Pushes(rs[k..])) == Encode(Push(rs[k])) + Assemble(Pushes(rs[k + 1..]))
  {
    hide Encode;
    assert rs[k..][1..] == rs[k + 1..];
    AssembleCons(Push(rs[k]), Pushes(rs[k + 1..]));
  }

  lemma PopsFrom(rs: seq<Reg>, k: nat)
    requires k < |rs|
    ensures Assemble(Pops(rs[k..])) == Encode(Pop(rs[k])) + Assemble(Pops(rs[k + 1..]))
  {
    hide Encode;
    assert rs[k..][1..] == rs[k + 1..];
    AssembleCons(Pop(rs[k]), Pops(rs[k + 1..]));
  }

  lemma SavedTail()
    ensures Assemble(Pushes(SAVED[3..])) == [0x52, 0x56, 0x57, 0x50]
  {
    assert SAVED[7..] == [];
    assert Assemble(Pushes(SAVED[7..])) == [];
    hide Assemble, Pushes;
    PushesFrom(SAVED, 6);
    PushesFrom(SAVED, 5);
    PushesFrom(SAVED, 4);
    PushesFrom(SAVED, 3);
  }

  lemma SavedBytes()
    ensures Assemble(Pushes(SAVED)) == SaveBytes()
  {
    hide Assemble, Pushes;
    assert SAVED[0..] == SAVED;
    SavedTail();
    PushesFrom(SAVED, 2);
    PushesFrom(SAVED, 1);
    PushesFrom(SAVED, 0);
  }

  lemma RestoredTail()
    ensures Assemble(Pops(RESTORED[3..])) == [0x41, 0x5a, 0x41, 0x58, 0x41, 0x59]
  {
    assert RESTORED[6..] == [];
    assert Assemble(Pops(RESTORED[6..])) == [];
    hide Assemble, Pops;
    PopsFrom(RESTORED, 5);
    PopsFrom(RESTORED, 4);
    PopsFrom(RESTORED, 3);
  }

  lemma RestoredBytes()
    ensures Assemble(Pops(RESTORED)) == RestoreBytes()[..9]
  {
    hide Assemble, Pops;
    assert RESTORED[0..] == RESTORED;
    RestoredTail();
    PopsFrom(RESTORED, 2);
    PopsFrom(RESTORED, 1);
    PopsFrom(RESTORED, 0);
  }

  lemma CallHookAssembled(hookAddr: u64)
    ensures var p := CallHook(hookAddr);
            Assemble(p) == Encode(p[0]) + (Encode(p[1]) + (Encode(p[2]) + Encode(p[3])))
  {
    hide Encode;
    var p := CallHook(hookAddr);
    AssembleOne(p[3]);
    AssembleCons(p[2], [p[3]]);
    AssembleCons(p[1], [p[2], p[3]]);
    AssembleCons(p[0], [p[1], p[2], p[3]]);
    assert [p[2]] + [p[3]] == [p[2], p[3]];
    assert [p[1]] + [p[2], p[3]] == [p[1], p[2], p[3]];
    assert [p[0]] + [p[1], p[2], p[3]] == p;
  }

  lemma CallHookEncodings(hookAddr: u64)
    ensures var p := CallHook(hookAddr);
            && Encode(p[0]) + Encode(p[1]) == AlignBytes()
            && Encode(p[2]) + Encode(p[3]) == CallBytes(hookAddr)
  {
    hide LeBytes;
    assert Encode(CallHook(hookAddr)[1]) == [0x48, 0x8d, 0x7c, 0x24, 0x08];
  }

  lemma CallHookBytes(hookAddr: u64)
    ensures Assemble(CallHook(hookAddr)) == AlignBytes() + CallBytes(hookAddr)
  {
    hide Encode, Assemble, AlignBytes, CallBytes;
    CallHookAssembled(hookAddr);
    CallHookEncodings(hookAddr);
  }

  lemma UnwindAssembled()
    ensures Assemble(Unwind()) == UnwindBytes()
  {
    AssembleOne(AddImm(RSP, 8));
    AssembleCons(AddImm(RSP, 8), [AddImm(RSP, 8)]);
    assert [AddImm(RSP, 8)] + [AddImm(RSP, 8)] == Unwind();
  }

  /** The bytes the generator writes are the encoding of the stub program. */
  lemma StubIsProgram(hookAddr: u64)
    ensures StubBytes(hookAddr) == Assemble(StubProgram(hookAddr))
  {
    hide Encode, Assemble, Pushes, Pops, LeBytes, SaveBytes, AlignBytes, CallBytes, UnwindBytes;
    var a, b, c, d := Pushes(SAVED), CallHook(hookAddr), Unwind(), Pops(RESTORED);
    AssembleAppend(a, b);
    AssembleAppend(a + b, c);
    AssembleAppend(a + b + c, d);
    AssembleAppend(a + b + c + d, [Ret]);
    SavedBytes();
    CallHookBytes(hookAddr);
    UnwindAssembled();
    RestoredBytes();
    RetBytes();
    assert RestoreBytes() == RestoreBytes()[..9] + [0xc3];
  }

  lemma RetBytes()
    ensures Assemble([Ret]) == [0xc3]
  {
    AssembleOne(Ret);
  }

  /** `mem` now holds `code` from `at` on and is otherwise as before. */
  twostate predicate Emitted(mem: array<byte>, at: nat, code: seq<byte>)
    reads mem
  {
    && at + |code| <= mem.Length
    && forall j :: 0 <= j < mem.Length ==> mem[j] == if at <= j < at + |code| then code[j - at] else old(mem[j])
  }

  method GenerateHookStub(mem: array<byte>, at: nat, hookAddr: u64)
    requires at + STUB_SIZE <= mem.Length
    modifies mem
    ensures Emitted(mem, at, Assemble(StubProgram(hookAddr)))
  {
    hide Assemble, StubProgram, LeBytes, SaveBytes, AlignBytes, CallBytes, UnwindBytes, RestoreBytes;
    var offset := EmitSave(mem, at);
    offset := EmitAlign(mem, offset);
    offset := EmitCall(mem, offset, hookAddr);
    offset := EmitUnwind(mem, offset);
    EmitRestore(mem, offset);
    StubIsProgram(hookAddr);
  }

  /** push r9, r8, r10, rdx, rsi, rdi, rax */
  method EmitSave(mem: array<byte>, at: nat) returns (offset: nat)
    requires at + 10 <= mem.Length
    modifies mem
    ensures Emitted(mem, at, SaveBytes())
    ensures offset == at + 10
  {
    offset := at;
    mem[offset], mem[offset + 1] := 0x41, 0x51;
    offset := offset + 2;
    mem[offset], mem[offset + 1] := 0x41, 0x50;
    offset := offset + 2;
    mem[offset], mem[offset + 1] := 0x41, 0x52;
    offset := offset + 2;
    mem[offset] := 0x52;
    offset := offset + 1;
    mem[offset] := 0x56;
    offset := offset + 1;
    mem[offset] := 0x57;
    offset := offset + 1;
    mem[offset] := 0x50;
    offset := offset + 1;
  }

  /** sub rsp, 8; lea rdi, [rsp + 8] */
  method EmitAlign(mem: array<byte>, at: nat) returns (offset: nat)
    requires at + 9 <= mem.Length
    modifies mem
    ensures Emitted(mem, at, AlignBytes())
    ensures offset == at + 9
  {
    offset := at;
    mem[offset], mem[offset + 1], mem[offset + 2], mem[offset + 3] := 0x48, 0x83, 0xec, 0x08;
    offset := offset + 4;
    mem[offset], mem[offset + 1], mem[offset + 2], mem[offset + 3], mem[offset + 4] := 0x48, 0x8d, 0x7c, 0x24, 0x08;
    offset := offset + 5;
  }

  /** movabs r11, hook_entry; call r11 */
  method EmitCall(mem: array<byte>, at: nat, hookAddr: u64) returns (offset: nat)
    requires at + 13 <= mem.Length
    modifies mem
    ensures Emitted(mem, at, CallBytes(hookAddr))
    ensures offset == at + 13
  {
    offset := at;
    mem[offset], mem[offset + 1] := 0x49, 0xbb;
    var addrBytes := LeBytes(hookAddr, 8);
    forall i | 0 <= i < 8 {
      mem[offset + 2 + i] := addrBytes[i];
    }
    offset := offset + 10;
    mem[offset], mem[offset + 1], mem[offset + 2] := 0x41, 0xff, 0xd3;
    offset := offset + 3;
  }

  /** add rsp, 8 (the padding); add rsp, 8 (the saved rax) */
  method EmitUnwind(mem: array<byte>, at: nat) returns (offset: nat)
    requires at + 8 <= mem.Length
    modifies mem
    ensures Emitted(mem, at, UnwindBytes())
    ensures offset == at + 8
  {
    offset := at;
    mem[offset], mem[offset + 1], mem[offset + 2], mem[offset + 3] := 0x48, 0x83, 0xc4, 0x08;
    offset := offset + 4;
    mem[offset], mem[offset + 1], mem[offset + 2], mem[offset + 3] := 0x48, 0x83, 0xc4, 0x08;
    offset := offset + 4;
  }

  /** pop rdi, rsi, rdx, r10, r8, r9; ret */
  method EmitRestore(mem: array<byte>, at: nat)
    requires at + 10 <= mem.Length
    modifies mem
    ensures Emitted(mem, at, RestoreBytes())
  {
    var offset := EmitLowPops(mem, at);
    offset := EmitHighPops(mem, offset);
    mem[offset] := 0xc3;
  }

  method EmitLowPops(mem: array<byte>, at: nat) returns (offset: nat)
    requires at + 3 <= mem.Length
    modifies mem
    ensures Emitted(mem, at, [0x5f, 0x5e, 0x5a])
    ensures offset == at + 3
  {
    offset := at;
    mem[offset] := 0x5f;
    offset := offset + 1;
    mem[offset] := 0x5e;
    offset := offset + 1;
    mem[offset] := 0x5a;
    offset := offset + 1;
  }

  method EmitHighPops(mem: array<byte>, at: nat) returns (offset: nat)
    requires at + 6 <= mem.Length
    modifies mem
    ensures Emitted(mem, at, [0x41, 0x5a, 0x41, 0x58, 0x41, 0x59])
    ensures offset == at + 6
  {
    offset := at;
    mem[offset], mem[offset + 1] := 0x41, 0x5a;
    offset := offset + 2;
    mem[offset], mem[offset + 1] := 0x41, 0x58;
    offset := offset + 2;
    mem[offset], mem[offset + 1] := 0x41, 0x59;
    offset := offset + 2;
  }

  method GenerateTrampolineCode(mem: array<byte>, hookAddr: u64)
    requires MAX_SYSCALL_NR + STUB_SIZE <= mem.Length
    modifies mem
    ensures Emitted(mem, 0, TrampolineCode(hookAddr))
  {
    hide Assemble, StubProgram;
    for i := 0 to MAX_SYSCALL_NR
      invariant forall j :: 0 <= j < i ==> mem[j] == 0x90
      invariant forall j :: i <= j < mem.Length ==> mem[j] == old(mem[j])
    {
      mem[i] := 0x90;
    }
    StubIsProgram(hookAddr);
    GenerateHookStub(mem, MAX_SYSCALL_NR, hookAddr);
  }
}
