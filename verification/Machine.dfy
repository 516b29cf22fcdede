/** A small x86-64: the registers, one flag, byte memory, a byte-level decoder for the instructions the
    trampoline emits (and a few ordinary ones), and a step function. */
module Machine {
  import opened Bytes
  import opened Dispatch

  // ---------------------------------------------------------------------
  // Registers
  // ---------------------------------------------------------------------

  type Reg = r: int | 0 <= r < 16

  const RAX: Reg := 0
  const RCX: Reg := 1
  const RDX: Reg := 2
  const RSP: Reg := 4
  const RSI: Reg := 6
  const RDI: Reg := 7
  const R8: Reg := 8
  const R9: Reg := 9
  const R10: Reg := 10
  const R11: Reg := 11

  type RegFile = r: seq<u64> | |r| == 16 witness [0, 0, 0, 0, 0, 0, 0, 0, 0, 0, 0, 0, 0, 0, 0, 0]

  // ---------------------------------------------------------------------
  // Instructions and their encodings
  // ---------------------------------------------------------------------

  datatype Instr =
    | Nop
    | Ret
    | Syscall
    | Sysenter
    | Push(src: Reg)
    | Pop(dst: Reg)
    | AddImm(dst: Reg, imm: byte)
    | SubImm(dst: Reg, imm: byte)
    | Lea(dst: Reg, base: Reg, disp: byte)
    | MovReg(dst: Reg, src: Reg)
    | Load(dst: Reg, base: Reg, disp: byte)
    | Store(base: Reg, disp: byte, src: Reg)
    | MovImm(dst: Reg, imm64: u64)
    | CallReg(target: Reg)
    | JmpReg(target: Reg)
    | Jmp(rel: byte)
    | Jz(rel: byte)
    | Bad

  /** REX prefix with W set, for a register field `r` and an operand or base field `b`. */
  function RexW(r: Reg, b: Reg): byte {
    0x48 + 4 * (r / 8) + b / 8
  }

  function ModRm(mod: nat, r: Reg, m: Reg): byte
    requires mod < 4
  {
    0x40 * mod + 8 * (r % 8) + m % 8
  }

  /** Register and [base + disp8] operands; a base of rsp or r12 needs an index-free SIB byte. */
  function MemOperand(r: Reg, base: Reg, disp: byte): seq<byte> {
    [ModRm(1, r, base)] + (if base % 8 == 4 then [0x24] else []) + [disp]
  }

  function Encode(i: Instr): (b: seq<byte>)
    requires i != Bad
    ensures 1 <= |b| <= 10
  {
    match i
    case Nop => [0x90]
    case Ret => [0xc3]
    case Syscall => [0x0f, 0x05]
    case Sysenter => [0x0f, 0x34]
    case Push(r) => if r < 8 then [0x50 + r] else [0x41, 0x50 + (r - 8)]
    case Pop(r) => if r < 8 then [0x58 + r] else [0x41, 0x58 + (r - 8)]
    case AddImm(r, imm) => [RexW(0, r), 0x83, ModRm(3, 0, r), imm]
    case SubImm(r, imm) => [RexW(0, r), 0x83, ModRm(3, 5, r), imm]
    case Lea(r, base, disp) => [RexW(r, base), 0x8d] + MemOperand(r, base, disp)
    case MovReg(r, src) => [RexW(src, r), 0x89, ModRm(3, src, r)]
    case Load(r, base, disp) => [RexW(r, base), 0x8b] + MemOperand(r, base, disp)
    case Store(base, disp, src) => [RexW(src, base), 0x89] + MemOperand(src, base, disp)
    case MovImm(r, imm) => [RexW(0, r), 0xb8 + r % 8] + LeBytes(imm, 8)
    case CallReg(r) => if r < 8 then [0xff, 0xd0 + r] else [0x41, 0xff, 0xd0 + (r - 8)]
    case JmpReg(r) => if r < 8 then [0xff, 0xe0 + r] else [0x41, 0xff, 0xe0 + (r - 8)]
    case Jmp(rel) => [0xeb, rel]
    case Jz(rel) => [0x74, rel]
  }

  function Assemble(p: seq<Instr>): seq<byte>
    requires Bad !in p
  {
    if p == [] then [] else Encode(p[0]) + Assemble(p[1..])
  }

  // ---------------------------------------------------------------------
  // Decoding
  // ---------------------------------------------------------------------

  /** An instruction and the number of bytes looked at; for `Bad` these are the bytes that showed it is bad. */
  datatype Decoded = Decoded(instr: Instr, len: nat)

  /** REX bits: operand width, register extension, index extension, base extension. */
  datatype Rex = Rex(w: bool, r: nat, x: nat, b: nat)

  predicate RexOk(rex: Rex) {
    rex.r <= 1 && rex.x <= 1 && rex.b <= 1
  }

  function Decode(c: seq<byte>): Decoded {
    if c == [] then Decoded(Bad, 0)
    else if 0x40 <= c[0] < 0x50 then
      if |c| == 1 then Decoded(Bad, 1)
      else DecodeOp(c, 1, Rex((c[0] / 8) % 2 == 1, (c[0] / 4) % 2, (c[0] / 2) % 2, c[0] % 2))
    else DecodeOp(c, 0, Rex(false, 0, 0, 0))
  }

  function DecodeOp(c: seq<byte>, p: nat, rex: Rex): Decoded
    requires p < |c| && RexOk(rex)
  {
    var op := c[p];
    if 0x50 <= op < 0x58 then Decoded(Push(op - 0x50 + 8 * rex.b), p + 1)
    else if 0x58 <= op < 0x60 then Decoded(Pop(op - 0x58 + 8 * rex.b), p + 1)
    else if op == 0x90 && rex.b == 0 then Decoded(Nop, p + 1)
    else if op == 0xc3 then Decoded(Ret, p + 1)
    else if op == 0x0f then DecodeTwoByte(c, p)
    else if op == 0xeb then if p + 1 < |c| then Decoded(Jmp(c[p + 1]), p + 2) else Decoded(Bad, |c|)
    else if op == 0x74 then if p + 1 < |c| then Decoded(Jz(c[p + 1]), p + 2) else Decoded(Bad, |c|)
    else if op == 0xff then DecodeIndirect(c, p, rex)
    else if op == 0x83 && rex.w then DecodeAddSub(c, p, rex)
    else if (op == 0x89 || op == 0x8b || op == 0x8d) && rex.w then DecodeMov(c, p, rex)
    else if 0xb8 <= op < 0xc0 && rex.w then
      if p + 8 < |c| then Decoded(MovImm(op - 0xb8 + 8 * rex.b, Value64(c[p + 1..p + 9])), p + 9)
      else Decoded(Bad, |c|)
    else Decoded(Bad, p + 1)
  }

  function Value64(b: seq<byte>): u64
    requires |b| == 8
  {
    Pow256Of8();
    LeValue(b)
  }

  function DecodeTwoByte(c: seq<byte>, p: nat): Decoded
    requires p < |c|
  {
    if p + 1 >= |c| then Decoded(Bad, |c|)
    else if c[p + 1] == 0x05 then Decoded(Syscall, p + 2)
    else if c[p + 1] == 0x34 then Decoded(Sysenter, p + 2)
    else Decoded(Bad, p + 2)
  }

  function DecodeIndirect(c: seq<byte>, p: nat, rex: Rex): Decoded
    requires p < |c| && RexOk(rex)
  {
    if p + 1 >= |c| then Decoded(Bad, |c|)
    else if 0xd0 <= c[p + 1] < 0xd8 then Decoded(CallReg(c[p + 1] - 0xd0 + 8 * rex.b), p + 2)
    else if 0xe0 <= c[p + 1] < 0xe8 then Decoded(JmpReg(c[p + 1] - 0xe0 + 8 * rex.b), p + 2)
    else Decoded(Bad, p + 2)
  }

  function DecodeAddSub(c: seq<byte>, p: nat, rex: Rex): Decoded
    requires p < |c| && RexOk(rex)
  {
    if p + 1 >= |c| then Decoded(Bad, |c|)
    else if !(0xc0 <= c[p + 1] < 0xc8 || 0xe8 <= c[p + 1] < 0xf0) then Decoded(Bad, p + 2)
    else if p + 2 >= |c| then Decoded(Bad, |c|)
    else if c[p + 1] < 0xc8 then Decoded(AddImm(c[p + 1] - 0xc0 + 8 * rex.b, c[p + 2]), p + 3)
    else Decoded(SubImm(c[p + 1] - 0xe8 + 8 * rex.b, c[p + 2]), p + 3)
  }

  function WithOperand(op: byte, r: Reg, base: Reg, disp: byte): Instr {
    if op == 0x8d then Lea(r, base, disp) else if op == 0x8b then Load(r, base, disp) else Store(base, disp, r)
  }

  function DecodeMov(c: seq<byte>, p: nat, rex: Rex): Decoded
    requires p < |c| && RexOk(rex)
  {
    if p + 1 >= |c| then Decoded(Bad, |c|)
    else
      var m := c[p + 1];
      var r: Reg := (m / 8) % 8 + 8 * rex.r;
      if m >= 0xc0 then
        if c[p] == 0x89 then Decoded(MovReg(m % 8 + 8 * rex.b, r), p + 2)
        else if c[p] == 0x8b then Decoded(MovReg(r, m % 8 + 8 * rex.b), p + 2)
        else Decoded(Bad, p + 2)
      else if !(0x40 <= m < 0x80) then Decoded(Bad, p + 2)
      else if m % 8 != 4 then
        if p + 2 >= |c| then Decoded(Bad, |c|)
        else Decoded(WithOperand(c[p], r, m % 8 + 8 * rex.b, c[p + 2]), p + 3)
      else if p + 2 >= |c| then Decoded(Bad, |c|)
      else if !((c[p + 2] / 8) % 8 == 4 && rex.x == 0) then Decoded(Bad, p + 3)
      else if p + 3 >= |c| then Decoded(Bad, |c|)
      else Decoded(WithOperand(c[p], r, c[p + 2] % 8 + 8 * rex.b, c[p + 3]), p + 4)
  }

  lemma DecodeLength(c: seq<byte>)
    requires c != []
    ensures 1 <= Decode(c).len <= |c|
  {
  }

  /** The result depends on the bytes looked at and, for a truncated instruction, on where the buffer ends. */
  lemma DecodeLocal(c: seq<byte>, d: seq<byte>)
    requires c != [] && |c| == |d|
    requires Decode(c).len <= |c| && c[..Decode(c).len] == d[..Decode(c).len]
    ensures Decode(d) == Decode(c)
  {
    var n := Decode(c).len;
    DecodeLength(c);
    forall i | 0 <= i < n
      ensures c[i] == d[i]
    {
      assert c[i] == c[..n][i];
      assert d[i] == d[..n][i];
    }
    DecodeLocalAt(c, d);
  }

  lemma DecodeLocalAt(c: seq<byte>, d: seq<byte>)
    requires c != [] && |c| == |d|
    requires Decode(c).len <= |c| && forall i :: 0 <= i < Decode(c).len ==> c[i] == d[i]
    ensures Decode(d) == Decode(c)
  {
    DecodeLength(c);
    var p := if 0x40 <= c[0] < 0x50 then 1 else 0;
    assert c[0] == d[0];
    if p < |c| && Decode(c).instr.MovImm? {
      assert c[p + 1..p + 9] == d[p + 1..p + 9];
    }
  }

  function OpcodeAt(c: seq<byte>): nat {
    if c != [] && 0x40 <= c[0] < 0x50 then 1 else 0
  }

  ghost predicate MovFamily(c: seq<byte>) {
    OpcodeAt(c) < |c| && c[OpcodeAt(c)] in {0x89, 0x8b, 0x8d}
  }

  /** A complete instruction decodes the same whatever follows it. */
  lemma DecodeComplete(c: seq<byte>, d: seq<byte>)
    requires c != [] && Decode(c).instr != Bad
    requires Decode(c).len <= |c| && Decode(c).len <= |d|
    requires forall i :: 0 <= i < Decode(c).len ==> c[i] == d[i]
    ensures Decode(d) == Decode(c)
  {
    if MovFamily(c) {
      DecodeCompleteMov(c, d);
    } else {
      DecodeCompleteOther(c, d);
    }
  }

  lemma DecodeCompleteMov(c: seq<byte>, d: seq<byte>)
    requires c != [] && Decode(c).instr != Bad && MovFamily(c)
    requires Decode(c).len <= |c| && Decode(c).len <= |d|
    requires forall i :: 0 <= i < Decode(c).len ==> c[i] == d[i]
    ensures Decode(d) == Decode(c)
  {
    assert c[0] == d[0];
    assert c[OpcodeAt(c)] == d[OpcodeAt(c)] && c[OpcodeAt(c) + 1] == d[OpcodeAt(c) + 1];
  }

  lemma DecodeCompleteOther(c: seq<byte>, d: seq<byte>)
    requires c != [] && Decode(c).instr != Bad && !MovFamily(c)
    requires Decode(c).len <= |c| && Decode(c).len <= |d|
    requires forall i :: 0 <= i < Decode(c).len ==> c[i] == d[i]
    ensures Decode(d) == Decode(c)
  {
    var p := OpcodeAt(c);
    assert c[0] == d[0] && c[p] == d[p];
    if Decode(c).instr.MovImm? {
      assert c[p + 1..p + 9] == d[p + 1..p + 9];
    }
  }

  // Decoding undoes encoding. The two lemmas on bit fields keep the arithmetic away from the case analysis.

  lemma RexFields(r: Reg, b: Reg)
    ensures 0x48 <= RexW(r, b) < 0x50
    ensures (RexW(r, b) / 8) % 2 == 1 && (RexW(r, b) / 4) % 2 == r / 8
    ensures (RexW(r, b) / 2) % 2 == 0 && RexW(r, b) % 2 == b / 8
  {
  }

  lemma ModRmFields(mod: nat, r: Reg, m: Reg)
    requires mod < 4
    ensures 0x40 * mod <= ModRm(mod, r, m) < 0x40 * (mod + 1)
    ensures (ModRm(mod, r, m) / 8) % 8 == r % 8 && ModRm(mod, r, m) % 8 == m % 8
  {
    var high, low := r % 8, m % 8;
    assert ModRm(mod, r, m) / 8 == 8 * mod + high;
  }

  /** Every instruction decodes to itself, with its own length, whatever follows it. */
  lemma DecodeEncode(i: Instr, rest: seq<byte>)
    requires i != Bad
    ensures Decode(Encode(i) + rest) == Decoded(i, |Encode(i)|)
  {
    match i
    case MovImm(r, imm) => MovImmRoundTrip(r, imm, rest);
    case MovReg(r, src) => MovRegRoundTrip(r, src, rest);
    case Lea(r, base, disp) => MemRoundTrip(0x8d, r, base, disp, rest);
    case Load(r, base, disp) => MemRoundTrip(0x8b, r, base, disp, rest);
    case Store(base, disp, src) => MemRoundTrip(0x89, src, base, disp, rest);
    case AddImm(r, imm) => AddSubRoundTrip(r, imm, rest);
    case SubImm(r, imm) => AddSubRoundTrip(r, imm, rest);
    case _ => ShortRoundTrip(i, rest);
  }

  lemma ShortRoundTrip(i: Instr, rest: seq<byte>)
    requires i.Nop? || i.Ret? || i.Syscall? || i.Sysenter? || i.Push? || i.Pop? || i.CallReg? || i.JmpReg? || i.Jmp? || i.Jz?
    ensures Decode(Encode(i) + rest) == Decoded(i, |Encode(i)|)
  {
  }

  lemma AddSubRoundTrip(r: Reg, imm: byte, rest: seq<byte>)
    ensures Decode(Encode(AddImm(r, imm)) + rest) == Decoded(AddImm(r, imm), 4)
    ensures Decode(Encode(SubImm(r, imm)) + rest) == Decoded(SubImm(r, imm), 4)
  {
    RexFields(0, r);
  }

  lemma MovImmRoundTrip(r: Reg, imm: u64, rest: seq<byte>)
    ensures Decode(Encode(MovImm(r, imm)) + rest) == Decoded(MovImm(r, imm), 10)
  {
    var c := Encode(MovImm(r, imm)) + rest;
    assert c[2..10] == LeBytes(imm, 8);
    Pow256Of8();
    LeRoundTrip(imm, 8);
    RexFields(0, r);
    assert c[0] == RexW(0, r) && c[1] == 0xb8 + r % 8;
  }

  lemma MovRegRoundTrip(r: Reg, src: Reg, rest: seq<byte>)
    ensures Decode(Encode(MovReg(r, src)) + rest) == Decoded(MovReg(r, src), 3)
  {
    RexFields(src, r);
    ModRmFields(3, src, r);
    var c := Encode(MovReg(r, src)) + rest;
    assert c[0] == RexW(src, r) && c[1] == 0x89 && c[2] == ModRm(3, src, r);
  }

  lemma MemRoundTrip(op: byte, r: Reg, base: Reg, disp: byte, rest: seq<byte>)
    requires op == 0x89 || op == 0x8b || op == 0x8d
    ensures var c := [RexW(r, base), op] + MemOperand(r, base, disp);
            Decode(c + rest) == Decoded(WithOperand(op, r, base, disp), |c|)
  {
    RexFields(r, base);
    ModRmFields(1, r, base);
    var c := [RexW(r, base), op] + MemOperand(r, base, disp) + rest;
    MemDecode(c, op, r, base, disp);
    assert [RexW(r, base), op] + MemOperand(r, base, disp) + rest == c;
  }

  lemma MemDecode(c: seq<byte>, op: byte, r: Reg, base: Reg, disp: byte)
    requires op == 0x89 || op == 0x8b || op == 0x8d
    requires |c| >= 4 && c[0] == RexW(r, base) && c[1] == op && c[2] == ModRm(1, r, base)
    requires if base % 8 == 4 then |c| >= 5 && c[3] == 0x24 && c[4] == disp else c[3] == disp
    ensures Decode(c) == Decoded(WithOperand(op, r, base, disp), if base % 8 == 4 then 5 else 4)
  {
    RexFields(r, base);
    ModRmFields(1, r, base);
    var rex := Rex(true, r / 8, 0, base / 8);
    assert Decode(c) == DecodeOp(c, 1, rex) == DecodeMov(c, 1, rex);
  }
}
