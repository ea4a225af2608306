/**
 * The tiny 16-bit x86 opcode classifier (src/x86.rs): `eat` classifies the
 * instruction at the start of a byte slice, `Inst::len` gives its length,
 * and the decode loop of `disassemble` walks the code, resynchronising one
 * byte at a time on anything it does not recognise.
 */
module X86 {

  import opened Endian
  import opened Stream

  datatype RegisterOpKind = Inc | Dec | Push | Pop

  datatype RegMemOpKind = Add | Or | Adc | Sbb | And | Sub | Xor | Cmp | Mov

  datatype GeneralRegister = Ax | Cx | Dx | Bx | Sp | Bp | Si | Di

  datatype InstKind =
    | RegisterOp(opKind: RegisterOpKind, register: GeneralRegister)
    | RegMemOp(memKind: RegMemOpKind, inverse: bool, wide: bool, modrm: byte)
    | Unknown(opcode: byte)

  datatype Inst = Inst(pos: nat, kind: InstKind)

  /** The register number of the 3-bit register field (Intel SDM Vol. 2A, section 2.1.5). */
  function RegisterId(r: GeneralRegister): (id: nat)
    ensures id < 8
  {
    match r
    case Ax => 0 case Cx => 1 case Dx => 2 case Bx => 3
    case Sp => 4 case Bp => 5 case Si => 6 case Di => 7
  }

  /** `GeneralRegister::from_id`: an index into the eight registers; 8 or more panics. */
  function FromId(value: byte): (r: GeneralRegister)
    requires value < 8
    ensures RegisterId(r) == value
  {
    [Ax, Cx, Dx, Bx, Sp, Bp, Si, Di][value]
  }

  /** Every register is the one its own number names. */
  lemma FromIdOfRegisterId(r: GeneralRegister)
    ensures FromId(RegisterId(r)) == r
  {
  }

  /** `Inst::len`. */
  function Len(i: Inst): (n: nat)
    ensures 1 <= n <= 2
    ensures n == 2 <==> i.kind.RegMemOp?
  {
    match i.kind
    case RegisterOp(_, _) => 1
    case RegMemOp(_, _, _, _) => 2
    case Unknown(_) => 1
  }

  /*
   * The shifts and masks of `eat` on a u8, written as division and
   * remainder: `b >> k` is `b / 2^k` and `b & (2^k - 1)` is `b % 2^k`.
   */

  /** `(b >> 3) & 3`. */
  function RowLow2(b: byte): nat
  {
    (b / 8) % 4
  }

  /** `(b >> 3) & 7`. */
  function RowLow3(b: byte): nat
  {
    (b / 8) % 8
  }

  /** `b & 7`. */
  function Low3(b: byte): byte
  {
    b % 8
  }

  /** `b & 2^i != 0`. */
  function BitSet(b: byte, i: nat): bool
    requires i < 8
  {
    (b / [1, 2, 4, 8, 16, 32, 64, 128][i]) % 2 == 1
  }

  const RegisterOpKinds: seq<RegisterOpKind> := [Inc, Dec, Push, Pop]

  /** The table `eat` indexes for the arithmetic group, as written: `Add` twice, no `And`. */
  const AluKindsAsWritten: seq<RegMemOpKind> := [Add, Or, Adc, Sbb, Add, Sub, Xor, Cmp]

  /** The eight arithmetic operations of opcode rows 0..7 of the one-byte opcode map. */
  const AluKinds: seq<RegMemOpKind> := [Add, Or, Adc, Sbb, And, Sub, Xor, Cmp]

  /** An operand-form opcode of the arithmetic group: below 0x40, bit 2 clear. */
  predicate IsAluOpcode(b: byte)
  {
    b < 0x40 && !BitSet(b, 2)
  }

  /** The two-byte register/memory form with the `inverse` (bit 1) and `wide` (bit 0) flags. */
  function RegMem(kind: RegMemOpKind, b: byte, modrm: byte): InstKind
  {
    RegMemOp(kind, BitSet(b, 1), BitSet(b, 0), modrm)
  }

  /** `eat` as written: the arithmetic kind is looked up at `(b >> 3) & 3`. */
  function EatAsWritten(code: seq<byte>): (r: Option<Inst>)
    requires |code| >= 1
    ensures r.Some? ==> r.value.pos == 0 && Len(r.value) <= |code|
  {
    var b := code[0];
    if 0x40 <= b < 0x60 then
      Some(Inst(0, RegisterOp(RegisterOpKinds[RowLow2(b)], FromId(Low3(b)))))
    else if IsAluOpcode(b) then
      if |code| < 2 then None else Some(Inst(0, RegMem(AluKindsAsWritten[RowLow2(b)], b, code[1])))
    else if 0x88 <= b < 0x8C then
      if |code| < 2 then None else Some(Inst(0, RegMem(Mov, b, code[1])))
    else
      None
  }

  /** `eat` with the evidently intended lookup: the kind at `(b >> 3) & 7` of the eight-entry table. */
  function Eat(code: seq<byte>): (r: Option<Inst>)
    requires |code| >= 1
    ensures r.Some? ==> r.value.pos == 0 && Len(r.value) <= |code|
  {
    var b := code[0];
    if 0x40 <= b < 0x60 then
      Some(Inst(0, RegisterOp(RegisterOpKinds[RowLow2(b)], FromId(Low3(b)))))
    else if IsAluOpcode(b) then
      if |code| < 2 then None else Some(Inst(0, RegMem(AluKinds[RowLow3(b)], b, code[1])))
    else if 0x88 <= b < 0x8C then
      if |code| < 2 then None else Some(Inst(0, RegMem(Mov, b, code[1])))
    else
      None
  }

  /**
   * The classification `eat` makes, by opcode byte: 0x40..0x5F is a one-byte
   * register operation (inc, dec, push, pop by row, register in the low three
   * bits); an arithmetic opcode or 0x88..0x8B is a two-byte register/memory
   * operation, but only when a second byte follows; anything else is not
   * recognised.
   */
  lemma EatClassifies(code: seq<byte>)
    requires |code| >= 1
    ensures var b := code[0];
      && (Eat(code).Some? <==>
            0x40 <= b < 0x60 || (|code| >= 2 && (IsAluOpcode(b) || 0x88 <= b < 0x8C)))
      && (Eat(code).Some? ==> Eat(code).value.pos == 0)
      && (Eat(code).Some? ==> (Eat(code).value.kind.RegisterOp? <==> 0x40 <= b < 0x60))
  {
  }

  /** A byte in 0x40..0x5F: inc, dec, push or pop (rows 8..11), of the register numbered by the low three bits. */
  lemma EatRegisterOp(code: seq<byte>)
    requires |code| >= 1 && 0x40 <= code[0] < 0x60
    ensures Eat(code).Some? && Len(Eat(code).value) == 1
    ensures var k := Eat(code).value.kind;
      && k.RegisterOp?
      && k.opKind == RegisterOpKinds[(code[0] - 0x40) / 8]
      && RegisterId(k.register) == code[0] % 8
  {
  }

  /** An arithmetic opcode with a second byte: the row's operation, flags from bits 1 and 0, the next byte as ModRM. */
  lemma EatAluOp(code: seq<byte>)
    requires |code| >= 2 && code[0] < 0x40 && (code[0] / 4) % 2 == 0
    ensures Eat(code).Some? && Len(Eat(code).value) == 2
    ensures var k := Eat(code).value.kind;
      && k.RegMemOp?
      && k.memKind == AluKinds[code[0] / 8]
      && (k.inverse <==> (code[0] / 2) % 2 == 1)
      && (k.wide <==> code[0] % 2 == 1)
      && k.modrm == code[1]
  {
  }

  /** 0x88..0x8B with a second byte: `mov`, with the same flag and ModRM rule. */
  lemma EatMovOp(code: seq<byte>)
    requires |code| >= 2 && 0x88 <= code[0] < 0x8C
    ensures Eat(code).Some? && Len(Eat(code).value) == 2
    ensures var k := Eat(code).value.kind;
      && k == RegMemOp(Mov, (code[0] / 2) % 2 == 1, code[0] % 2 == 1, code[1])
  {
  }

  /** The evidently intended property: each of the eight arithmetic operations comes from exactly one opcode row. */
  lemma AluKindPerRow(b1: byte, b2: byte)
    requires IsAluOpcode(b1) && IsAluOpcode(b2)
    ensures var k1, k2 := Eat([b1, 0]).value.kind, Eat([b2, 0]).value.kind;
      k1.memKind == k2.memKind <==> b1 / 8 == b2 / 8
  {
  }

  /** As written, `sub al, al` (0x28 0xC0) is classified as `or`, and 0x20 (`and`) as `add`. */
  lemma AsWrittenMisclassifies()
    ensures EatAsWritten([0x28, 0xC0]) == Some(Inst(0, RegMemOp(Or, false, false, 0xC0)))
    ensures Eat([0x28, 0xC0]) == Some(Inst(0, RegMemOp(Sub, false, false, 0xC0)))
    ensures EatAsWritten([0x20, 0xC0]).value.kind.memKind == EatAsWritten([0x00, 0xC0]).value.kind.memKind == Add
  {
    assert RowLow2(0x28) == 1 && RowLow3(0x28) == 5;
    assert !BitSet(0x28, 0) && !BitSet(0x28, 1) && !BitSet(0x28, 2);
    assert RowLow2(0x20) == 0 && !BitSet(0x20, 2) && !BitSet(0x00, 2);
  }

  /** As written, an arithmetic opcode never decodes to `and`, `sub`, `xor` or `cmp`. */
  lemma AsWrittenMissesUpperRows(code: seq<byte>)
    requires |code| >= 1 && EatAsWritten(code).Some? && EatAsWritten(code).value.kind.RegMemOp?
    ensures EatAsWritten(code).value.kind.memKind in {Add, Or, Adc, Sbb, Mov}
  {
  }

  /** The two versions recognise the same instructions with the same lengths and operands: only the arithmetic kind of rows 4..7 differs. */
  lemma EatAgreesWithAsWritten(code: seq<byte>)
    requires |code| >= 1
    ensures Eat(code).Some? <==> EatAsWritten(code).Some?
    ensures Eat(code).Some? ==> Len(Eat(code).value) == Len(EatAsWritten(code).value)
    ensures Eat(code).Some? && code[0] < 0x20 ==> Eat(code) == EatAsWritten(code)
    ensures Eat(code).Some? && IsAluOpcode(code[0]) && code[0] >= 0x20 ==>
      Eat(code).value.kind.memKind != EatAsWritten(code).value.kind.memKind
  {
  }

  /** One step of the decode loop: the recognised instruction at `pos`, or `Unknown(code[pos])`. */
  function DecodeAt(code: seq<byte>, pos: nat): (i: Inst)
    requires pos < |code|
    ensures i.pos == pos && pos + Len(i) <= |code|
  {
    match Eat(code[pos..])
    case Some(inst) => Inst(pos, inst.kind)
    case None => Inst(pos, Unknown(code[pos]))
  }

  /** A step yields `Unknown` of length 1 exactly when `eat` does not recognise the bytes at `pos`. */
  lemma DecodeAtUnknown(code: seq<byte>, pos: nat)
    requires pos < |code|
    ensures DecodeAt(code, pos).kind.Unknown? <==> Eat(code[pos..]).None?
    ensures DecodeAt(code, pos).kind.Unknown? ==>
      DecodeAt(code, pos).kind.opcode == code[pos] && Len(DecodeAt(code, pos)) == 1
  {
  }

  /** The instructions the decode loop records from `pos` to the end of the code. */
  function Disassembly(code: seq<byte>, pos: nat): (insts: seq<Inst>)
    ensures insts == [] <==> pos >= |code|
    ensures pos <= |code| ==> |insts| <= |code| - pos
    decreases |code| - pos
  {
    if pos >= |code| then []
    else
      var inst := DecodeAt(code, pos);
      [inst] + Disassembly(code, pos + Len(inst))
  }

  /**
   * The decode loop covers the code exactly: the first instruction is at
   * `pos`, each next one starts where the previous ends (so positions
   * strictly increase), the last one ends at the end of the code, and each
   * instruction is the decoding at its own position.
   */
  lemma DisassemblyCovers(code: seq<byte>, pos: nat)
    requires pos <= |code|
    ensures var d := Disassembly(code, pos);
      && (|d| == 0 <==> pos == |code|)
      && (|d| > 0 ==> d[0].pos == pos && d[|d| - 1].pos + Len(d[|d| - 1]) == |code|)
      && (forall k :: 0 <= k < |d| - 1 ==> d[k + 1].pos == d[k].pos + Len(d[k]))
      && (forall k :: 0 <= k < |d| ==> d[k].pos < |code| && d[k] == DecodeAt(code, d[k].pos))
  {
    DisassemblyChained(code, pos);
    DisassemblyDecodes(code, pos);
  }

  /** The positions chain from `pos` to the end of the code, each instruction starting where the previous one ends. */
  lemma {:induction false} DisassemblyChained(code: seq<byte>, pos: nat)
    requires pos <= |code|
    ensures var d := Disassembly(code, pos);
      && (|d| == 0 <==> pos == |code|)
      && (|d| > 0 ==> d[0].pos == pos && d[|d| - 1].pos + Len(d[|d| - 1]) == |code|)
      && (forall k :: 0 <= k < |d| - 1 ==> d[k + 1].pos == d[k].pos + Len(d[k]))
    decreases |code| - pos
  {
    if pos < |code| {
      var inst := DecodeAt(code, pos);
      var rest := Disassembly(code, pos + Len(inst));
      DisassemblyChained(code, pos + Len(inst));
      var d := [inst] + rest;
      assert d == Disassembly(code, pos) && d[0] == inst && inst.pos == pos;
      if rest != [] {
        assert d[|d| - 1] == rest[|rest| - 1];
        assert d[1].pos == d[0].pos + Len(d[0]);
      }
      forall k | 1 <= k < |d| - 1 ensures d[k + 1].pos == d[k].pos + Len(d[k]) {
        assert d[k + 1] == rest[k] && d[k] == rest[k - 1];
      }
    }
  }

  /** Every instruction lies inside the code and is the decoding at its own position. */
  lemma {:induction false} DisassemblyDecodes(code: seq<byte>, pos: nat)
    requires pos <= |code|
    ensures forall k :: 0 <= k < |Disassembly(code, pos)| ==>
      pos <= Disassembly(code, pos)[k].pos < |code|
      && Disassembly(code, pos)[k] == DecodeAt(code, Disassembly(code, pos)[k].pos)
    decreases |code| - pos
  {
    if pos < |code| {
      var inst := DecodeAt(code, pos);
      var rest := Disassembly(code, pos + Len(inst));
      DisassemblyDecodes(code, pos + Len(inst));
      var d := [inst] + rest;
      assert inst.pos == pos;
      assert forall k :: 1 <= k < |d| ==> d[k] == rest[k - 1];
    }
  }

  /** Total length: the instruction lengths add up to exactly the bytes from `pos`. */
  lemma {:induction false} DisassemblyLength(code: seq<byte>, pos: nat)
    requires pos <= |code|
    ensures SumSizes(Len, Disassembly(code, pos)) == |code| - pos
    ensures (|code| - pos + 1) / 2 <= |Disassembly(code, pos)| <= |code| - pos
    decreases |code| - pos
  {
    if pos < |code| {
      var inst := DecodeAt(code, pos);
      DisassemblyLength(code, pos + Len(inst));
      assert ([inst] + Disassembly(code, pos + Len(inst)))[1..] == Disassembly(code, pos + Len(inst));
    }
  }

  /** Two instruction lists of the same length whose instructions sit at the same positions. */
  predicate SamePositions(d1: seq<Inst>, d2: seq<Inst>)
  {
    |d1| == |d2| && forall k :: 0 <= k < |d1| ==> d1[k].pos == d2[k].pos
  }

  lemma SamePositionsCons(a: Inst, b: Inst, r1: seq<Inst>, r2: seq<Inst>)
    requires a.pos == b.pos && SamePositions(r1, r2)
    ensures SamePositions([a] + r1, [b] + r2)
  {
    forall k | 1 <= k < |r1| + 1 ensures ([a] + r1)[k].pos == ([b] + r2)[k].pos {
      assert ([a] + r1)[k] == r1[k - 1] && ([b] + r2)[k] == r2[k - 1];
    }
  }

  /** The loop yields the same positions whichever lookup table `eat` uses. */
  lemma {:induction false} DisassemblyPositionsAgree(code: seq<byte>, pos: nat)
    requires pos <= |code|
    ensures SamePositions(Disassembly(code, pos), DisassemblyAsWritten(code, pos))
    decreases |code| - pos
  {
    if pos < |code| {
      var inst := DecodeAt(code, pos);
      DecodeLengthsAgree(code, pos);
      DisassemblyPositionsAgree(code, pos + Len(inst));
      SamePositionsCons(inst, DecodeAtAsWritten(code, pos),
        Disassembly(code, pos + Len(inst)), DisassemblyAsWritten(code, pos + Len(inst)));
    }
  }

  /** A decode step has the same length with either lookup table. */
  lemma DecodeLengthsAgree(code: seq<byte>, pos: nat)
    requires pos < |code|
    ensures Len(DecodeAt(code, pos)) == Len(DecodeAtAsWritten(code, pos))
  {
    EatAgreesWithAsWritten(code[pos..]);
  }

  /** The decode loop step with `eat` as written. */
  function DecodeAtAsWritten(code: seq<byte>, pos: nat): (i: Inst)
    requires pos < |code|
    ensures i.pos == pos && pos + Len(i) <= |code|
  {
    match EatAsWritten(code[pos..])
    case Some(inst) => Inst(pos, inst.kind)
    case None => Inst(pos, Unknown(code[pos]))
  }

  /** The decode loop output with `eat` as written. */
  function DisassemblyAsWritten(code: seq<byte>, pos: nat): (insts: seq<Inst>)
    ensures insts == [] <==> pos >= |code|
    ensures pos <= |code| ==> |insts| <= |code| - pos
    decreases |code| - pos
  {
    if pos >= |code| then []
    else
      var inst := DecodeAtAsWritten(code, pos);
      [inst] + DisassemblyAsWritten(code, pos + Len(inst))
  }

  /** `split233`: a ModRM byte as its mod (2 bits), reg (3 bits) and r/m (3 bits) fields. */
  function Split233(b: byte): (t: (byte, byte, byte))
    ensures t.0 < 4 && t.1 < 8 && t.2 < 8
    ensures t.0 * 64 + t.1 * 8 + t.2 == b
  {
    (b / 64, (b / 8) % 8, b % 8)
  }

  /** The three fields determine the byte: any fields in range that recompose to it are its split. */
  lemma Split233Unique(b: byte, m: nat, r: nat, x: nat)
    requires m < 4 && r < 8 && x < 8 && m * 64 + r * 8 + x == b
    ensures Split233(b) == (m, r, x)
  {
  }

  /** One step of the loop: the instruction at `pos` is the next one of the listing. */
  lemma DisassemblyStep(code: seq<byte>, pos: nat, insts: seq<Inst>)
    requires pos < |code|
    ensures insts + Disassembly(code, pos)
      == (insts + [DecodeAt(code, pos)]) + Disassembly(code, pos + Len(DecodeAt(code, pos)))
  {
  }

  /** The decode loop of `disassemble`: decode, record at the current position, advance by the length. */
  method Disassemble(code: seq<byte>) returns (insts: seq<Inst>)
    ensures insts == Disassembly(code, 0)
  {
    insts := [];
    var pos: nat := 0;
    while pos < |code|
      invariant pos <= |code|
      invariant Disassembly(code, 0) == insts + Disassembly(code, pos)
      decreases |code| - pos
    {
      var inst := DecodeAt(code, pos);
      DisassemblyStep(code, pos, insts);
      pos := pos + Len(inst);
      insts := insts + [inst];
    }
    assert insts + [] == insts;
  }
}
