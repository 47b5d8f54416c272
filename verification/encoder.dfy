/**
  The instruction encoder `binInstruction` of main.cpp: a token list
  `{mnemonic, operand...}` becomes one 32-bit word laid out as in the MIPS32
  R, I and J formats (opcode in bits 31-26, rs 25-21, rt 20-16, rd 15-11,
  shamt 10-6, funct 5-0; I immediate in 15-0; J target in 25-0).

  Register operands go through `regCode`, numeric operands through
  `std::stoi`. A failed register lookup only zeroes its field; an empty
  list, an unknown mnemonic or a wrong operand count gives the word 0.
  When `std::stoi` throws, nothing catches the exception and the assembler
  terminates: that outcome is `Crash`.
*/
module Encoder {
  import opened Wrappers
  import opened Decimal
  import opened Definitions
  import opened Registers

  datatype Encoding = Word(bits: bv32) | Crash

  function OpcodeOf(w: bv32): bv32 { w >> 26 }
  function RsOf(w: bv32): bv32 { (w >> 21) & 0x1F }
  function RtOf(w: bv32): bv32 { (w >> 16) & 0x1F }
  function RdOf(w: bv32): bv32 { (w >> 11) & 0x1F }
  function ShamtOf(w: bv32): bv32 { (w >> 6) & 0x1F }
  function FunctOf(w: bv32): bv32 { w & 0x3F }
  function ImmOf(w: bv32): bv32 { w & 0xFFFF }
  function TargetOf(w: bv32): bv32 { w & 0x3FF_FFFF }

  /** A number below 32 as a 5-bit field value. */
  function Field5(n: nat): (r: bv32)
    requires n < 32
    ensures r < 32
  {
    n as bv32
  }

  /** A register field: `regCode(s)` as the `uint32_t` it returns. */
  function Reg(s: string): (r: bv32)
    ensures r < 32
  {
    Field5(RegCode(s))
  }

  /** Conversion of an `int` to `uint32_t`: reduction modulo 2^32. */
  function Wrap32(v: int): bv32 {
    (v % 0x1_0000_0000) as bv32
  }

  /**
    The low 16 bits of an `int` as a number: a value that fits is kept, a
    negative one down to -2^16 takes its 16-bit two's complement, and in
    general the result is the value reduced modulo 2^16.
  */
  function Low16Value(v: int): (r: nat)
    ensures r < 0x1_0000
    ensures 0 <= v < 0x1_0000 ==> r == v
    ensures -0x1_0000 <= v < 0 ==> r == v + 0x1_0000
    ensures (v - r) % 0x1_0000 == 0
  {
    v % 0x1_0000
  }

  /** The low 26 bits of an `int` as a number, in the same way. */
  function Low26Value(v: int): (r: nat)
    ensures r < 0x400_0000
    ensures 0 <= v < 0x400_0000 ==> r == v
    ensures -0x400_0000 <= v < 0 ==> r == v + 0x400_0000
    ensures (v - r) % 0x400_0000 == 0
  {
    v % 0x400_0000
  }

  /** `v & 0xFFFF` on an `int`, as the word's immediate field. */
  function Low16(v: int): (r: bv32)
    ensures r < 0x1_0000
  {
    Low16Value(v) as bv32
  }

  /** `v & 0x3FFFFFF` on an `int`, as the word's target field. */
  function Low26(v: int): (r: bv32)
    ensures r < 0x400_0000
  {
    Low26Value(v) as bv32
  }

  /** The R layout, fields already in range. */
  function PackR(op: bv32, rs: bv32, rt: bv32, rd: bv32, shamt: bv32, funct: bv32): bv32 {
    (op << 26) | (rs << 21) | (rt << 16) | (rd << 11) | (shamt << 6) | funct
  }

  /** The I layout; `imm` is already reduced to 16 bits. */
  function PackI(op: bv32, rs: bv32, rt: bv32, imm: bv32): bv32 {
    (op << 26) | (rs << 21) | (rt << 16) | imm
  }

  /** The J layout; `target` is already reduced to 26 bits. */
  function PackJ(op: bv32, target: bv32): bv32 {
    (op << 26) | target
  }

  /** Extracting the fields of a packed R word gives back what was packed. */
  lemma PackRFields(op: bv32, rs: bv32, rt: bv32, rd: bv32, shamt: bv32, funct: bv32)
    requires op < 64 && rs < 32 && rt < 32 && rd < 32 && shamt < 32 && funct < 64
    ensures var w := PackR(op, rs, rt, rd, shamt, funct);
            && OpcodeOf(w) == op && RsOf(w) == rs && RtOf(w) == rt
            && RdOf(w) == rd && ShamtOf(w) == shamt && FunctOf(w) == funct
  {
  }

  lemma PackIFields(op: bv32, rs: bv32, rt: bv32, imm: bv32)
    requires op < 64 && rs < 32 && rt < 32 && imm < 0x1_0000
    ensures var w := PackI(op, rs, rt, imm);
            OpcodeOf(w) == op && RsOf(w) == rs && RtOf(w) == rt && ImmOf(w) == imm
  {
  }

  lemma PackJFields(op: bv32, target: bv32)
    requires op < 64 && target < 0x400_0000
    ensures var w := PackJ(op, target); OpcodeOf(w) == op && TargetOf(w) == target
  {
  }

  /** Operand counts each format class accepts (the NULL class ignores its operands). */
  predicate ArityFits(f: FormatClass, n: nat) {
    match f
    case TypeR => n == 2 || n == 4
    case TypeRShift => n == 4
    case TypeI => n == 3 || n == 4
    case TypeJ => n == 2
    case TypeNull => true
  }

  /**
    The one input the source leaves undefined: a three-token I-type list,
    for which `binInstruction` reads `parts[3]` past the end.
  */
  predicate ReadsPastEnd(c: InstructionCodes, parts: seq<string>) {
    c.format == TypeI && |parts| == 3
  }

  /** The operand that goes through `std::stoi` for class `f`, if any. */
  predicate NumericOperandFails(f: FormatClass, parts: seq<string>) {
    match f
    case TypeRShift => |parts| == 4 && Stoi(parts[3]).None?
    case TypeI => |parts| == 4 && Stoi(parts[3]).None?
    case TypeJ => |parts| == 2 && Stoi(parts[1]).None?
    case _ => false
  }

  /** The `switch (instruction_codes.format)` of `binInstruction`, for a found entry `c`. */
  function EncodeWith(c: InstructionCodes, parts: seq<string>): (r: Encoding)
    requires |parts| > 0
    requires !ReadsPastEnd(c, parts)
    ensures c.format == TypeNull ==> r == Word(0)
    ensures !ArityFits(c.format, |parts|) ==> r == Word(0)
    ensures r == Crash <==> NumericOperandFails(c.format, parts)
  {
    var op := c.opCode;
    match c.format
    case TypeR =>
      if |parts| == 2 then Word((op << 26) | (Reg(parts[1]) << 21) | c.funct)
      else if |parts| != 4 then Word(0)
      else Word(PackR(op, Reg(parts[2]), Reg(parts[3]), Reg(parts[1]), 0, c.funct))
    case TypeRShift =>
      if |parts| != 4 then Word(0)
      else
        match Stoi(parts[3]) {
          case None => Crash
          case Some(shamt) =>
            Word((op << 26) | (Reg(parts[2]) << 16) | (Reg(parts[1]) << 11) | Wrap32(shamt * 64) | c.funct)
        }
    case TypeI =>
      if |parts| != 3 && |parts| != 4 then Word(0)
      else
        match Stoi(parts[3]) {
          case None => Crash
          case Some(imm) => Word(PackI(op, Reg(parts[2]), Reg(parts[1]), Low16(imm)))
        }
    case TypeJ =>
      if |parts| != 2 then Word(0)
      else
        match Stoi(parts[1]) {
          case None => Crash
          case Some(target) => Word(PackJ(op, Low26(target)))
        }
    case TypeNull => Word(0)
  }

  /** Token lists the encoder is defined on: all but the three-token I-type list. */
  predicate Encodable(parts: seq<string>) {
    |parts| == 0 || Parse(parts[0]).None? || !ReadsPastEnd(Codes(Parse(parts[0]).value), parts)
  }

  /** `binInstruction`. */
  function Encode(parts: seq<string>): (r: Encoding)
    requires Encodable(parts)
    ensures |parts| == 0 ==> r == Word(0)
    ensures |parts| > 0 && Parse(parts[0]).None? ==> r == Word(0)
    ensures |parts| > 0 && Parse(parts[0]).Some? ==> r == EncodeWith(Codes(Parse(parts[0]).value), parts)
  {
    if |parts| == 0 then Word(0)
    else
      match Parse(parts[0])
      case None => Word(0)
      case Some(m) => EncodeWith(Codes(m), parts)
  }

  /** R with four tokens `{m, rd, rs, rt}`: rs = parts[2], rt = parts[3], rd = parts[1], funct. */
  lemma {:induction false} EncodeRegisterFields(parts: seq<string>, m: Mnemonic)
    requires |parts| == 4 && Parse(parts[0]) == Some(m) && Codes(m).format == TypeR
    ensures Encode(parts).Word?
    ensures var w := Encode(parts).bits;
            && OpcodeOf(w) == 0 && RsOf(w) == Reg(parts[2]) && RtOf(w) == Reg(parts[3])
            && RdOf(w) == Reg(parts[1]) && ShamtOf(w) == 0 && FunctOf(w) == Codes(m).funct
  {
    CodesFitSixBits(m);
    PackRFields(Codes(m).opCode, Reg(parts[2]), Reg(parts[3]), Reg(parts[1]), 0, Codes(m).funct);
  }

  /** R with two tokens (`jr r`): the register goes to rs, every other field but funct is 0. */
  lemma {:induction false} EncodeJumpRegisterFields(parts: seq<string>, m: Mnemonic)
    requires |parts| == 2 && Parse(parts[0]) == Some(m) && Codes(m).format == TypeR
    ensures Encode(parts).Word?
    ensures var w := Encode(parts).bits;
            && OpcodeOf(w) == 0 && RsOf(w) == Reg(parts[1]) && RtOf(w) == 0
            && RdOf(w) == 0 && ShamtOf(w) == 0 && FunctOf(w) == Codes(m).funct
  {
    CodesFitSixBits(m);
    assert Encode(parts).bits == PackR(0, Reg(parts[1]), 0, 0, 0, Codes(m).funct);
    PackRFields(0, Reg(parts[1]), 0, 0, 0, Codes(m).funct);
  }

  /** The R layout of a four-token list. */
  lemma RegisterLayout(parts: seq<string>, m: Mnemonic)
    requires |parts| == 4 && Parse(parts[0]) == Some(m) && Codes(m).format == TypeR
    ensures Encode(parts) == Word(PackR(Codes(m).opCode, Reg(parts[2]), Reg(parts[3]), Reg(parts[1]), 0, Codes(m).funct))
  {
  }

  /** The I layout of a four-token list whose immediate converts. */
  lemma ImmediateLayout(parts: seq<string>, m: Mnemonic, imm: int)
    requires |parts| == 4 && Parse(parts[0]) == Some(m) && Codes(m).format == TypeI
    requires Stoi(parts[3]) == Some(imm)
    ensures Encode(parts) == Word(PackI(Codes(m).opCode, Reg(parts[2]), Reg(parts[1]), Low16(imm)))
  {
  }

  /**
    I with four tokens `{m, rt, rs, imm}`: rs = parts[2], rt = parts[1], and
    the immediate reduced to 16 bits (two's complement for negative values).
  */
  lemma {:induction false} EncodeImmediateFields(parts: seq<string>, m: Mnemonic, imm: int)
    requires |parts| == 4 && Parse(parts[0]) == Some(m) && Codes(m).format == TypeI
    requires Stoi(parts[3]) == Some(imm)
    ensures Encode(parts).Word?
    ensures var w := Encode(parts).bits;
            && OpcodeOf(w) == Codes(m).opCode && RsOf(w) == Reg(parts[2]) && RtOf(w) == Reg(parts[1])
            && ImmOf(w) == Low16(imm)
  {
    CodesFitSixBits(m);
    var x := Low16(imm);
    assert Encode(parts).bits == PackI(Codes(m).opCode, Reg(parts[2]), Reg(parts[1]), x);
    PackIFields(Codes(m).opCode, Reg(parts[2]), Reg(parts[1]), x);
  }

  /** J with two tokens `{m, target}`: the target reduced to 26 bits. */
  lemma {:induction false} EncodeJumpFields(parts: seq<string>, m: Mnemonic, target: int)
    requires |parts| == 2 && Parse(parts[0]) == Some(m) && Codes(m).format == TypeJ
    requires Stoi(parts[1]) == Some(target)
    ensures Encode(parts).Word?
    ensures var w := Encode(parts).bits;
            OpcodeOf(w) == Codes(m).opCode && TargetOf(w) == Low26(target)
  {
    CodesFitSixBits(m);
    var x := Low26(target);
    assert Encode(parts).bits == PackJ(Codes(m).opCode, x);
    PackJFields(Codes(m).opCode, x);
  }

  /**
    Decoding a word the encoder produced for a non-NULL mnemonic with a
    fitting operand count names that mnemonic again.
  */
  lemma {:induction false} EncodeIdentifies(parts: seq<string>, m: Mnemonic)
    requires |parts| > 0 && Parse(parts[0]) == Some(m)
    requires Codes(m).format != TypeNull && ArityFits(Codes(m).format, |parts|)
    requires Encodable(parts) && Encode(parts).Word?
    ensures Identify(OpcodeOf(Encode(parts).bits), FunctOf(Encode(parts).bits)) == Some(m)
  {
    CatalogClasses(m);
    CodesFitSixBits(m);
    if Codes(m).format == TypeR {
      if |parts| == 2 {
        EncodeJumpRegisterFields(parts, m);
      } else {
        EncodeRegisterFields(parts, m);
      }
    } else if Codes(m).format == TypeI {
      EncodeImmediateFields(parts, m, Stoi(parts[3]).value);
    } else {
      EncodeJumpFields(parts, m, Stoi(parts[1]).value);
    }
    var w := Encode(parts).bits;
    IdentifyOfFields(m, OpcodeOf(w), FunctOf(w));
  }

  /**
    The word for a resolved `beq`: opcode 4, the first register in rt, the
    second in rs, and the printed offset read back into the low 16 bits.
  */
  lemma BranchEncoding(rt: string, rs: string, offset: int)
    requires InInt(offset)
    ensures Encode(["beq", rt, rs, IntToString(offset)]).Word?
    ensures var w := Encode(["beq", rt, rs, IntToString(offset)]).bits;
            OpcodeOf(w) == 0x04 && RsOf(w) == Reg(rs) && RtOf(w) == Reg(rt) && ImmOf(w) == Low16(offset)
  {
    StoiInvertsToString(offset);
    EncodeImmediateFields(["beq", rt, rs, IntToString(offset)], Beq, offset);
  }

  /** The word for a resolved `j`: opcode 2 and the printed index read back into the low 26 bits. */
  lemma JumpEncoding(index: int)
    requires InInt(index)
    ensures Encode(["j", IntToString(index)]).Word?
    ensures var w := Encode(["j", IntToString(index)]).bits;
            OpcodeOf(w) == 0x02 && TargetOf(w) == Low26(index)
  {
    StoiInvertsToString(index);
    EncodeJumpFields(["j", IntToString(index)], J, index);
  }

  /** `add $t2, $t1, $t1` after splitting: opcode 0, rs 9, rt 9, rd 10, funct 0x20. */
  lemma AddExample()
    ensures Encode(["add", "$t2", "$t1", "$t1"]) == Word(0x0129_5020)
  {
  }

  /** `lw $t4, 4($t5)` after reordering to `{lw, $t4, $t5, 4}`. */
  lemma LoadWordExample()
    ensures Encode(["lw", "$t4", "$t5", "4"]) == Word(0x8DAC_0004)
  {
    LoadWordLayout();
    LoadWordOperands();
    LoadWordOffset();
  }

  lemma LoadWordLayout()
    ensures Encode(["lw", "$t4", "$t5", "4"]) == Word(PackI(0x23, Reg("$t5"), Reg("$t4"), Low16(4)))
  {
    assert Stoi("4") == Some(4) by {
      StoiOfDigits("4");
    }
    assert Parse("lw") == Some(Lw);
    ImmediateLayout(["lw", "$t4", "$t5", "4"], Lw, 4);
  }

  lemma LoadWordOperands()
    ensures Reg("$t5") == 13 && Reg("$t4") == 12
  {
  }

  lemma LoadWordOffset()
    ensures Low16(4) == 4
  {
  }

  /**
    `sll $t0, $t1, 4`: with `sll` in class R the shift amount is read as a
    register (and resolves to 0) and the source register lands in rs.
  */
  lemma ShiftAsRegisterExample()
    ensures Encode(["sll", "$t0", "$t1", "4"]) == Word(0x0120_4000)
  {
    ShiftLayout();
    ShiftOperands();
  }

  lemma ShiftLayout()
    ensures Encode(["sll", "$t0", "$t1", "4"]) == Word(PackR(0, Reg("$t1"), Reg("4"), Reg("$t0"), 0, 0))
  {
    assert Parse("sll") == Some(Sll);
    RegisterLayout(["sll", "$t0", "$t1", "4"], Sll);
  }

  lemma ShiftOperands()
    ensures Reg("$t1") == 9 && Reg("4") == 0 && Reg("$t0") == 8
  {
  }

  /** A comma-joined operand is one malformed register token: only funct survives. */
  lemma CommaJoinedExample()
    ensures Encode(["add", "$t2,$t1,$t1"]) == Word(0x0000_0020)
  {
  }
}
