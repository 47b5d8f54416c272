/**
  The static instruction catalog of definitions.hpp: one `InstructionCodes`
  record per supported mnemonic.

  main.cpp looks mnemonics up in `INSTR_CODES` and switches on an
  `INSTR_TYPE_R_SHIFT` class, neither of which definitions.hpp declares; the
  catalog here is its `instr_codes` table, and `TypeRShift` is the extra
  class main.cpp expects. No entry of the table uses `TypeRShift`: `sll` is
  listed with class R.

  The table's keys are the fourteen constructors of `Mnemonic`; `Parse` is
  the string lookup (`find`) and `Name` its inverse.
*/
module Definitions {
  import opened Wrappers

  datatype FormatClass = TypeR | TypeRShift | TypeI | TypeJ | TypeNull

  /** Fields are `uint32_t` in the source, hence `bv32`. */
  datatype InstructionCodes = InstructionCodes(opCode: bv32, format: FormatClass, funct: bv32)

  datatype Mnemonic = Add | Sub | And | Or | Nor | Slt | Lw | Sw | Beq | Addi | Sll | J | Jr | Nop

  function Name(m: Mnemonic): string {
    match m
    case Add => "add"
    case Sub => "sub"
    case And => "and"
    case Or => "or"
    case Nor => "nor"
    case Slt => "slt"
    case Lw => "lw"
    case Sw => "sw"
    case Beq => "beq"
    case Addi => "addi"
    case Sll => "sll"
    case J => "j"
    case Jr => "jr"
    case Nop => "nop"
  }

  /** The `instr_codes` entries. */
  function Codes(m: Mnemonic): InstructionCodes {
    match m
    case Add => InstructionCodes(0x00, TypeR, 0x20)
    case Sub => InstructionCodes(0x00, TypeR, 0x22)
    case And => InstructionCodes(0x00, TypeR, 0x24)
    case Or => InstructionCodes(0x00, TypeR, 0x25)
    case Nor => InstructionCodes(0x00, TypeR, 0x27)
    case Slt => InstructionCodes(0x00, TypeR, 0x2A)
    case Lw => InstructionCodes(0x23, TypeI, 0x00)
    case Sw => InstructionCodes(0x2B, TypeI, 0x00)
    case Beq => InstructionCodes(0x04, TypeI, 0x00)
    case Addi => InstructionCodes(0x08, TypeI, 0x00)
    case Sll => InstructionCodes(0x00, TypeR, 0x00)
    case J => InstructionCodes(0x02, TypeJ, 0x00)
    case Jr => InstructionCodes(0x00, TypeR, 0x08)
    case Nop => InstructionCodes(0x00, TypeNull, 0x00)
  }

  /** `instr_codes.find(s)`: the entry whose key is exactly `s`, if any. */
  function Parse(s: string): (r: Option<Mnemonic>)
    ensures r.Some? ==> Name(r.value) == s
  {
    if s == "add" then Some(Add)
    else if s == "sub" then Some(Sub)
    else if s == "and" then Some(And)
    else if s == "or" then Some(Or)
    else if s == "nor" then Some(Nor)
    else if s == "slt" then Some(Slt)
    else if s == "lw" then Some(Lw)
    else if s == "sw" then Some(Sw)
    else if s == "beq" then Some(Beq)
    else if s == "addi" then Some(Addi)
    else if s == "sll" then Some(Sll)
    else if s == "j" then Some(J)
    else if s == "jr" then Some(Jr)
    else if s == "nop" then Some(Nop)
    else None
  }

  /**
    Every key is found under its own name, so the fourteen names are
    pairwise distinct and the table has exactly fourteen entries.
  */
  lemma ParseInvertsName(m: Mnemonic)
    ensures Parse(Name(m)) == Some(m)
  {
  }

  lemma NamesDistinct(m1: Mnemonic, m2: Mnemonic)
    ensures Name(m1) == Name(m2) <==> m1 == m2
  {
    ParseInvertsName(m1);
    ParseInvertsName(m2);
  }

  /** The keys are exactly these fourteen strings. */
  lemma CatalogKeys(s: string)
    ensures Parse(s).Some? <==> s in {"add", "sub", "and", "or", "nor", "slt", "lw", "sw",
                                      "beq", "addi", "sll", "j", "jr", "nop"}
  {
  }

  /** How the mnemonics split over the format classes: `sll` is class R. */
  lemma CatalogClasses(m: Mnemonic)
    ensures Codes(m).format == TypeR <==> m in {Add, Sub, And, Or, Nor, Slt, Sll, Jr}
    ensures Codes(m).format == TypeI <==> m in {Lw, Sw, Beq, Addi}
    ensures Codes(m).format == TypeJ <==> m == J
    ensures Codes(m).format == TypeNull <==> m == Nop
    ensures Codes(m).format != TypeRShift
  {
  }

  /**
    Every opcode and function code fits six bits, so `op_code << 26` keeps
    all of the opcode and the function code touches bits 5-0 only. R entries
    have opcode 0; I and J entries have a nonzero opcode and function code 0.
  */
  lemma CodesFitSixBits(m: Mnemonic)
    ensures Codes(m).opCode < 64 && Codes(m).funct < 64
    ensures Codes(m).format == TypeR ==> Codes(m).opCode == 0
    ensures Codes(m).format in {TypeI, TypeJ} ==> Codes(m).opCode != 0 && Codes(m).funct == 0
  {
  }

  /**
    Decoding side of the catalog: opcode 0 selects an R entry by its
    function code, any other opcode selects the entry with that opcode.
  */
  function Identify(op: bv32, funct: bv32): Option<Mnemonic> {
    if op == 0 then
      if funct == 0x20 then Some(Add)
      else if funct == 0x22 then Some(Sub)
      else if funct == 0x24 then Some(And)
      else if funct == 0x25 then Some(Or)
      else if funct == 0x27 then Some(Nor)
      else if funct == 0x2A then Some(Slt)
      else if funct == 0x00 then Some(Sll)
      else if funct == 0x08 then Some(Jr)
      else None
    else if op == 0x23 then Some(Lw)
    else if op == 0x2B then Some(Sw)
    else if op == 0x04 then Some(Beq)
    else if op == 0x08 then Some(Addi)
    else if op == 0x02 then Some(J)
    else None
  }

  /**
    (opcode, function code) identifies every mnemonic except the NULL-class
    `nop`: the function codes of the opcode-0 entries are pairwise distinct
    and so are the nonzero opcodes. Both directions of the correspondence.
  */
  /** A word whose opcode (and, under opcode 0, function code) are an entry's decodes to that entry. */
  lemma IdentifyOfFields(m: Mnemonic, op: bv32, fn: bv32)
    requires Codes(m).format != TypeNull && op == Codes(m).opCode
    requires op == 0 ==> fn == Codes(m).funct
    ensures Identify(op, fn) == Some(m)
  {
  }

  lemma IdentifyInvertsCodes(m: Mnemonic, op: bv32, fn: bv32)
    ensures Codes(m).format != TypeNull ==> Identify(Codes(m).opCode, Codes(m).funct) == Some(m)
    ensures Identify(op, fn) == Some(m) ==>
              && Codes(m).format != TypeNull
              && Codes(m).opCode == op
              && (op == 0 ==> Codes(m).funct == fn)
  {
  }
}
