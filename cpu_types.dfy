/** The MIPS R3000A primary opcodes: the `InstructionOp` enumeration with
    its declared discriminants, its conversion from a byte, and the opcode
    field of an instruction word. */
module CpuTypes {
  import opened Common

  datatype InstructionOp =
    | FUNCT
    | B
    | J
    | JAL
    | BEQ
    | BNE
    | BLEZ
    | BGTZ
    | ADDI
    | ADDIU
    | SLTI
    | SLTIU
    | ANDI
    | ORI
    | XORI
    | LUI
    | COP0
    | COP1
    | COP2
    | COP3
    | LB
    | LH
    | LWL
    | LW
    | LBU
    | LHU
    | LWR
    | SB
    | SH
    | SWL
    | SW
    | SWR
    | LWC0
    | LWC1
    | LWC2
    | LWC3
    | SWC0
    | SWC1
    | SWC2
    | SWC3

  /** The discriminant each variant is declared with. */
  function Discriminant(op: InstructionOp): Byte {
    match op
    case FUNCT => 0
    case B => 1
    case J => 2
    case JAL => 3
    case BEQ => 4
    case BNE => 5
    case BLEZ => 6
    case BGTZ => 7
    case ADDI => 8
    case ADDIU => 9
    case SLTI => 10
    case SLTIU => 11
    case ANDI => 12
    case ORI => 13
    case XORI => 14
    case LUI => 15
    case COP0 => 16
    case COP1 => 17
    case COP2 => 18
    case COP3 => 19
    case LB => 32
    case LH => 33
    case LWL => 34
    case LW => 35
    case LBU => 36
    case LHU => 37
    case LWR => 38
    case SB => 40
    case SH => 41
    case SWL => 42
    case SW => 43
    case SWR => 46
    case LWC0 => 48
    case LWC1 => 49
    case LWC2 => 50
    case LWC3 => 51
    case SWC0 => 56
    case SWC1 => 57
    case SWC2 => 58
    case SWC3 => 59
  }

  /** The bytes `From<u8>` accepts. */
  predicate IsOpCode(value: int) {
    || 0 <= value <= 19
    || 32 <= value <= 38
    || 40 <= value <= 43
    || value == 46
    || 48 <= value <= 51
    || 56 <= value <= 59
  }

  /** `From<u8> for InstructionOp`; `None` stands for the "Unknown Op Code"
      panic. It is defined exactly on the opcodes and gives back the
      variant declared with that discriminant. */
  function FromByte(value: Byte): (r: Option<InstructionOp>)
    ensures r.Some? <==> IsOpCode(value)
  {
    match value
    case 0 => Some(FUNCT)
    case 1 => Some(B)
    case 2 => Some(J)
    case 3 => Some(JAL)
    case 4 => Some(BEQ)
    case 5 => Some(BNE)
    case 6 => Some(BLEZ)
    case 7 => Some(BGTZ)
    case 8 => Some(ADDI)
    case 9 => Some(ADDIU)
    case 10 => Some(SLTI)
    case 11 => Some(SLTIU)
    case 12 => Some(ANDI)
    case 13 => Some(ORI)
    case 14 => Some(XORI)
    case 15 => Some(LUI)
    case 16 => Some(COP0)
    case 17 => Some(COP1)
    case 18 => Some(COP2)
    case 19 => Some(COP3)
    case 32 => Some(LB)
    case 33 => Some(LH)
    case 34 => Some(LWL)
    case 35 => Some(LW)
    case 36 => Some(LBU)
    case 37 => Some(LHU)
    case 38 => Some(LWR)
    case 40 => Some(SB)
    case 41 => Some(SH)
    case 42 => Some(SWL)
    case 43 => Some(SW)
    case 46 => Some(SWR)
    case 48 => Some(LWC0)
    case 49 => Some(LWC1)
    case 50 => Some(LWC2)
    case 51 => Some(LWC3)
    case 56 => Some(SWC0)
    case 57 => Some(SWC1)
    case 58 => Some(SWC2)
    case 59 => Some(SWC3)
    case _ => None
  }

  /** The variant decoded from an opcode is declared with that opcode. The
      proof goes through the opcodes sixteen at a time. */
  lemma DiscriminantOfFromByte(value: Byte)
    ensures FromByte(value).Some? ==> Discriminant(FromByte(value).value) == value
  {
    if value < 16 {
      DiscriminantOfFromByteBelow16(value);
    } else if value < 32 {
      DiscriminantOfFromByteBelow32(value);
    } else if value < 48 {
      DiscriminantOfFromByteBelow48(value);
    } else if value < 64 {
      DiscriminantOfFromByteBelow64(value);
    }
  }

  lemma DiscriminantOfFromByteBelow16(value: Byte)
    requires 0 <= value < 16
    ensures FromByte(value).Some? ==> Discriminant(FromByte(value).value) == value
  {
  }

  lemma DiscriminantOfFromByteBelow32(value: Byte)
    requires 16 <= value < 32
    ensures FromByte(value).Some? ==> Discriminant(FromByte(value).value) == value
  {
  }

  lemma DiscriminantOfFromByteBelow48(value: Byte)
    requires 32 <= value < 48
    ensures FromByte(value).Some? ==> Discriminant(FromByte(value).value) == value
  {
  }

  lemma DiscriminantOfFromByteBelow64(value: Byte)
    requires 48 <= value < 64
    ensures FromByte(value).Some? ==> Discriminant(FromByte(value).value) == value
  {
  }

  /** Every variant is decoded from its own discriminant, so decoding is a
      bijection between the opcodes and the variants. */
  lemma FromByteOfDiscriminant(op: InstructionOp)
    ensures IsOpCode(Discriminant(op)) && FromByte(Discriminant(op)) == Some(op)
  {
  }

  /** Different opcodes decode to different variants. */
  lemma FromByteInjective(a: Byte, b: Byte)
    requires IsOpCode(a) && IsOpCode(b) && FromByte(a) == FromByte(b)
    ensures a == b
  {
    DiscriminantOfFromByte(a);
    DiscriminantOfFromByte(b);
  }

  /** An instruction word. */
  datatype Instruction = Instruction(bits: U32)

  /** `Instruction::new`. */
  const NewInstruction: Instruction := Instruction(0)

  /** The opcode field, `bits >> 26`: it always fits the `u8` cast. */
  function OpCodeField(instruction: Instruction): (field: Byte)
    ensures field < 64
    ensures field * 0x400_0000 <= instruction.bits < (field + 1) * 0x400_0000
  {
    instruction.bits / 0x400_0000
  }

  /** `get_op_code`; `None` stands for the panic of `From<u8>` on the
      opcode fields 20..31, 39, 44, 45, 47, 52..55 and 60..63. */
  function GetOpCode(instruction: Instruction): (r: Option<InstructionOp>)
    ensures r.Some? <==> IsOpCode(OpCodeField(instruction))
    ensures r.Some? ==> Discriminant(r.value) == OpCodeField(instruction)
  {
    DiscriminantOfFromByte(OpCodeField(instruction));
    FromByte(OpCodeField(instruction))
  }

  /** The all-zero instruction decodes to `FUNCT`; a word with opcode field
      20 makes `get_op_code` panic. */
  lemma GetOpCodeExamples()
    ensures NewInstruction.bits == 0 && GetOpCode(NewInstruction) == Some(FUNCT)
    ensures GetOpCode(Instruction(20 * 0x400_0000)).None?
  {
    assert OpCodeField(NewInstruction) == 0;
    assert OpCodeField(Instruction(20 * 0x400_0000)) == 20;
  }
}
