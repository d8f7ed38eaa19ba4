/**
 Instructions, operands and tags (peep/insntypes.h, peep/insn.c).
 */
module Insns {
  const NUM_REGS: nat := 8
  const MAX_TEMPORARIES: nat := 8
  /** Variables numbered from here on are temporaries. */
  const TEMP_REG0: nat := 8

  datatype Tag = TagConst | TagVar | TagEax | TagAbcd | TagNoEsp | TagNoEax | TagNoEaxEsp | TagNoCsGs | TagCsGs

  /** The operand types that hold one value. */
  datatype Kind = Reg | Seg | Imm | Pcrel | Cr | Db | Tr | Mmx | Xmm | D3now | Prefix | St

  datatype MemVal = MemVal(addrsize: nat, isSel: bool, seg: int, base: int, scale: int, index: int, disp: int)

  datatype MemTag = MemTag(all: Tag, seg: Tag, base: Tag, index: Tag, disp: Tag)

  datatype Operand =
    | Invalid(size: nat)
    | Plain(size: nat, kind: Kind, val: int, tag: Tag)
    | Mem(size: nat, mem: MemVal, tags: MemTag)

  datatype Insn = Insn(opc: int, op0: Operand, op1: Operand, op2: Operand)
  {
    function Op(i: nat): Operand
      requires i < 3
    {
      if i == 0 then op0 else if i == 1 then op1 else op2
    }
  }
}
