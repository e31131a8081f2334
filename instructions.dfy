/** The instruction catalogue of instructions.py. */
module Instructions {
  import opened Wrappers

  /** The instruction formats. */
  datatype InstrType = R | I | J

  /** The operand roles a format list is made of; `ImmRs` is the `imm(rs)` base-plus-offset operand. */
  datatype Role = Rd | Rs | Rt | Imm | Shamt | Label | ImmRs

  /** One catalogue entry: format, opcode, funct (`None` outside R) and the ordered operand roles. */
  datatype InstrDef = InstrDef(kind: InstrType, opcode: nat, funct: Option<nat>, format: seq<Role>)

  /**
   * `instruction_list`: the entry of every supported mnemonic, `None` for
   * a name that is not a key of the table.
   */
  function Catalogue(mnemonic: string): Option<InstrDef> {
    match mnemonic
    case "add"    => Some(InstrDef(R, 0, Some(32), [Rd, Rs, Rt]))
    case "addu"   => Some(InstrDef(R, 0, Some(33), [Rd, Rs, Rt]))
    case "and"    => Some(InstrDef(R, 0, Some(36), [Rd, Rs, Rt]))
    case "div"    => Some(InstrDef(R, 0, Some(26), [Rd, Rs, Rt]))
    case "divu"   => Some(InstrDef(R, 0, Some(27), [Rd, Rs, Rt]))
    case "jalr"   => Some(InstrDef(R, 0, Some(9), [Rs]))
    case "jr"     => Some(InstrDef(R, 0, Some(8), [Rs]))
    case "mfhi"   => Some(InstrDef(R, 0, Some(16), [Rd]))
    case "mflo"   => Some(InstrDef(R, 0, Some(18), [Rd]))
    case "mthi"   => Some(InstrDef(R, 0, Some(17), [Rs]))
    case "mtlo"   => Some(InstrDef(R, 0, Some(19), [Rs]))
    case "mul"    => Some(InstrDef(R, 0, Some(24), [Rd, Rs, Rt]))
    case "mult"   => Some(InstrDef(R, 0, Some(24), [Rd, Rs, Rt]))
    case "multu"  => Some(InstrDef(R, 0, Some(25), [Rd, Rs, Rt]))
    case "nor"    => Some(InstrDef(R, 0, Some(39), [Rd, Rs, Rt]))
    case "or"     => Some(InstrDef(R, 0, Some(37), [Rd, Rs, Rt]))
    case "sll"    => Some(InstrDef(R, 0, Some(0), [Rd, Rt, Shamt]))
    case "slt"    => Some(InstrDef(R, 0, Some(42), [Rd, Rs, Rt]))
    case "sltu"   => Some(InstrDef(R, 0, Some(43), [Rd, Rs, Rt]))
    case "sra"    => Some(InstrDef(R, 0, Some(3), [Rd, Rt, Shamt]))
    case "srl"    => Some(InstrDef(R, 0, Some(2), [Rd, Rt, Shamt]))
    case "sub"    => Some(InstrDef(R, 0, Some(34), [Rd, Rs, Rt]))
    case "subu"   => Some(InstrDef(R, 0, Some(35), [Rd, Rs, Rt]))
    case "xor"    => Some(InstrDef(R, 0, Some(38), [Rd, Rs, Rt]))
    case "addi"   => Some(InstrDef(I, 8, None, [Rt, Rs, Imm]))
    case "addiu"  => Some(InstrDef(I, 9, None, [Rt, Rs, Imm]))
    case "andi"   => Some(InstrDef(I, 12, None, [Rt, Rs, Imm]))
    case "beq"    => Some(InstrDef(I, 4, None, [Rs, Rt, Label]))
    case "bgtz"   => Some(InstrDef(I, 7, None, [Rs, Label]))
    case "blez"   => Some(InstrDef(I, 6, None, [Rs, Label]))
    case "bne"    => Some(InstrDef(I, 5, None, [Rs, Rt, Label]))
    case "lb"     => Some(InstrDef(I, 32, None, [Rt, ImmRs]))
    case "lbu"    => Some(InstrDef(I, 36, None, [Rt, ImmRs]))
    case "lhu"    => Some(InstrDef(I, 37, None, [Rt, ImmRs]))
    case "lui"    => Some(InstrDef(I, 15, None, [Rt, Imm]))
    case "lw"     => Some(InstrDef(I, 35, None, [Rt, ImmRs]))
    case "ori"    => Some(InstrDef(I, 13, None, [Rt, Rs, Imm]))
    case "sb"     => Some(InstrDef(I, 40, None, [Rt, ImmRs]))
    case "sh"     => Some(InstrDef(I, 41, None, [Rt, ImmRs]))
    case "slti"   => Some(InstrDef(I, 10, None, [Rt, Rs, Imm]))
    case "sltiu"  => Some(InstrDef(I, 11, None, [Rt, Rs, Imm]))
    case "sw"     => Some(InstrDef(I, 43, None, [Rt, ImmRs]))
    case "j"      => Some(InstrDef(J, 2, None, [Label]))
    case "jal"    => Some(InstrDef(J, 3, None, [Label]))
    case _ => None
  }

  /** `unsupported_instruction_list`: mnemonics that are MIPS but not assembled here. */
  const UnsupportedList: seq<string> := [
    "abs", "b", "beqz", "bge", "bgt", "ble", "blt", "bltz", "break", "bxs",
    "la", "lh", "li", "ll", "lld", "move", "mulos", "muls", "neg", "negu",
    "neqs", "NOP", "not", "rol", "ror", "sc", "sd", "seq", "sge", "sgt",
    "sllv", "sne", "srav", "sxs", "syscall", "ulhs", "ulw", "ush", "usw", "xori",
    "lhi", "lho"
  ]

  /** The roles an entry of each format uses. */
  predicate RoleAllowed(kind: InstrType, role: Role) {
    match kind
    case R => role in {Rd, Rs, Rt, Shamt}
    case I => role in {Rs, Rt, Imm, Label, ImmRs}
    case J => role == Label
  }

  /** The shape every catalogue entry has. */
  predicate WellFormed(d: InstrDef) {
    && 1 <= |d.format| <= 3
    && (forall k :: 0 <= k < |d.format| ==> RoleAllowed(d.kind, d.format[k]))
    && match d.kind
       case R => d.opcode == 0 && d.funct.Some? && d.funct.value < 64
       case I => d.funct.None? && 1 <= d.opcode < 64
       case J => d.funct.None? && 1 <= d.opcode < 64 && d.format == [Label]
  }

  /**
   * Every entry is well formed: R entries have opcode 0 and a 6-bit funct,
   * I and J entries have no funct and a non-zero 6-bit opcode, role lists
   * have one to three roles drawn from the format's own roles, and a J
   * entry's roles are exactly `[label]`.
   */
  lemma CatalogueWellFormed()
    ensures forall m :: Catalogue(m).Some? ==> WellFormed(Catalogue(m).value)
  {
  }

  // The unsupported list, checked against the catalogue seven names at a time.
  lemma UnsupportedNotCatalogued0()
    ensures forall i :: 0 <= i < 7 ==> Catalogue(UnsupportedList[i]).None?
  {
  }

  lemma UnsupportedNotCatalogued1()
    ensures forall i :: 7 <= i < 14 ==> Catalogue(UnsupportedList[i]).None?
  {
  }

  lemma UnsupportedNotCatalogued2()
    ensures forall i :: 14 <= i < 21 ==> Catalogue(UnsupportedList[i]).None?
  {
  }

  lemma UnsupportedNotCatalogued3()
    ensures forall i :: 21 <= i < 28 ==> Catalogue(UnsupportedList[i]).None?
  {
  }

  lemma UnsupportedNotCatalogued4()
    ensures forall i :: 28 <= i < 35 ==> Catalogue(UnsupportedList[i]).None?
  {
  }

  lemma UnsupportedNotCatalogued5()
    ensures forall i :: 35 <= i < 42 ==> Catalogue(UnsupportedList[i]).None?
  {
  }

  /** No supported mnemonic is also listed as unsupported. */
  lemma CatalogueDisjointFromUnsupported()
    ensures forall m :: Catalogue(m).Some? ==> m !in UnsupportedList
  {
    UnsupportedNotCatalogued0();
    UnsupportedNotCatalogued1();
    UnsupportedNotCatalogued2();
    UnsupportedNotCatalogued3();
    UnsupportedNotCatalogued4();
    UnsupportedNotCatalogued5();
    assert |UnsupportedList| == 42;
    forall m | m in UnsupportedList ensures Catalogue(m).None? {
      var i :| 0 <= i < |UnsupportedList| && UnsupportedList[i] == m;
    }
  }

  /** Opcode and funct do not identify an instruction: `mul` and `mult` share both. */
  lemma MulAndMultCollide()
    ensures Catalogue("mul").Some? && Catalogue("mult").Some?
    ensures Catalogue("mul").value.opcode == Catalogue("mult").value.opcode == 0
    ensures Catalogue("mul").value.funct == Catalogue("mult").value.funct == Some(24)
  {
  }
}
