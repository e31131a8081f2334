/** The categories a line of an assembly file can fall into (custom_types.py). */
module CustomTypes {
  import opened Wrappers

  datatype LineType =
    | Blank
    | Comment
    | AssmDirective        // assembler directive
    | LabelOnly            // a label on a line by itself
    | LabelWithRInstr      // a label on the same line as an R-type instruction
    | LabelWithIInstr
    | LabelWithJInstr
    | LabelWithUInstr      // a label with a known but unsupported instruction
    | Variable
    | RInstruction
    | IInstruction
    | JInstruction
    | UInstruction         // a MIPS instruction this assembler does not support
    | InvalidInstruction   // looks like an instruction but is not one
    | Invalid

  /** The enum's value. */
  function Code(t: LineType): (c: nat)
    ensures c < 15
  {
    match t
    case Blank => 0
    case Comment => 1
    case AssmDirective => 2
    case LabelOnly => 3
    case LabelWithRInstr => 4
    case LabelWithIInstr => 5
    case LabelWithJInstr => 6
    case LabelWithUInstr => 7
    case Variable => 8
    case RInstruction => 9
    case IInstruction => 10
    case JInstruction => 11
    case UInstruction => 12
    case InvalidInstruction => 13
    case Invalid => 14
  }

  /** `LineType(c)`: the category with value `c`, if there is one. */
  function FromCode(c: int): (r: Option<LineType>)
    ensures r.Some? <==> 0 <= c < 15
  {
    match c
    case 0 => Some(Blank)
    case 1 => Some(Comment)
    case 2 => Some(AssmDirective)
    case 3 => Some(LabelOnly)
    case 4 => Some(LabelWithRInstr)
    case 5 => Some(LabelWithIInstr)
    case 6 => Some(LabelWithJInstr)
    case 7 => Some(LabelWithUInstr)
    case 8 => Some(Variable)
    case 9 => Some(RInstruction)
    case 10 => Some(IInstruction)
    case 11 => Some(JInstruction)
    case 12 => Some(UInstruction)
    case 13 => Some(InvalidInstruction)
    case 14 => Some(Invalid)
    case _ => None
  }

  /** The categories whose line starts with a label. */
  predicate CarriesLabel(t: LineType) {
    t.LabelOnly? || t.LabelWithRInstr? || t.LabelWithIInstr? || t.LabelWithJInstr? || t.LabelWithUInstr?
  }

  /** The categories for a known but unsupported instruction. */
  predicate IsUnsupported(t: LineType) {
    t.UInstruction? || t.LabelWithUInstr?
  }

  /** Category to value and back. */
  lemma CodeRoundTrip(t: LineType)
    ensures FromCode(Code(t)) == Some(t)
  {
  }

  /** Value to category and back: every value 0..14 names exactly one category. */
  lemma FromCodeRoundTrip(c: int)
    requires 0 <= c < 15
    ensures FromCode(c).Some? && Code(FromCode(c).value) == c
  {
  }

  /** Distinct categories have distinct values. */
  lemma CodeInjective(s: LineType, t: LineType)
    ensures Code(s) == Code(t) ==> s == t
  {
  }

  /** Exactly five categories carry a label. */
  lemma FiveLabelledCategories()
    ensures forall t: LineType :: CarriesLabel(t) <==>
      t in {LabelOnly, LabelWithRInstr, LabelWithIInstr, LabelWithJInstr, LabelWithUInstr}
    ensures |set c | 0 <= c < 15 && CarriesLabel(FromCode(c).value)| == 5
  {
    assert (set c | 0 <= c < 15 && CarriesLabel(FromCode(c).value)) == {3, 4, 5, 6, 7};
  }
}
