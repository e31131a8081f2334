/**
 * instruction_assemblers.py: splitting an instruction line into tokens,
 * checking the tokens against the catalogue entry of their mnemonic, and
 * building the binary form of R, I and J instructions.
 */
module InstructionAssemblers {
  import opened Wrappers
  import opened PyText
  import opened Bits
  import opened Dicts
  import opened Instructions

  /* ================= tokenize_instruction ================= */

  /** The text after the first `:` of a labelled line (the label is dropped), or the whole line. */
  function AfterLabel(line: string, withLabel: bool): string
    requires withLabel ==> ':' in line
  {
    if withLabel then line[IndexOf(line, ':') + 1..] else line
  }

  lemma {:induction false} TokensOfCode(code: string)
    requires '#' !in code
    ensures forall t :: t in Words(RemoveAll(code, ',')) ==>
              |t| > 0 && forall i :: 0 <= i < |t| ==> !IsSpace(t[i]) && t[i] != ',' && t[i] != '#'
    ensures Concat(Words(RemoveAll(code, ','))) == Squeeze(code)
    ensures SeparatedBy(RemoveAll(code, ','), Gaps(RemoveAll(code, ',')), Words(RemoveAll(code, ',')))
  {
    var noCommas := RemoveAll(code, ',');
    WordsSeparated(noCommas);
    WordsShape(noCommas);
    WordsChars(noCommas);
    DropSpacesRemoveCommas(code);
    forall t, i | t in Words(noCommas) && 0 <= i < |t| ensures t[i] != ',' && t[i] != '#' {
      assert t[i] in t;
      assert t[i] in noCommas;
    }
  }

  /**
   * The tokens of an instruction line: drop the label prefix (when
   * `withLabel`), drop any `#` comment, delete commas and split on
   * whitespace. The text left after dropping and deleting is the tokens
   * with whitespace runs between them (and possibly at either end), so by
   * `SeparatedWords` no other token list fits it. `None` where Python raises `IndexError`: a labelled line
   * without `:`.
   */
  function TokenizeInstruction(line: string, withLabel: bool): (r: Option<seq<string>>)
    ensures r.None? <==> withLabel && ':' !in line
    ensures r.Some? ==> forall t :: t in r.value ==>
              |t| > 0 && forall i :: 0 <= i < |t| ==> !IsSpace(t[i]) && t[i] != ',' && t[i] != '#'
    ensures r.Some? ==> Concat(r.value) == Squeeze(BeforeFirst(AfterLabel(line, withLabel), '#'))
    ensures r.Some? ==>
              var text := RemoveAll(BeforeFirst(AfterLabel(line, withLabel), '#'), ',');
              SeparatedBy(text, Gaps(text), r.value)
  {
    var parts := SplitOnce(line, ':');
    if withLabel && |parts| < 2 then None
    else
      var instruction := if withLabel then parts[1] else line;
      assert withLabel ==> instruction == line[IndexOf(line, ':') + 1..] by {
        if withLabel {
          var k := IndexOf(line, ':');
          assert parts[0] == line[..k];
        }
      }
      var code := BeforeFirst(instruction, '#');
      TokensOfCode(code);
      Some(Words(RemoveAll(code, ',')))
  }

  /* ================= verify_instruction_tokens ================= */

  /** Registers an instruction may not name as its `rd` destination. */
  const ProtectedRegisters: seq<string> := ["$0", "$zero", "$at", "$k0", "$k1"]

  /** Immediates lie in [-2^15, 2^15 - 1]; shift amounts in [0, 2^5 - 1]. */
  const ImmMin: int := -32768
  const ImmMax: int := 32767
  const ShamtMax: int := 31

  datatype VerifyError =
    | MissingMnemonic                       // an empty token list (Python: IndexError)
    | NotSupported(mnemonic: string)        // the mnemonic is not a catalogue key
    | WrongTokenCount(expected: nat, found: nat)
    | InvalidRegister(token: string)
    | ProtectedRegister(token: string)
    | ImmediateNotNumeric(token: string)
    | ImmediateOutOfRange(value: int)
    | ShamtNotNumeric(token: string)
    | ShamtOutOfRange(value: int)
    | UnknownLabel(token: string)

  /** What an operand token must be for its role to pass verification. */
  predicate OperandValid(role: Role, token: string, symbols: map<string, nat>) {
    match role
    case Rd => RegisterDict(token).Some? && token !in ProtectedRegisters
    case Rs => RegisterDict(token).Some?
    case Rt => RegisterDict(token).Some?
    case Imm => ParseInt(token).Some? && ImmMin <= ParseInt(token).value <= ImmMax
    case Shamt => ParseInt(token).Some? && 0 <= ParseInt(token).value <= ShamtMax
    case Label => token in symbols
    case ImmRs => true
  }

  /** The checks of one loop iteration, in the source's order; `None` when the operand passes. */
  function CheckOperand(role: Role, token: string, symbols: map<string, nat>): (e: Option<VerifyError>)
    ensures e.None? <==> OperandValid(role, token, symbols)
    ensures (role == Rd || role == Rs || role == Rt) && RegisterDict(token).None? ==> e == Some(InvalidRegister(token))
    ensures role == Rd && RegisterDict(token).Some? && token in ProtectedRegisters ==> e == Some(ProtectedRegister(token))
    ensures role == Imm && ParseInt(token).None? ==> e == Some(ImmediateNotNumeric(token))
    ensures role == Imm && ParseInt(token).Some? && !(ImmMin <= ParseInt(token).value <= ImmMax) ==>
              e == Some(ImmediateOutOfRange(ParseInt(token).value))
    ensures role == Shamt && ParseInt(token).None? ==> e == Some(ShamtNotNumeric(token))
    ensures role == Shamt && ParseInt(token).Some? && !(0 <= ParseInt(token).value <= ShamtMax) ==>
              e == Some(ShamtOutOfRange(ParseInt(token).value))
    ensures role == Label && token !in symbols ==> e == Some(UnknownLabel(token))
  {
    match role
    case Rd | Rs | Rt =>
      if RegisterDict(token).None? then Some(InvalidRegister(token))
      else if role == Rd && token in ProtectedRegisters then Some(ProtectedRegister(token))
      else None
    case Imm =>
      (match ParseInt(token)
       case None => Some(ImmediateNotNumeric(token))
       case Some(v) => if v < ImmMin || v > ImmMax then Some(ImmediateOutOfRange(v)) else None)
    case Shamt =>
      (match ParseInt(token)
       case None => Some(ShamtNotNumeric(token))
       case Some(v) => if v < 0 || v > ShamtMax then Some(ShamtOutOfRange(v)) else None)
    case Label => if token !in symbols then Some(UnknownLabel(token)) else None
    case ImmRs => None
  }

  /** The error of the first operand that fails, walking the roles in order. */
  function FirstOperandError(format: seq<Role>, operands: seq<string>, symbols: map<string, nat>): (e: Option<VerifyError>)
    requires |format| == |operands|
    ensures e.None? <==> forall k :: 0 <= k < |format| ==> OperandValid(format[k], operands[k], symbols)
    ensures e.Some? ==> exists k :: (0 <= k < |format| && CheckOperand(format[k], operands[k], symbols) == e
              && forall j :: 0 <= j < k ==> OperandValid(format[j], operands[j], symbols))
  {
    if format == [] then None
    else
      match CheckOperand(format[0], operands[0], symbols)
      case Some(err) => Some(err)
      case None =>
        var rest := FirstOperandError(format[1..], operands[1..], symbols);
        if rest.Some? then
          var k :| 0 <= k < |format| - 1 && CheckOperand(format[1..][k], operands[1..][k], symbols) == rest
                   && forall j :: 0 <= j < k ==> OperandValid(format[1..][j], operands[1..][j], symbols);
          assert CheckOperand(format[k + 1], operands[k + 1], symbols) == rest;
          assert OperandValid(format[0], operands[0], symbols);
          rest
        else
          rest
  }

  /**
   * `verify_instruction_tokens`: the catalogue entry of `tokens[0]` when
   * the token count and every operand pass; otherwise the first error.
   */
  function VerifyInstructionTokens(tokens: seq<string>, symbols: map<string, nat>): (r: Result<InstrDef, VerifyError>)
    ensures tokens == [] ==> r == Err(MissingMnemonic)
    ensures tokens != [] && Catalogue(tokens[0]).None? ==> r == Err(NotSupported(tokens[0]))
    ensures tokens != [] && Catalogue(tokens[0]).Some? && |tokens| != |Catalogue(tokens[0]).value.format| + 1 ==>
              r == Err(WrongTokenCount(|Catalogue(tokens[0]).value.format| + 1, |tokens|))
    ensures r.Ok? ==> tokens != [] && Catalogue(tokens[0]) == Some(r.value) && |tokens| == |r.value.format| + 1
    ensures r.Ok? <==>
              && tokens != []
              && Catalogue(tokens[0]).Some?
              && |tokens| == |Catalogue(tokens[0]).value.format| + 1
              && forall k :: 0 <= k < |Catalogue(tokens[0]).value.format| ==>
                   OperandValid(Catalogue(tokens[0]).value.format[k], tokens[k + 1], symbols)
  {
    if tokens == [] then Err(MissingMnemonic)
    else
      match Catalogue(tokens[0])
      case None => Err(NotSupported(tokens[0]))
      case Some(def) =>
        if |tokens| != |def.format| + 1 then Err(WrongTokenCount(|def.format| + 1, |tokens|))
        else
          match FirstOperandError(def.format, tokens[1..], symbols)
          case Some(err) => Err(err)
          case None => Ok(def)
  }

  /**
   * On failure past the arity check, the error is that of the first
   * operand that fails; the operands before it all pass.
   */
  lemma VerifyStopsAtFirstFailure(tokens: seq<string>, symbols: map<string, nat>)
    ensures && VerifyInstructionTokens(tokens, symbols).Err?
            && tokens != [] && Catalogue(tokens[0]).Some?
            && |tokens| == |Catalogue(tokens[0]).value.format| + 1
            ==>
            var format := Catalogue(tokens[0]).value.format;
            exists k :: 0 <= k < |format|
              && Some(VerifyInstructionTokens(tokens, symbols).error) == CheckOperand(format[k], tokens[k + 1], symbols)
              && !OperandValid(format[k], tokens[k + 1], symbols)
              && forall j :: 0 <= j < k ==> OperandValid(format[j], tokens[j + 1], symbols)
  {
    if && VerifyInstructionTokens(tokens, symbols).Err?
       && tokens != [] && Catalogue(tokens[0]).Some?
       && |tokens| == |Catalogue(tokens[0]).value.format| + 1
    {
      var format := Catalogue(tokens[0]).value.format;
      var e := FirstOperandError(format, tokens[1..], symbols);
      assert e.Some?;
      var k :| 0 <= k < |format| && CheckOperand(format[k], tokens[1..][k], symbols) == e
               && forall j :: 0 <= j < k ==> OperandValid(format[j], tokens[1..][j], symbols);
      assert tokens[1..][k] == tokens[k + 1];
      forall j | 0 <= j < k ensures OperandValid(format[j], tokens[j + 1], symbols) {
        assert tokens[1..][j] == tokens[j + 1];
      }
    }
  }

  /* ================= shared encoder preconditions ================= */

  /** What an encoder needs of an operand token: a register name, or a number that fits its field. */
  predicate Encodable(role: Role, token: string) {
    match role
    case Rd | Rs | Rt => RegisterDict(token).Some?
    case Shamt => ParseInt(token).Some? && 0 <= ParseInt(token).value <= ShamtMax
    case Imm => ParseInt(token).Some? && ImmMin <= ParseInt(token).value <= ImmMax
    case Label | ImmRs => true
  }

  /** The operand for role `k` is fit for it. */
  predicate EncodableAt(tokens: seq<string>, format: seq<Role>, k: nat)
    requires k < |format| && k + 1 < |tokens|
  {
    Encodable(format[k], tokens[k + 1])
  }

  /**
   * A token for each role after the mnemonic, each fit for its role. The
   * loops read only the first `|format|` operands, so further tokens are
   * allowed and ignored.
   */
  predicate EncodableTokens(tokens: seq<string>, format: seq<Role>) {
    |tokens| > |format| && forall k: nat :: k < |format| ==> EncodableAt(tokens, format, k)
  }

  /** Verified tokens are what the encoders need. */
  lemma VerifiedTokensEncodable(tokens: seq<string>, symbols: map<string, nat>)
    requires VerifyInstructionTokens(tokens, symbols).Ok?
    ensures EncodableTokens(tokens, VerifyInstructionTokens(tokens, symbols).value.format)
  {
  }

  /** The position of the last `role` in `format`, or -1: the loop lets a later role overwrite an earlier one. */
  function LastIndexOf(format: seq<Role>, role: Role): (k: int)
    ensures -1 <= k < |format|
    ensures k >= 0 ==> format[k] == role && forall j :: k < j < |format| ==> format[j] != role
    ensures k == -1 <==> role !in format
  {
    if format == [] then -1
    else if format[|format| - 1] == role then |format| - 1
    else
      assert format == format[..|format| - 1] + [format[|format| - 1]];
      LastIndexOf(format[..|format| - 1], role)
  }

  /** The number an operand token stands for in its field: a register number or the parsed integer; 0 where there is none. */
  function OperandNumber(role: Role, token: string): int {
    match role
    case Rd | Rs | Rt => (match RegisterDict(token) case Some(v) => v case None => 0)
    case Shamt | Imm => (match ParseInt(token) case Some(v) => v case None => 0)
    case Label | ImmRs => 0
  }

  /**
   * The value the field of `role` holds once the encoder loop has seen
   * the first `n` roles: it starts at 0 and each `role` operand overwrites it.
   */
  function FieldValue(tokens: seq<string>, format: seq<Role>, n: nat, role: Role): int
    requires n < |tokens| && n <= |format|
  {
    if n == 0 then 0
    else if format[n - 1] == role then OperandNumber(role, tokens[n])
    else FieldValue(tokens, format, n - 1, role)
  }

  /** The field ends up holding the number of the LAST operand of its role, or 0 when the role does not occur. */
  lemma {:induction false} FieldValueIsLast(tokens: seq<string>, format: seq<Role>, n: nat, role: Role)
    requires n < |tokens| && n <= |format|
    ensures var k := LastIndexOf(format[..n], role);
            FieldValue(tokens, format, n, role) == if k < 0 then 0 else OperandNumber(role, tokens[k + 1])
  {
    if n > 0 {
      FieldValueIsLast(tokens, format, n - 1, role);
      LastIndexOfExtend(format, n - 1, role);
    }
  }

  /** On encodable tokens each field value fits its field. */
  lemma {:induction false} FieldValueFits(tokens: seq<string>, format: seq<Role>, n: nat, role: Role)
    requires EncodableTokens(tokens, format) && n <= |format|
    ensures role == Rd || role == Rs || role == Rt ==> 0 <= FieldValue(tokens, format, n, role) < 32
    ensures role == Shamt ==> 0 <= FieldValue(tokens, format, n, role) <= ShamtMax
    ensures role == Imm ==> ImmMin <= FieldValue(tokens, format, n, role) <= ImmMax
  {
    if n > 0 {
      FieldValueFits(tokens, format, n - 1, role);
      if format[n - 1] == role {
        assert EncodableAt(tokens, format, n - 1);
        RegisterValuesFit();
      }
    }
  }

  /** A role that does not occur leaves its field at 0. */
  lemma FieldValueAbsent(tokens: seq<string>, format: seq<Role>, role: Role)
    requires |tokens| > |format| && role !in format
    ensures FieldValue(tokens, format, |format|, role) == 0
  {
    FieldValueIsLast(tokens, format, |format|, role);
    assert format[..|format|] == format;
  }

  lemma LastIndexOfExtend(format: seq<Role>, i: nat, role: Role)
    requires i < |format|
    ensures LastIndexOf(format[..i + 1], role) == if format[i] == role then i else LastIndexOf(format[..i], role)
  {
    assert format[..i + 1][..i] == format[..i];
  }

  /** `sign_extend(bin(v), 5)` for a register number or shift amount. */
  function RegField(v: int): string
    requires 0 <= v < 32
  {
    ToBinary(v as nat, 5)
  }

  /** An immediate as 16 binary digits, negative ones in two's complement. */
  function ImmField(v: int): string
    requires ImmMin <= v <= ImmMax
  {
    Pow2Values();
    ToBinary(TwosComplement(v, 16), 16)
  }

  /* ================= assemble_r_instruction ================= */

  /** The six fields of an R instruction: opcode, rs, rt, rd, shamt, funct. */
  datatype RWord = RWord(opcode: nat, rs: nat, rt: nat, rd: nat, shamt: nat, funct: nat)

  const RWidths: seq<nat> := [6, 5, 5, 5, 5, 6]

  predicate FitsR(w: RWord) {
    w.opcode < 64 && w.rs < 32 && w.rt < 32 && w.rd < 32 && w.shamt < 32 && w.funct < 64
  }

  /** The R layout `opcode rs rt rd shamt funct` as binary fields of widths 6, 5, 5, 5, 5, 6 joined by single spaces. */
  function EncodeR(w: RWord): string
    requires FitsR(w)
  {
    JoinFields([ToBinary(w.opcode, 6), ToBinary(w.rs, 5), ToBinary(w.rt, 5),
                ToBinary(w.rd, 5), ToBinary(w.shamt, 5), ToBinary(w.funct, 6)])
  }

  /** Read an R-layout string back into its fields; `None` for any other string. */
  function DecodeR(s: string): Option<RWord> {
    match SplitFields(s, RWidths)
    case None => None
    case Some(p) =>
      if |p| == 6 && forall k :: 0 <= k < 6 ==> IsBinary(p[k]) then
        Some(RWord(FromBinary(p[0]), FromBinary(p[1]), FromBinary(p[2]),
                   FromBinary(p[3]), FromBinary(p[4]), FromBinary(p[5])))
      else None
  }

  /** R encoding is 37 characters long and decodes to exactly the fields it was built from. */
  lemma DecodeEncodeR(w: RWord)
    requires FitsR(w)
    ensures |EncodeR(w)| == 37
    ensures DecodeR(EncodeR(w)) == Some(w)
  {
    var p := [ToBinary(w.opcode, 6), ToBinary(w.rs, 5), ToBinary(w.rt, 5),
              ToBinary(w.rd, 5), ToBinary(w.shamt, 5), ToBinary(w.funct, 6)];
    JoinFieldsLength(p, RWidths);
    SplitJoin(p, RWidths);
    FromToBinary(w.opcode, 6);
    FromToBinary(w.rs, 5);
    FromToBinary(w.rt, 5);
    FromToBinary(w.rd, 5);
    FromToBinary(w.shamt, 5);
    FromToBinary(w.funct, 6);
  }

  /** The fields `assemble_r_instruction` fills in from verified tokens and their catalogue entry. */
  function RWordOf(tokens: seq<string>, def: InstrDef): (w: RWord)
    requires def.opcode < 64 && def.funct.Some? && def.funct.value < 64
    requires EncodableTokens(tokens, def.format)
    ensures FitsR(w)
  {
    var f, n := def.format, |def.format|;
    FieldValueFits(tokens, f, n, Rs);
    FieldValueFits(tokens, f, n, Rt);
    FieldValueFits(tokens, f, n, Rd);
    FieldValueFits(tokens, f, n, Shamt);
    RWord(def.opcode, FieldValue(tokens, f, n, Rs) as nat, FieldValue(tokens, f, n, Rt) as nat,
          FieldValue(tokens, f, n, Rd) as nat, FieldValue(tokens, f, n, Shamt) as nat, def.funct.value)
  }

  /** The four binary strings the R encoder loop updates. */
  datatype RFields = RFields(rs: string, rt: string, rd: string, shamt: string)

  /**
   * The loop's fields once it has seen the first `n` roles: all zero at
   * the start, then the role `format[n - 1]` overwrites its own field
   * from its operand and the others stay.
   */
  function RFieldsAfter(tokens: seq<string>, format: seq<Role>, n: nat): RFields
    requires EncodableTokens(tokens, format) && n <= |format|
  {
    if n == 0 then RFields(RegField(0), RegField(0), RegField(0), RegField(0))
    else
      var f, token := RFieldsAfter(tokens, format, n - 1), tokens[n];
      assert EncodableAt(tokens, format, n - 1);
      RegisterValuesFit();
      match format[n - 1]
      case Rs => f.(rs := RegField(RegisterDict(token).value))
      case Rt => f.(rt := RegField(RegisterDict(token).value))
      case Rd => f.(rd := RegField(RegisterDict(token).value))
      case Shamt => f.(shamt := RegField(ParseInt(token).value))
      case _ => f
  }

  /** Each field of the loop holds the number of the last operand of its role, in binary. */
  lemma {:induction false} RFieldsAfterValues(tokens: seq<string>, format: seq<Role>, n: nat)
    requires EncodableTokens(tokens, format) && n <= |format|
    ensures 0 <= FieldValue(tokens, format, n, Rs) < 32 && 0 <= FieldValue(tokens, format, n, Rt) < 32
    ensures 0 <= FieldValue(tokens, format, n, Rd) < 32 && 0 <= FieldValue(tokens, format, n, Shamt) < 32
    ensures RFieldsAfter(tokens, format, n) ==
              RFields(RegField(FieldValue(tokens, format, n, Rs)), RegField(FieldValue(tokens, format, n, Rt)),
                      RegField(FieldValue(tokens, format, n, Rd)), RegField(FieldValue(tokens, format, n, Shamt)))
  {
    FieldValueFits(tokens, format, n, Rs);
    FieldValueFits(tokens, format, n, Rt);
    FieldValueFits(tokens, format, n, Rd);
    FieldValueFits(tokens, format, n, Shamt);
    if n > 0 {
      RFieldsAfterValues(tokens, format, n - 1);
      assert EncodableAt(tokens, format, n - 1);
      match format[n - 1] {
        case Rs => assert FieldValue(tokens, format, n, Rs) == RegisterDict(tokens[n]).value;
        case Rt => assert FieldValue(tokens, format, n, Rt) == RegisterDict(tokens[n]).value;
        case Rd => assert FieldValue(tokens, format, n, Rd) == RegisterDict(tokens[n]).value;
        case Shamt => assert FieldValue(tokens, format, n, Shamt) == ParseInt(tokens[n]).value;
        case _ =>
      }
    }
  }

  /**
   * `assemble_r_instruction`: start every field at zero, overwrite the
   * field of each role in turn, and join the six binary fields.
   */
  method AssembleRInstruction(tokens: seq<string>, def: InstrDef) returns (word: string)
    requires def.opcode < 64 && def.funct.Some? && def.funct.value < 64
    requires EncodableTokens(tokens, def.format)
    ensures word == EncodeR(RWordOf(tokens, def))
  {
    var opcode := ToBinary(def.opcode, 6);
    var rs := RegField(0);
    var rt := RegField(0);
    var rd := RegField(0);
    var shamt := RegField(0);
    var funct := ToBinary(def.funct.value, 6);
    var format := def.format;
    var i := 0;
    while i < |format|
      invariant 0 <= i <= |format|
      invariant RFields(rs, rt, rd, shamt) == RFieldsAfter(tokens, format, i)
    {
      var token := tokens[i + 1];
      assert EncodableAt(tokens, format, i);
      match format[i] {
        case Rs => rs := RegField(RegisterDict(token).value);
        case Rt => rt := RegField(RegisterDict(token).value);
        case Rd => rd := RegField(RegisterDict(token).value);
        case Shamt => shamt := RegField(ParseInt(token).value);
        case _ =>
      }
      i := i + 1;
    }
    word := JoinFields([opcode, rs, rt, rd, shamt, funct]);
    RWordOfFacts(tokens, def);
  }

  /** The encoding of `RWordOf` decodes back to it, and a field with no role stays all zeros. */
  lemma RWordOfFacts(tokens: seq<string>, def: InstrDef)
    requires def.opcode < 64 && def.funct.Some? && def.funct.value < 64
    requires EncodableTokens(tokens, def.format)
    ensures var f := RFieldsAfter(tokens, def.format, |def.format|);
            JoinFields([ToBinary(def.opcode, 6), f.rs, f.rt, f.rd, f.shamt, ToBinary(def.funct.value, 6)])
              == EncodeR(RWordOf(tokens, def))
    ensures |EncodeR(RWordOf(tokens, def))| == 37
    ensures DecodeR(EncodeR(RWordOf(tokens, def))) == Some(RWordOf(tokens, def))
    ensures Rs !in def.format ==> EncodeR(RWordOf(tokens, def))[7..12] == Zeros(5)
    ensures Rt !in def.format ==> EncodeR(RWordOf(tokens, def))[13..18] == Zeros(5)
    ensures Rd !in def.format ==> EncodeR(RWordOf(tokens, def))[19..24] == Zeros(5)
    ensures Shamt !in def.format ==> EncodeR(RWordOf(tokens, def))[25..30] == Zeros(5)
  {
    var w := RWordOf(tokens, def);
    RFieldsAfterValues(tokens, def.format, |def.format|);
    if Rs !in def.format { FieldValueAbsent(tokens, def.format, Rs); }
    if Rt !in def.format { FieldValueAbsent(tokens, def.format, Rt); }
    if Rd !in def.format { FieldValueAbsent(tokens, def.format, Rd); }
    if Shamt !in def.format { FieldValueAbsent(tokens, def.format, Shamt); }
    DecodeEncodeR(w);
    ZeroIsZeros(5);
    RFieldSlices(w);
  }

  /** Where each field sits in the 37-character R encoding. */
  lemma RFieldSlices(w: RWord)
    requires FitsR(w)
    ensures |EncodeR(w)| == 37
    ensures EncodeR(w)[..6] == ToBinary(w.opcode, 6)
    ensures EncodeR(w)[7..12] == ToBinary(w.rs, 5)
    ensures EncodeR(w)[13..18] == ToBinary(w.rt, 5)
    ensures EncodeR(w)[19..24] == ToBinary(w.rd, 5)
    ensures EncodeR(w)[25..30] == ToBinary(w.shamt, 5)
    ensures EncodeR(w)[31..] == ToBinary(w.funct, 6)
  {
    var f := [ToBinary(w.opcode, 6), ToBinary(w.rs, 5), ToBinary(w.rt, 5),
              ToBinary(w.rd, 5), ToBinary(w.shamt, 5), ToBinary(w.funct, 6)];
    JoinFieldsLength(f, RWidths);
    JoinFieldsSlice(f, RWidths, 0);
    JoinFieldsSlice(f, RWidths, 1);
    JoinFieldsSlice(f, RWidths, 2);
    JoinFieldsSlice(f, RWidths, 3);
    JoinFieldsSlice(f, RWidths, 4);
    JoinFieldsSlice(f, RWidths, 5);
    assert Offset(RWidths, 5) == 31;
  }

  /* ================= assemble_i_instruction ================= */

  /** The four fields of an I instruction; `imm` holds the 16-bit pattern. */
  datatype IWord = IWord(opcode: nat, rs: nat, rt: nat, imm: nat)

  const IWidths: seq<nat> := [6, 5, 5, 16]

  predicate FitsI(w: IWord) {
    w.opcode < 64 && w.rs < 32 && w.rt < 32 && w.imm < 65536
  }

  /** The I layout `opcode rs rt imm` as binary fields of widths 6, 5, 5, 16 joined by single spaces. */
  function EncodeI(w: IWord): string
    requires FitsI(w)
  {
    JoinFields([ToBinary(w.opcode, 6), ToBinary(w.rs, 5), ToBinary(w.rt, 5), ToBinary(w.imm, 16)])
  }

  function DecodeI(s: string): Option<IWord> {
    match SplitFields(s, IWidths)
    case None => None
    case Some(p) =>
      if |p| == 4 && forall k :: 0 <= k < 4 ==> IsBinary(p[k]) then
        Some(IWord(FromBinary(p[0]), FromBinary(p[1]), FromBinary(p[2]), FromBinary(p[3])))
      else None
  }

  /** I encoding is 35 characters long and decodes to exactly the fields it was built from. */
  lemma DecodeEncodeI(w: IWord)
    requires FitsI(w)
    ensures |EncodeI(w)| == 35
    ensures DecodeI(EncodeI(w)) == Some(w)
  {
    var p := [ToBinary(w.opcode, 6), ToBinary(w.rs, 5), ToBinary(w.rt, 5), ToBinary(w.imm, 16)];
    JoinFieldsLength(p, IWidths);
    SplitJoin(p, IWidths);
    FromToBinary(w.opcode, 6);
    FromToBinary(w.rs, 5);
    FromToBinary(w.rt, 5);
    FromToBinary(w.imm, 16);
  }

  /** Where each field sits in the 35-character I encoding. */
  lemma IFieldSlices(w: IWord)
    requires FitsI(w)
    ensures |EncodeI(w)| == 35
    ensures EncodeI(w)[..6] == ToBinary(w.opcode, 6)
    ensures EncodeI(w)[7..12] == ToBinary(w.rs, 5)
    ensures EncodeI(w)[13..18] == ToBinary(w.rt, 5)
    ensures EncodeI(w)[19..] == ToBinary(w.imm, 16)
  {
    var f := [ToBinary(w.opcode, 6), ToBinary(w.rs, 5), ToBinary(w.rt, 5), ToBinary(w.imm, 16)];
    JoinFieldsLength(f, IWidths);
    JoinFieldsSlice(f, IWidths, 0);
    JoinFieldsSlice(f, IWidths, 1);
    JoinFieldsSlice(f, IWidths, 2);
    JoinFieldsSlice(f, IWidths, 3);
    assert Offset(IWidths, 3) == 19;
  }

  /**
   * The fields `assemble_i_instruction` fills in. Extension: the
   * immediate is stored as its 16-bit two's complement (the source leaves
   * negative immediates unwritten; for non-negative ones this is the value).
   */
  function IWordOf(tokens: seq<string>, def: InstrDef): (w: IWord)
    requires def.opcode < 64
    requires EncodableTokens(tokens, def.format)
    ensures FitsI(w)
  {
    var f, n := def.format, |def.format|;
    FieldValueFits(tokens, f, n, Rs);
    FieldValueFits(tokens, f, n, Rt);
    FieldValueFits(tokens, f, n, Imm);
    Pow2Values();
    IWord(def.opcode, FieldValue(tokens, f, n, Rs) as nat, FieldValue(tokens, f, n, Rt) as nat,
          TwosComplement(FieldValue(tokens, f, n, Imm), 16))
  }

  /** The three binary strings the I encoder loop updates. */
  datatype IFields = IFields(rs: string, rt: string, imm: string)

  /**
   * The loop's fields once it has seen the first `n` roles: all zero at
   * the start, then `rs`, `rt` and `imm` roles overwrite their field and
   * `label` and `imm(rs)` roles change nothing.
   */
  function IFieldsAfter(tokens: seq<string>, format: seq<Role>, n: nat): IFields
    requires EncodableTokens(tokens, format) && n <= |format|
  {
    if n == 0 then IFields(RegField(0), RegField(0), ImmField(0))
    else
      var f, token := IFieldsAfter(tokens, format, n - 1), tokens[n];
      assert EncodableAt(tokens, format, n - 1);
      RegisterValuesFit();
      match format[n - 1]
      case Rs => f.(rs := RegField(RegisterDict(token).value))
      case Rt => f.(rt := RegField(RegisterDict(token).value))
      case Imm => f.(imm := ImmField(ParseInt(token).value))
      case _ => f
  }

  /** Each field of the loop holds the number of the last operand of its role, in binary. */
  lemma {:induction false} IFieldsAfterValues(tokens: seq<string>, format: seq<Role>, n: nat)
    requires EncodableTokens(tokens, format) && n <= |format|
    ensures 0 <= FieldValue(tokens, format, n, Rs) < 32 && 0 <= FieldValue(tokens, format, n, Rt) < 32
    ensures ImmMin <= FieldValue(tokens, format, n, Imm) <= ImmMax
    ensures IFieldsAfter(tokens, format, n) ==
              IFields(RegField(FieldValue(tokens, format, n, Rs)), RegField(FieldValue(tokens, format, n, Rt)),
                      ImmField(FieldValue(tokens, format, n, Imm)))
  {
    FieldValueFits(tokens, format, n, Rs);
    FieldValueFits(tokens, format, n, Rt);
    FieldValueFits(tokens, format, n, Imm);
    if n > 0 {
      IFieldsAfterValues(tokens, format, n - 1);
      assert EncodableAt(tokens, format, n - 1);
      match format[n - 1] {
        case Rs => assert FieldValue(tokens, format, n, Rs) == RegisterDict(tokens[n]).value;
        case Rt => assert FieldValue(tokens, format, n, Rt) == RegisterDict(tokens[n]).value;
        case Imm => assert FieldValue(tokens, format, n, Imm) == ParseInt(tokens[n]).value;
        case _ =>
      }
    }
  }

  /**
   * `assemble_i_instruction`: fields start at zero, `rs`, `rt` and `imm`
   * roles overwrite theirs, `label` and `imm(rs)` roles change nothing.
   */
  method AssembleIInstruction(tokens: seq<string>, def: InstrDef) returns (word: string)
    requires def.opcode < 64
    requires EncodableTokens(tokens, def.format)
    ensures word == EncodeI(IWordOf(tokens, def))
  {
    var opcode := ToBinary(def.opcode, 6);
    var rs := RegField(0);
    var rt := RegField(0);
    var imm := ImmField(0);
    var format := def.format;
    var i := 0;
    while i < |format|
      invariant 0 <= i <= |format|
      invariant IFields(rs, rt, imm) == IFieldsAfter(tokens, format, i)
    {
      var token := tokens[i + 1];
      assert EncodableAt(tokens, format, i);
      ghost var before := IFieldsAfter(tokens, format, i);
      assert IFieldsAfter(tokens, format, i + 1) == match format[i]
        case Rs => before.(rs := RegField(RegisterDict(token).value))
        case Rt => before.(rt := RegField(RegisterDict(token).value))
        case Imm => before.(imm := ImmField(ParseInt(token).value))
        case _ => before;
      match format[i] {
        case Rs => rs := RegField(RegisterDict(token).value);
        case Rt => rt := RegField(RegisterDict(token).value);
        case Imm => imm := ImmField(ParseInt(token).value);
        case _ =>
      }
      i := i + 1;
    }
    word := JoinFields([opcode, rs, rt, imm]);
    IWordOfFacts(tokens, def);
  }

  /** The encoding of `IWordOf` decodes back to it, its immediate reads back signed, and a field with no role stays all zeros. */
  lemma IWordOfFacts(tokens: seq<string>, def: InstrDef)
    requires def.opcode < 64
    requires EncodableTokens(tokens, def.format)
    ensures var f := IFieldsAfter(tokens, def.format, |def.format|);
            JoinFields([ToBinary(def.opcode, 6), f.rs, f.rt, f.imm]) == EncodeI(IWordOf(tokens, def))
    ensures |EncodeI(IWordOf(tokens, def))| == 35
    ensures DecodeI(EncodeI(IWordOf(tokens, def))) == Some(IWordOf(tokens, def))
    ensures Signed(IWordOf(tokens, def).imm, 16) == FieldValue(tokens, def.format, |def.format|, Imm)
    ensures Rs !in def.format ==> EncodeI(IWordOf(tokens, def))[7..12] == Zeros(5)
    ensures Rt !in def.format ==> EncodeI(IWordOf(tokens, def))[13..18] == Zeros(5)
    ensures Imm !in def.format ==> EncodeI(IWordOf(tokens, def))[19..] == Zeros(16)
  {
    var w := IWordOf(tokens, def);
    IFieldsAfterValues(tokens, def.format, |def.format|);
    if Rs !in def.format { FieldValueAbsent(tokens, def.format, Rs); }
    if Rt !in def.format { FieldValueAbsent(tokens, def.format, Rt); }
    if Imm !in def.format { FieldValueAbsent(tokens, def.format, Imm); }
    DecodeEncodeI(w);
    FieldValueFits(tokens, def.format, |def.format|, Imm);
    Pow2Values();
    SignedTwosComplement(FieldValue(tokens, def.format, |def.format|, Imm), 16);
    ZeroIsZeros(5);
    ZeroIsZeros(16);
    IFieldSlices(w);
  }

  /* ================= trailing tokens ================= */

  /** A field after the first `n` roles depends only on the tokens up to `n`. */
  lemma {:induction false} FieldValuePrefix(tokens: seq<string>, format: seq<Role>, n: nat, role: Role, m: nat)
    requires n < m <= |tokens| && n <= |format|
    ensures FieldValue(tokens, format, n, role) == FieldValue(tokens[..m], format, n, role)
  {
    if n > 0 {
      assert tokens[..m][n] == tokens[n];
      FieldValuePrefix(tokens, format, n - 1, role, m);
    }
  }

  /**
   * The R and I encoders read only the operands their roles name: tokens
   * past `|format| + 1` leave the word as it would be without them.
   */
  lemma ExtraTokensIgnored(tokens: seq<string>, def: InstrDef)
    requires EncodableTokens(tokens, def.format)
    ensures EncodableTokens(tokens[..|def.format| + 1], def.format)
    ensures def.opcode < 64 && def.funct.Some? && def.funct.value < 64 ==>
              RWordOf(tokens, def) == RWordOf(tokens[..|def.format| + 1], def)
    ensures def.opcode < 64 ==> IWordOf(tokens, def) == IWordOf(tokens[..|def.format| + 1], def)
  {
    var f, n := def.format, |def.format|;
    var short := tokens[..n + 1];
    forall k: nat | k < n ensures EncodableAt(short, f, k) {
      assert EncodableAt(tokens, f, k);
      assert short[k + 1] == tokens[k + 1];
    }
    FieldValuePrefix(tokens, f, n, Rs, n + 1);
    FieldValuePrefix(tokens, f, n, Rt, n + 1);
    FieldValuePrefix(tokens, f, n, Rd, n + 1);
    FieldValuePrefix(tokens, f, n, Shamt, n + 1);
    FieldValuePrefix(tokens, f, n, Imm, n + 1);
  }

  /* ================= assemble_j_instruction ================= */

  /** The two fields of a J instruction. */
  datatype JWord = JWord(opcode: nat, address: nat)

  const JWidths: seq<nat> := [6, 26]

  const AddressLimit: nat := Pow2(26)

  predicate FitsJ(w: JWord) {
    w.opcode < 64 && w.address < AddressLimit
  }

  /** The J layout `opcode address` as binary fields of widths 6 and 26 joined by a space. */
  function EncodeJ(w: JWord): string
    requires FitsJ(w)
  {
    JoinFields([ToBinary(w.opcode, 6), ToBinary(w.address, 26)])
  }

  function DecodeJ(s: string): Option<JWord> {
    match SplitFields(s, JWidths)
    case None => None
    case Some(p) =>
      if |p| == 2 && IsBinary(p[0]) && IsBinary(p[1]) then Some(JWord(FromBinary(p[0]), FromBinary(p[1])))
      else None
  }

  /** J encoding is 33 characters long and decodes to exactly the fields it was built from. */
  lemma DecodeEncodeJ(w: JWord)
    requires FitsJ(w)
    ensures |EncodeJ(w)| == 33
    ensures DecodeJ(EncodeJ(w)) == Some(w)
  {
    var p := [ToBinary(w.opcode, 6), ToBinary(w.address, 26)];
    JoinFieldsLength(p, JWidths);
    SplitJoin(p, JWidths);
    FromToBinary(w.opcode, 6);
    FromToBinary(w.address, 26);
  }

  /**
   * `assemble_j_instruction`: the opcode and the symbol-table byte address
   * of the label `tokens[1]`, unshifted, as 6 and 26 binary digits.
   */
  function AssembleJInstruction(tokens: seq<string>, def: InstrDef, symbols: map<string, nat>): (word: string)
    requires def.opcode < 64
    requires |tokens| >= 2 && tokens[1] in symbols && symbols[tokens[1]] < AddressLimit
    ensures |word| == 33
    ensures DecodeJ(word) == Some(JWord(def.opcode, symbols[tokens[1]]))
  {
    var opcode := ToBinary(def.opcode, 6);
    var address := ToBinary(symbols[tokens[1]], 26);
    DecodeEncodeJ(JWord(def.opcode, symbols[tokens[1]]));
    JoinFields([opcode, address])
  }
}
