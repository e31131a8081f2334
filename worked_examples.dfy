/**
 * Worked examples. `add $t0, $t1, $t2` splits into four tokens and
 * assembles to `000000 01001 01010 01000 00000 100000`; the immediate of
 * `addi` passes at both ends of its range and fails one past the top;
 * `$zero` is refused as a destination.
 */
module WorkedExamples {
  import opened Wrappers
  import opened Bits
  import opened Instructions
  import opened InstructionAssemblers
  import opened PyText
  import opened ExampleDigits
  import opened ExampleText

  const AddTokens: seq<string> := ["add", "$t0", "$t1", "$t2"]
  const AddDef: InstrDef := InstrDef(R, 0, Some(32), [Rd, Rs, Rt])

  /** The tokens pass verification against an empty symbol table and yield the catalogue entry of `add`. */
  lemma AddVerifies()
    ensures VerifyInstructionTokens(AddTokens, map[]) == Ok(AddDef)
  {
    assert Catalogue("add") == Some(AddDef);
    assert "$t0" !in ProtectedRegisters;
    assert OperandValid(Rd, "$t0", map[]) && OperandValid(Rs, "$t1", map[]) && OperandValid(Rt, "$t2", map[]);
  }

  /** The loop puts rd = 8, rs = 9 and rt = 10 into the fields; shamt keeps its zero. */
  lemma AddFields()
    ensures EncodableTokens(AddTokens, AddDef.format)
    ensures RWordOf(AddTokens, AddDef) == RWord(0, 9, 10, 8, 0, 32)
  {
    AddVerifies();
    VerifiedTokensEncodable(AddTokens, map[]);
    var t, f := AddTokens, AddDef.format;
    assert FieldValue(t, f, 3, Rt) == OperandNumber(Rt, "$t2") == 10;
    assert FieldValue(t, f, 3, Rs) == FieldValue(t, f, 2, Rs) == OperandNumber(Rs, "$t1") == 9;
    assert FieldValue(t, f, 3, Rd) == FieldValue(t, f, 1, Rd) == OperandNumber(Rd, "$t0") == 8;
    assert FieldValue(t, f, 3, Shamt) == FieldValue(t, f, 0, Shamt) == 0;
  }

  /** A worked example: the whole word of `add $t0, $t1, $t2`. */
  lemma AddAssembles()
    ensures EncodableTokens(AddTokens, AddDef.format)
    ensures EncodeR(RWordOf(AddTokens, AddDef)) == "000000 01001 01010 01000 00000 100000"
  {
    AddFields();
    AddDigits();
    AddJoin();
    calc {
      EncodeR(RWordOf(AddTokens, AddDef));
      EncodeR(RWord(0, 9, 10, 8, 0, 32));
      JoinFields([ToBinary(0, 6), ToBinary(9, 5), ToBinary(10, 5), ToBinary(8, 5), ToBinary(0, 5), ToBinary(32, 6)]);
      JoinFields(["000000", "01001", "01010", "01000", "00000", "100000"]);
      "000000 01001 01010 01000 00000 100000";
    }
  }

  /** The line splits into exactly the four tokens. */
  lemma AddTokenizes()
    ensures TokenizeInstruction(AddLine, false) == Some(AddTokens)
  {
    var text := RemoveAll(BeforeFirst(AfterLabel(AddLine, false), '#'), ',');
    AddLineText();
    AddLineSeparated();
    var r := TokenizeInstruction(AddLine, false);
    SeparatedWords(text, Gaps(text), r.value);
    SeparatedWords(text, ["", " ", " ", " ", ""], AddTokens);
  }

  /** A fifth token is ignored by the R encoder: the word is that of `add $t0, $t1, $t2`. */
  lemma ExtraTokenIgnored()
    ensures EncodableTokens(AddTokens + ["$t3"], AddDef.format)
    ensures EncodeR(RWordOf(AddTokens + ["$t3"], AddDef)) == "000000 01001 01010 01000 00000 100000"
  {
    var t := AddTokens + ["$t3"];
    AddAssembles();
    assert EncodableTokens(t, AddDef.format) by {
      forall k: nat | k < |AddDef.format| ensures EncodableAt(t, AddDef.format, k) {
        assert EncodableAt(AddTokens, AddDef.format, k);
        assert t[k + 1] == AddTokens[k + 1];
      }
    }
    ExtraTokensIgnored(t, AddDef);
    assert t[..4] == AddTokens;
  }

  const AddiDef: InstrDef := InstrDef(I, 8, None, [Rt, Rs, Imm])

  /** The largest immediate, 2^15 - 1, passes. */
  lemma AddiTopPasses()
    ensures VerifyInstructionTokens(["addi", "$t0", "$t1", "32767"], map[]) == Ok(AddiDef)
  {
    assert Catalogue("addi") == Some(AddiDef);
    Numerals();
    assert OperandValid(Rt, "$t0", map[]) && OperandValid(Rs, "$t1", map[]) && OperandValid(Imm, "32767", map[]);
  }

  /** One past the largest immediate is refused with its value. */
  lemma AddiPastTopFails()
    ensures VerifyInstructionTokens(["addi", "$t0", "$t1", "32768"], map[]) == Err(ImmediateOutOfRange(32768))
  {
    var t := ["addi", "$t0", "$t1", "32768"];
    assert Catalogue("addi") == Some(AddiDef);
    Numerals();
    assert CheckOperand(Rt, "$t0", map[]).None? && CheckOperand(Rs, "$t1", map[]).None?;
    assert CheckOperand(Imm, "32768", map[]) == Some(ImmediateOutOfRange(32768));
    assert t[1..] == ["$t0", "$t1", "32768"];
    VerifyStopsAtFirstFailure(t, map[]);
  }

  /** The smallest immediate, -2^15, passes and is stored as its 16-bit two's complement. */
  lemma AddiBottomEncodes()
    ensures VerifyInstructionTokens(["addi", "$t0", "$t1", "-32768"], map[]) == Ok(AddiDef)
    ensures EncodableTokens(["addi", "$t0", "$t1", "-32768"], AddiDef.format)
    ensures |EncodeI(IWordOf(["addi", "$t0", "$t1", "-32768"], AddiDef))| == 35
    ensures EncodeI(IWordOf(["addi", "$t0", "$t1", "-32768"], AddiDef))[19..] == "1000000000000000"
  {
    var t, f := ["addi", "$t0", "$t1", "-32768"], AddiDef.format;
    assert Catalogue("addi") == Some(AddiDef);
    Numerals();
    assert OperandValid(Rt, "$t0", map[]) && OperandValid(Rs, "$t1", map[]) && OperandValid(Imm, "-32768", map[]);
    VerifiedTokensEncodable(t, map[]);
    assert FieldValue(t, f, 3, Imm) == OperandNumber(Imm, "-32768") == -32768;
    Pow2Values();
    var w := IWordOf(t, AddiDef);
    assert w.imm == 32768;
    IFieldSlices(w);
    TopBitOnly();
  }

  /** `$zero` may not be the destination register. */
  lemma ZeroDestinationFails()
    ensures VerifyInstructionTokens(["add", "$zero", "$t1", "$t2"], map[]) == Err(ProtectedRegister("$zero"))
  {
    var t := ["add", "$zero", "$t1", "$t2"];
    assert Catalogue("add") == Some(AddDef);
    assert "$zero" in ProtectedRegisters;
    assert CheckOperand(Rd, "$zero", map[]) == Some(ProtectedRegister("$zero"));
    assert t[1..] == ["$zero", "$t1", "$t2"];
    VerifyStopsAtFirstFailure(t, map[]);
  }
}

/** The binary digit strings of the worked examples, away from the encoders' definitions. */
module ExampleDigits {
  import opened Bits

  /** The top bit of a 16-bit field alone: 2^15 in binary. */
  lemma TopBitOnly()
    ensures Pow2(15) == 32768 && ToBinary(32768, 16) == "1000000000000000"
  {
    Pow2Values();
    PowerDigits(15);
    assert Zeros(15) == "000000000000000";
  }

  /** 2^k at width k + 1 is a one followed by k zeros. */
  lemma {:induction false} PowerDigits(k: nat)
    ensures Pow2(k) < Pow2(k + 1) && ToBinary(Pow2(k), k + 1) == "1" + Zeros(k)
  {
    if k > 0 {
      PowerDigits(k - 1);
      assert Pow2(k) / 2 == Pow2(k - 1) && Pow2(k) % 2 == 0;
      assert "1" + Zeros(k - 1) + "0" == "1" + Zeros(k);
    }
  }

  /** The six field values of `add $t0, $t1, $t2` rendered at their widths. */
  lemma AddDigits()
    ensures ToBinary(0, 6) == "000000" && ToBinary(0, 5) == "00000"
    ensures ToBinary(9, 5) == "01001" && ToBinary(10, 5) == "01010" && ToBinary(8, 5) == "01000"
    ensures ToBinary(32, 6) == "100000"
  {
    Nine();
    Ten();
    Eight();
    ThirtyTwo();
    ZeroIsZeros(5);
    ZeroIsZeros(6);
  }

  lemma Nine() ensures ToBinary(9, 5) == "01001" {
    assert ToBinary(0, 1) == "0";
    assert ToBinary(1, 2) == "01";
    assert ToBinary(2, 3) == "010";
    assert ToBinary(4, 4) == "0100";
  }

  lemma Ten() ensures ToBinary(10, 5) == "01010" {
    assert ToBinary(0, 1) == "0";
    assert ToBinary(1, 2) == "01";
    assert ToBinary(2, 3) == "010";
    assert ToBinary(5, 4) == "0101";
  }

  lemma Eight() ensures ToBinary(8, 5) == "01000" {
    assert ToBinary(0, 1) == "0";
    assert ToBinary(1, 2) == "01";
    assert ToBinary(2, 3) == "010";
    assert ToBinary(4, 4) == "0100";
  }

  lemma ThirtyTwo() ensures ToBinary(32, 6) == "100000" {
    assert ToBinary(0, 0) == "";
    assert ToBinary(1, 1) == "1";
    assert ToBinary(2, 2) == "10";
    assert ToBinary(4, 3) == "100";
    assert ToBinary(8, 4) == "1000";
    assert ToBinary(16, 5) == "10000";
  }

  /** The six fields joined by single spaces, one separator at a time. */
  lemma AddJoin()
    ensures JoinFields(["000000", "01001", "01010", "01000", "00000", "100000"]) == "000000 01001 01010 01000 00000 100000"
  {
    var p := ["000000", "01001", "01010", "01000", "00000", "100000"];
    assert p[1..] == ["01001", "01010", "01000", "00000", "100000"];
    AddJoinFrom1();
  }

  lemma AddJoinFrom1()
    ensures JoinFields(["01001", "01010", "01000", "00000", "100000"]) == "01001 01010 01000 00000 100000"
  {
    var p := ["01001", "01010", "01000", "00000", "100000"];
    assert p[1..] == ["01010", "01000", "00000", "100000"];
    AddJoinFrom2();
  }

  lemma AddJoinFrom2()
    ensures JoinFields(["01010", "01000", "00000", "100000"]) == "01010 01000 00000 100000"
  {
    var p := ["01010", "01000", "00000", "100000"];
    assert p[1..] == ["01000", "00000", "100000"];
    assert p[2..] == ["00000", "100000"];
    assert p[3..] == ["100000"];
    assert JoinFields(p[2..]) == "00000 100000";
    assert JoinFields(p[1..]) == "01000 00000 100000";
  }
}

/** The text and numerals of the worked examples, away from the tokenizer's and verifier's definitions. */
module ExampleText {
  import opened Wrappers
  import opened PyText

  const AddLine: string := "add $t0, $t1, $t2"

  /** Dropping the (absent) comment and the commas leaves the words single-spaced. */
  lemma AddLineText()
    ensures RemoveAll(BeforeFirst(AddLine, '#'), ',') == "add $t0 $t1 $t2"
  {
    ThreeOperands(AddLine, "add $t0", " $t1", " $t2", "add $t0 $t1 $t2");
  }

  /** A comment-free line of three comma-separated pieces loses just its two commas. */
  lemma ThreeOperands(line: string, a: string, b: string, c: string, text: string)
    requires line == a + "," + b + "," + c && text == a + b + c
    requires ',' !in a && ',' !in b && ',' !in c
    requires '#' !in a && '#' !in b && '#' !in c
    ensures RemoveAll(BeforeFirst(line, '#'), ',') == text
  {
    assert '#' !in line;
    assert BeforeFirst(line, '#') == line;
    CommaThenPiece(a, b);
    CommaThenPiece(a + "," + b, c);
  }

  /** Deleting the commas of `x,y` where `y` has none. */
  lemma CommaThenPiece(x: string, y: string)
    requires ',' !in y
    ensures RemoveAll(x + "," + y, ',') == RemoveAll(x, ',') + y
  {
    RemoveAllAppend(x + ",", y, ',');
    RemoveAllAppend(x, ",", ',');
    RemoveAllChar(',', ',');
  }

  /** The single-spaced text is the four words with one space between neighbours. */
  lemma AddLineSeparated()
    ensures SeparatedBy("add $t0 $t1 $t2", ["", " ", " ", " ", ""], ["add", "$t0", "$t1", "$t2"])
  {
    assert IsWord("add") && IsWord("$t0") && IsWord("$t1") && IsWord("$t2");
    SingleSpaced("add $t0 $t1 $t2", "add", "$t0", "$t1", "$t2");
  }

  /** Four words joined by single spaces are separated by exactly those spaces. */
  lemma SingleSpaced(s: string, w0: string, w1: string, w2: string, w3: string)
    requires s == w0 + " " + w1 + " " + w2 + " " + w3
    requires IsWord(w0) && IsWord(w1) && IsWord(w2) && IsWord(w3)
    ensures SeparatedBy(s, ["", " ", " ", " ", ""], [w0, w1, w2, w3])
  {
    var gaps, ws := ["", " ", " ", " ", ""], [w0, w1, w2, w3];
    assert gaps[1..] == [" ", " ", " ", ""] && ws[1..] == [w1, w2, w3];
    assert gaps[2..] == [" ", " ", ""] && ws[2..] == [w2, w3];
    assert gaps[3..] == [" ", ""] && ws[3..] == [w3];
    assert gaps[4..] == [""] && ws[4..] == [];
    assert Interleave(gaps[3..], ws[3..]) == " " + w3 + "";
    assert Interleave(gaps[2..], ws[2..]) == " " + w2 + (" " + w3 + "");
    assert Interleave(gaps[1..], ws[1..]) == " " + w1 + (" " + w2 + (" " + w3 + ""));
    assert Interleave(gaps, ws) == "" + w0 + (" " + w1 + (" " + w2 + (" " + w3 + "")));
    assert IsSpace(' ');
  }

  /** The numerals of the immediate examples. */
  lemma Numerals()
    ensures ParseInt("32767") == Some(32767) && ParseInt("32768") == Some(32768)
    ensures ParseInt("-32768") == Some(-32768)
  {
    assert "32767"[..4] == "3276" && "32768"[..4] == "3276";
    assert "3276"[..3] == "327" && "327"[..2] == "32" && "32"[..1] == "3" && "3"[..0] == "";
    assert DigitsValue("3") == 3;
    assert DigitsValue("32") == 32;
    assert DigitsValue("327") == 327;
    assert DigitsValue("3276") == 3276;
    assert DigitsValue("32767") == 32767;
    assert DigitsValue("32768") == 32768;
    assert "-32768"[1..] == "32768";
  }
}
