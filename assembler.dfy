/**
 * assembler.py: the first pass over an assembly file, which walks the
 * lines with an instruction address counter, records each line's
 * category and binds every label to a byte address; and the mnemonic
 * lookup of the draft `assemble_instruction`.
 */
module Assembler {
  import opened Wrappers
  import opened PyText
  import opened CustomTypes
  import opened Instructions

  /** Byte address of the first instruction; word aligned. */
  const StartAddress: nat := 7996

  /** Bytes per instruction: each one occupies a word. */
  const WordSize: nat := 4

  /* ================= address counter ================= */

  /** The categories whose line holds an instruction that is placed in memory. */
  predicate AdvancesCounter(t: LineType) {
    t.RInstruction? || t.IInstruction? || t.JInstruction? || t.LabelWithRInstr? || t.LabelWithIInstr? || t.LabelWithJInstr?
  }

  /** How many of the first `n` lines advance the counter. */
  function InstructionsBefore(types: seq<LineType>, n: nat): (c: nat)
    requires n <= |types|
    ensures c <= n
  {
    if n == 0 then 0
    else InstructionsBefore(types, n - 1) + (if AdvancesCounter(types[n - 1]) then 1 else 0)
  }

  /**
   * `current_instruction_address` once the first `n` lines are processed:
   * it starts one word below the start address and gains a word per
   * instruction line.
   */
  function CounterAfter(types: seq<LineType>, n: nat): nat
    requires n <= |types|
  {
    StartAddress - WordSize + WordSize * InstructionsBefore(types, n)
  }

  /** The address of the instruction on line `k`: the start address plus a word per earlier instruction. */
  function InstructionAddress(types: seq<LineType>, k: nat): nat
    requires k < |types|
  {
    StartAddress + WordSize * InstructionsBefore(types, k)
  }

  /** Once an instruction line is processed, the counter holds that instruction's address. */
  lemma CounterAtInstruction(types: seq<LineType>, k: nat)
    requires k < |types| && AdvancesCounter(types[k])
    ensures CounterAfter(types, k + 1) == InstructionAddress(types, k)
  {
  }

  /** Every counter value is word aligned and at least one word below the start address. */
  lemma {:induction false} CounterAligned(types: seq<LineType>, n: nat)
    requires n <= |types|
    ensures CounterAfter(types, n) % WordSize == 0
    ensures CounterAfter(types, n) >= StartAddress - WordSize
  {
    var c := InstructionsBefore(types, n);
    assert StartAddress - WordSize + WordSize * c == WordSize * (1998 + c);
  }

  /** More lines never means fewer instructions; an instruction line in between means more. */
  lemma {:induction false} InstructionsMonotone(types: seq<LineType>, j: nat, k: nat)
    requires j <= k <= |types|
    ensures InstructionsBefore(types, j) <= InstructionsBefore(types, k)
    ensures (exists m :: j <= m < k && AdvancesCounter(types[m])) ==>
              InstructionsBefore(types, j) < InstructionsBefore(types, k)
  {
    if j < k {
      InstructionsMonotone(types, j, k - 1);
      if exists m :: j <= m < k && AdvancesCounter(types[m]) {
        var m :| j <= m < k && AdvancesCounter(types[m]);
        if m < k - 1 {
          assert exists m' :: j <= m' < k - 1 && AdvancesCounter(types[m']);
        }
      }
    }
  }

  /** Distinct instruction lines get increasing, distinct addresses. */
  lemma AddressesIncrease(types: seq<LineType>, j: nat, k: nat)
    requires j < k < |types| && AdvancesCounter(types[j])
    ensures InstructionAddress(types, j) < InstructionAddress(types, k)
  {
    InstructionsMonotone(types, j, k);
  }

  /** Lines that hold no instruction leave the counter where it was. */
  lemma {:induction false} NoInstructionsBetween(types: seq<LineType>, j: nat, k: nat)
    requires j <= k <= |types|
    requires forall m :: j <= m < k ==> !AdvancesCounter(types[m])
    ensures InstructionsBefore(types, k) == InstructionsBefore(types, j)
  {
    if j < k {
      NoInstructionsBetween(types, j, k - 1);
    }
  }

  /* ================= labels ================= */

  /**
   * The address a label line binds its label to: the counter, plus one
   * word for a label alone on its line (whose instruction comes next).
   */
  function LabelAddress(types: seq<LineType>, k: nat): nat
    requires k < |types|
  {
    if types[k] == LabelOnly then CounterAfter(types, k + 1) + WordSize else CounterAfter(types, k + 1)
  }

  /** A label ahead of an R, I or J instruction names that instruction's address. */
  lemma LabelWithInstrBindsOwnAddress(types: seq<LineType>, k: nat)
    requires k < |types| && (types[k] == LabelWithRInstr || types[k] == LabelWithIInstr || types[k] == LabelWithJInstr)
    ensures LabelAddress(types, k) == InstructionAddress(types, k)
  {
  }

  /**
   * A label alone on its line names the address of the next instruction
   * line, whatever blank, comment or other lines come between.
   */
  lemma LabelOnlyBindsNextInstruction(types: seq<LineType>, k: nat, m: nat)
    requires k < m < |types| && types[k] == LabelOnly && AdvancesCounter(types[m])
    requires forall j :: k < j < m ==> !AdvancesCounter(types[j])
    ensures LabelAddress(types, k) == InstructionAddress(types, m)
  {
    NoInstructionsBetween(types, k + 1, m);
  }

  /**
   * A label ahead of an unsupported instruction gets the counter as it
   * stands: the previous instruction's address, or one word below the
   * start address when there is none, since that instruction takes no word.
   */
  lemma LabelWithUnsupportedBindsCounter(types: seq<LineType>, k: nat)
    requires k < |types| && types[k] == LabelWithUInstr
    ensures LabelAddress(types, k) == CounterAfter(types, k)
    ensures InstructionsBefore(types, k) == 0 ==> LabelAddress(types, k) == StartAddress - WordSize
  {
  }

  /** `line.split(":", 1)[0].strip()`: the text before the first `:`, stripped. */
  function LabelOf(line: string): string {
    Strip(BeforeFirst(line, ':'))
  }

  /** The symbol table once the first `n` lines are processed: each label line binds its label, replacing an earlier binding. */
  function SymbolsAfter(symbols: map<string, nat>, lines: seq<string>, types: seq<LineType>, n: nat): map<string, nat>
    requires n <= |lines| == |types|
  {
    if n == 0 then symbols
    else
      var s := SymbolsAfter(symbols, lines, types, n - 1);
      if CarriesLabel(types[n - 1]) then s[LabelOf(lines[n - 1]) := LabelAddress(types, n - 1)] else s
  }

  /** The last of the first `n` lines that declares `name`, or -1. */
  function LastDeclaration(lines: seq<string>, types: seq<LineType>, n: nat, name: string): (j: int)
    requires n <= |lines| == |types|
    ensures -1 <= j < n
    ensures j >= 0 ==> CarriesLabel(types[j]) && LabelOf(lines[j]) == name
    ensures forall m :: j < m < n ==> !(CarriesLabel(types[m]) && LabelOf(lines[m]) == name)
  {
    if n == 0 then -1
    else if CarriesLabel(types[n - 1]) && LabelOf(lines[n - 1]) == name then n - 1
    else LastDeclaration(lines, types, n - 1, name)
  }

  /**
   * A label is in the table exactly when it was there before or some line
   * declares it; the last declaration wins, and a label no line declares
   * keeps its old address.
   */
  lemma {:induction false} SymbolLookup(symbols: map<string, nat>, lines: seq<string>, types: seq<LineType>, n: nat, name: string)
    requires n <= |lines| == |types|
    ensures name in SymbolsAfter(symbols, lines, types, n) <==>
              name in symbols || LastDeclaration(lines, types, n, name) >= 0
    ensures LastDeclaration(lines, types, n, name) >= 0 ==>
              SymbolsAfter(symbols, lines, types, n)[name] == LabelAddress(types, LastDeclaration(lines, types, n, name))
    ensures LastDeclaration(lines, types, n, name) < 0 && name in symbols ==>
              SymbolsAfter(symbols, lines, types, n)[name] == symbols[name]
  {
    if n > 0 {
      SymbolLookup(symbols, lines, types, n - 1, name);
    }
  }

  /** Starting from a word-aligned table, every address the first pass records is word aligned. */
  lemma {:induction false} SymbolsAligned(symbols: map<string, nat>, lines: seq<string>, types: seq<LineType>, n: nat)
    requires n <= |lines| == |types|
    requires forall l :: l in symbols ==> symbols[l] % WordSize == 0
    ensures forall l :: l in SymbolsAfter(symbols, lines, types, n) ==> SymbolsAfter(symbols, lines, types, n)[l] % WordSize == 0
  {
    if n > 0 {
      SymbolsAligned(symbols, lines, types, n - 1);
      CounterAligned(types, n);
    }
  }

  /* ================= invalid lines ================= */

  /** The index of the first invalid line, or the number of lines when there is none. */
  function FirstInvalid(types: seq<LineType>): (k: nat)
    ensures k <= |types|
    ensures k < |types| ==> types[k] == Invalid
    ensures forall j :: 0 <= j < k ==> types[j] != Invalid
  {
    if types == [] then 0
    else if types[0] == Invalid then 0
    else
      var k := FirstInvalid(types[1..]);
      assert forall j :: 0 < j < k + 1 ==> types[j] == types[1..][j - 1];
      k + 1
  }

  /** The first invalid line is the one before which every line is valid. */
  lemma FirstInvalidIs(types: seq<LineType>, i: nat)
    requires i <= |types| && (i == |types| || types[i] == Invalid)
    requires forall j :: 0 <= j < i ==> types[j] != Invalid
    ensures FirstInvalid(types) == i
  {
  }

  /** What processing line `i` does to the counter and the symbol table. */
  lemma FirstPassStep(symbols: map<string, nat>, lines: seq<string>, types: seq<LineType>, i: nat)
    requires i < |lines| == |types|
    ensures CounterAfter(types, i + 1) == CounterAfter(types, i) + (if AdvancesCounter(types[i]) then WordSize else 0)
    ensures SymbolsAfter(symbols, lines, types, i + 1) ==
              if CarriesLabel(types[i]) then SymbolsAfter(symbols, lines, types, i)[LabelOf(lines[i]) := LabelAddress(types, i)]
              else SymbolsAfter(symbols, lines, types, i)
  {
  }

  /**
   * An unsupported instruction line, and a line whose mnemonic is unknown,
   * is passed over by the first pass: it takes no address, it is not the
   * line that stops the pass, and it binds a label only in the labelled
   * unsupported category.
   */
  lemma SkippedLineTakesNoAddress(types: seq<LineType>, k: nat)
    requires k < |types| && (IsUnsupported(types[k]) || types[k] == InvalidInstruction)
    ensures CounterAfter(types, k + 1) == CounterAfter(types, k)
    ensures FirstInvalid(types) != k
    ensures CarriesLabel(types[k]) <==> types[k] == LabelWithUInstr
  {
  }

  /** The exception the first pass raises: the 1-based number and the text of the invalid line. */
  datatype FirstPassError = InvalidLine(lineNumber: nat, line: string)

  /* ================= process_first_pass ================= */

  /**
   * The module-level tables of assembler.py. They are not reset between
   * passes: a second call adds to what the first left.
   */
  class AssemblerState {
    /** `symbol_table`: labels to byte addresses. */
    var symbolTable: map<string, nat>
    /** `variable_table`: variables to byte addresses (the first pass leaves it untouched). */
    var variableTable: map<string, nat>
    /** `line_type_list`: the category of every line seen, in order. */
    var lineTypeList: seq<LineType>

    /** The tables as the module starts out: all empty. */
    constructor ()
      ensures symbolTable == map[] && variableTable == map[] && lineTypeList == []
    {
      symbolTable := map[];
      variableTable := map[];
      lineTypeList := [];
    }

    /**
     * `process_first_pass` over `lines`, whose categories are `types`
     * (the line classifier is not part of this model). Every line up to
     * and including the first invalid one is recorded; label bindings come
     * from the lines before it; an invalid line stops the pass with its
     * 1-based number.
     */
    method ProcessFirstPass(lines: seq<string>, types: seq<LineType>) returns (r: Outcome<FirstPassError>)
      requires |lines| == |types|
      modifies this
      ensures var n := FirstInvalid(types);
              && symbolTable == SymbolsAfter(old(symbolTable), lines, types, n)
              && variableTable == old(variableTable)
              && (n < |types| ==> r == Fail(InvalidLine(n + 1, lines[n])) && lineTypeList == old(lineTypeList) + types[..n + 1])
              && (n == |types| ==> r == Pass && lineTypeList == old(lineTypeList) + types)
    {
      var address: nat := StartAddress - WordSize;
      var i := 0;
      while i < |lines|
        invariant 0 <= i <= |lines|
        invariant forall j :: 0 <= j < i ==> types[j] != Invalid
        invariant lineTypeList == old(lineTypeList) + types[..i]
        invariant address == CounterAfter(types, i)
        invariant symbolTable == SymbolsAfter(old(symbolTable), lines, types, i)
        invariant variableTable == old(variableTable)
      {
        var lineType := types[i];
        lineTypeList := lineTypeList + [lineType];
        assert types[..i + 1] == types[..i] + [lineType];
        if lineType == Invalid {
          FirstInvalidIs(types, i);
          return Fail(InvalidLine(i + 1, lines[i]));
        }
        FirstPassStep(old(symbolTable), lines, types, i);
        if AdvancesCounter(lineType) {
          address := address + WordSize;
        }
        if CarriesLabel(lineType) {
          var name := LabelOf(lines[i]);
          if lineType == LabelOnly {
            symbolTable := symbolTable[name := address + WordSize];
          } else {
            symbolTable := symbolTable[name := address];
          }
        }
        i := i + 1;
      }
      assert types[..i] == types;
      FirstInvalidIs(types, i);
      return Pass;
    }
  }

  /* ================= mnemonic lookup ================= */

  /** What `assemble_instruction` makes of a token list's mnemonic. */
  datatype MnemonicLookup =
    | Found(def: InstrDef)      // a catalogue entry to assemble from
    | NotYetSupported           // a known MIPS instruction: reported, nothing assembled
    | InvalidInstructionError   // neither: the source raises "Invalid Instruction"
    | NoMnemonic                // an empty token list (Python: IndexError)

  /** The catalogue is consulted first, then the unsupported list. */
  function LookupMnemonic(tokens: seq<string>): (r: MnemonicLookup)
    ensures r == NoMnemonic <==> tokens == []
    ensures r.Found? <==> tokens != [] && Catalogue(tokens[0]).Some?
    ensures r.Found? ==> Catalogue(tokens[0]) == Some(r.def)
    ensures r == NotYetSupported <==> tokens != [] && tokens[0] in UnsupportedList
    ensures r == InvalidInstructionError <==>
              tokens != [] && Catalogue(tokens[0]).None? && tokens[0] !in UnsupportedList
  {
    CatalogueDisjointFromUnsupported();
    if tokens == [] then NoMnemonic
    else
      match Catalogue(tokens[0])
      case Some(def) => Found(def)
      case None => if tokens[0] in UnsupportedList then NotYetSupported else InvalidInstructionError
  }
}
