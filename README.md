# MIPS-subset assembler, first half, in Dafny

This project models the front half of a two-pass assembler for a subset of
MIPS32 and proves properties of that model. It covers five pieces:

- **Constant tables.** These are the instruction catalogue (mnemonic → R/I/J
  type, opcode, funct code, ordered operand roles), the list of known but
  unsupported mnemonics, the register name table `REGISTER_DICT`, and the
  line categories `LineType`.
- **Tokenizer** (`tokenize_instruction`). It drops the label prefix up to
  the first `:`, drops a `#` comment, deletes commas and splits on
  whitespace.
- **Operand verifier** (`verify_instruction_tokens`). It checks the
  mnemonic, the token count and each operand against its role, and stops at
  the first failure.
- **Field encoders** (`assemble_r/i/j_instruction`). They build the
  binary-digit fields of the R (6/5/5/5/5/6), I (6/5/5/16) and J (6/26)
  layouts, separated by single spaces.
- **First pass** (`process_first_pass`). It walks classified lines, keeps
  the instruction-address counter that starts one word below 7996, fills
  the symbol table and records each line's category.

Modules follow the source files:

| module | models |
|---|---|
| `Wrappers` | `Option`, `Result`, `Outcome` |
| `PyText` | the Python string built-ins the tokenizer and the first pass use (`split(c, 1)`, `replace`, `split()`, `strip()`), and `int()`, which the verifier and the encoders use |
| `Bits` | `sign_extend(bin(n), w)[2:]` as `ToBinary(n, w)`, `" ".join` as `JoinFields`, and the matching decoders |
| `CustomTypes` | `custom_types.py` |
| `Dicts` | `REGISTER_DICT` of `dicts.py`, as the function `RegisterDict` |
| `Instructions` | `instructions.py`: the catalogue as the function `Catalogue`, the unsupported mnemonics as `UnsupportedList` |
| `InstructionAssemblers` | `instruction_assemblers.py` |
| `Assembler` | `process_first_pass`, `START_ADDRESS` and the mnemonic lookup of `assembler.py`; `AdvancesCounter` is the category test of assembler.py:54-55 and `LabelOf` the label extraction of assembler.py:68 |
| `WorkedExamples`, `ExampleDigits`, `ExampleText` | `add $t0, $t1, $t2` taken through the tokenizer, the verifier and the R encoder; `addi` at the ends of the immediate range; `$zero` as a destination |

Python's exceptions become error values:

- `tokenize_instruction` on a labelled line without `:` gives `None`.
- `verify_instruction_tokens` gives a `VerifyError` for each `raise`. The
  empty token list (Python's `IndexError`) gives `MissingMnemonic`.
- An `INVALID` line in the first pass gives `Fail(InvalidLine(lineNumber,
  line))`, with the 1-based line number.

The module-level `symbol_table`, `variable_table` and `line_type_list`
become the fields of the class `Assembler.AssemblerState`, and
`ProcessFirstPass` updates them in place. The R and I encoders are methods.
They overwrite local field strings in a loop over the role list. The state
after `n` roles is specified by `RFieldsAfter` / `IFieldsAfter`, and the
final word by `EncodeR(RWordOf(..))` / `EncodeI(IWordOf(..))`.

The model follows the code as written, including these points a reader
might not expect:

- Re-declaring a label silently overwrites the earlier binding; it is not
  an error.
- The variable table is never filled.
- A label on an unsupported instruction binds to the counter's current,
  unadvanced value.
- The J address field holds the byte address itself, not shifted right.

## Model

| member | source | states |
|---|---|---|
| PyText.SplitOnce | instruction_assemblers.py:24 | `split(c, 1)`: no separator gives the whole string; otherwise exactly two parts that rebuild the string around the first separator, the first part free of it |
| PyText.BeforeFirst | instruction_assemblers.py:27 | `split("#", 1)[0]` is a prefix of the input, contains no `#`, and ends exactly at the first `#` when there is one |
| PyText.RemoveAll | instruction_assemblers.py:29 | `replace(",", "")` keeps exactly the characters that are not commas, and leaves a comma-free string as it is |
| PyText.RemoveAllAppend | instruction_assemblers.py:29 | `replace` works piecewise: on a concatenation it is the concatenation of the two results, so order is kept |
| PyText.RemoveAllChar | instruction_assemblers.py:29 | on a single character `replace(",", "")` deletes it exactly when it is a comma |
| PyText.WordsShape | instruction_assemblers.py:31 | `split()` yields non-empty tokens without whitespace whose concatenation is the input with whitespace deleted, order kept |
| PyText.WordsSeparated | instruction_assemblers.py:31 | the input is the `split()` tokens interleaved with whitespace-only gaps, every gap between two tokens non-empty: tokens split exactly at whitespace runs |
| PyText.SeparatedWords | instruction_assemblers.py:31 | conversely, any text that is some words interleaved with such gaps splits into exactly those words, so the interleaving fixes the tokens |
| PyText.DropSpacesRemoveCommas | instruction_assemblers.py:29-31 | deleting commas and then whitespace is deleting both at once |
| PyText.ParseInt | instruction_assemblers.py:127 | `int()` accepts exactly an optional sign followed by one or more ASCII decimal digits |
| PyText.ParseIntLeadingZeros | instruction_assemblers.py:127 | leading zeros leave the value of `int()` unchanged: `007` gives 7 |
| PyText.ParseIntPlus | instruction_assemblers.py:127 | a leading `+`, with or without leading zeros, leaves the value unchanged: `+007` gives 7 |
| PyText.ParseIntMinus | instruction_assemblers.py:127 | a leading `-`, with or without leading zeros, negates the value of the digits: `-007` gives -7 |
| PyText.ParseIntRoundTrip | instruction_assemblers.py:127 | `int()` of the decimal rendering of any integer gives that integer back |
| PyText.Strip | assembler.py:68 | `strip()` returns a contiguous slice of the input with only whitespace outside it and no whitespace at either end |
| Bits.ToBinary | instruction_assemblers.py:176-181 | `sign_extend(bin(n), w)[2:]` renders `n < 2^w` as exactly `w` binary digits |
| Bits.FromToBinary | instruction_assemblers.py:194-200 | reading a rendered field gives the number back |
| Bits.ToFromBinary | instruction_assemblers.py:194-200 | every `w`-digit binary string is the rendering of the number it denotes |
| Bits.ZeroIsZeros | instruction_assemblers.py:177-180 | the initial `bin(0)` fields are all zeros at every width |
| Bits.SignedTwosComplement | instruction_assemblers.py:255 | the 16-bit two's-complement pattern of an immediate reads back as the signed immediate |
| Bits.JoinFieldsLength | instruction_assemblers.py:206 | fields joined by single spaces are as long as the widths plus one separator per gap |
| Bits.JoinFieldsSlice | instruction_assemblers.py:206 | field `i` of a joined string sits at its offset and is exactly the `i`-th part |
| Bits.SplitJoin | instruction_assemblers.py:206 | splitting a joined string at the widths it was built with recovers the parts |
| CustomTypes.Code | custom_types.py:5-20 | every category has a code in 0..14 |
| CustomTypes.FromCode | custom_types.py:5-20 | a code denotes a category exactly when it is in 0..14 |
| CustomTypes.CodeRoundTrip | custom_types.py:5-20 | category → code → category is the identity |
| CustomTypes.FromCodeRoundTrip | custom_types.py:5-20 | code → category → code is the identity on 0..14 |
| CustomTypes.CodeInjective | custom_types.py:6-20 | distinct categories have distinct codes |
| CustomTypes.FiveLabelledCategories | custom_types.py:9-13 | exactly the five categories LABEL_ONLY and LABEL_WITH_R/I/J/U_INSTR carry a label |
| Dicts.RegisterValuesFit | dicts.py:4-38 | every register number is below 32, so it fits a 5-bit field |
| Dicts.EveryRegisterNamed | dicts.py:4-38 | every number 0..31 is the value of its conventional name |
| Dicts.OnlyZeroHasTwoNames | dicts.py:5-6 | every key is the conventional name of its number except `$0`, the second name of register 0 |
| Dicts.ThirtyThreeKeys | dicts.py:4-38 | the keys are exactly the 32 conventional names and `$0`: 33 distinct keys |
| Dicts.ProtectedNamesAreRegisters | dicts.py:5-33 | `$0`, `$zero`, `$at`, `$k0`, `$k1` are keys, denoting 0, 0, 1, 26, 27 |
| Instructions.CatalogueWellFormed | instructions.py:14-78 | R entries: opcode 0 and a funct below 64. I and J entries: no funct and an opcode in 1..63. Every role list has 1 to 3 roles allowed for its type, and J lists are exactly `[label]` |
| Instructions.CatalogueDisjointFromUnsupported | instructions.py:14-123 | no catalogue key is in the unsupported list |
| Instructions.MulAndMultCollide | instructions.py:25-26 | `mul` and `mult` share opcode 0 and funct 24, so (opcode, funct) does not identify a mnemonic |
| InstructionAssemblers.TokensOfCode | instruction_assemblers.py:27-31 | on comment-free text, the tokens are non-empty, hold no whitespace, `,` or `#`, concatenate to the text with commas and whitespace deleted, and with whitespace-only gaps (non-empty between tokens) rebuild the text with commas deleted |
| InstructionAssemblers.TokenizeInstruction | instruction_assemblers.py:8-33 | fails exactly on a labelled line without `:`; the tokens are non-empty and hold no whitespace, `,` or `#`; the text after the first `:` (when labelled) and before the first `#`, with commas deleted, is exactly the tokens with whitespace runs between them (and possibly at either end); they concatenate, in order, to that text with whitespace deleted |
| InstructionAssemblers.CheckOperand | instruction_assemblers.py:111-150 | one operand's checks raise nothing exactly when the operand is valid for its role: a register (not protected for rd), an immediate in [-32768, 32767], a shift amount in [0, 31], a known label, `imm(rs)` unchecked. Each failure names its check: an unknown register is `InvalidRegister` (checked before protection), a protected rd is `ProtectedRegister`, a non-numeral immediate or shift is `ImmediateNotNumeric` / `ShamtNotNumeric`, an out-of-range one `ImmediateOutOfRange(v)` / `ShamtOutOfRange(v)` with the parsed value, a missing label `UnknownLabel` |
| InstructionAssemblers.FirstOperandError | instruction_assemblers.py:77-150 | no error exactly when every operand is valid; otherwise the error is that of an operand all of whose predecessors are valid |
| InstructionAssemblers.VerifyInstructionTokens | instruction_assemblers.py:36-152 | empty tokens are an error, an unknown mnemonic is `NotSupported`, and a catalogued mnemonic with the wrong number of tokens is `WrongTokenCount` with the expected and found counts. Success holds exactly when the mnemonic is catalogued, the count is the role count plus one, and every operand suits its role. On success the result is exactly the catalogue entry |
| InstructionAssemblers.VerifyStopsAtFirstFailure | instruction_assemblers.py:77-152 | past the arity check, a failure reports the first invalid operand and every operand before it passed |
| InstructionAssemblers.VerifiedTokensEncodable | instruction_assemblers.py:185-200 | tokens the verifier accepts satisfy what the encoders' table lookups and `int()` conversions need |
| InstructionAssemblers.FieldValueIsLast | instruction_assemblers.py:185-200 | after the loop over the first `n` roles, a field holds the number of the last operand of its role among them, or its initial 0 |
| InstructionAssemblers.FieldValueFits | instruction_assemblers.py:192-200 | on encodable tokens the register fields are below 32, the shift amount in [0, 31], the immediate in [-32768, 32767] |
| InstructionAssemblers.FieldValueAbsent | instruction_assemblers.py:177-180 | a field whose role does not occur keeps its initial 0 |
| InstructionAssemblers.RFieldsAfterValues | instruction_assemblers.py:185-200 | the R loop's four field strings after `n` roles are the 5-bit renderings of the current field values |
| InstructionAssemblers.DecodeEncodeR | instruction_assemblers.py:206 | an R word is 37 characters and decodes to exactly its six fields |
| InstructionAssemblers.RFieldSlices | instruction_assemblers.py:176-206 | the six fields of an R word sit at character ranges 0-5, 7-11, 13-17, 19-23, 25-29, 31-36 |
| InstructionAssemblers.AssembleRInstruction | instruction_assemblers.py:155-206 | the loop's output is the R word of the catalogue opcode and funct and the last rs/rt/rd/shamt operands |
| InstructionAssemblers.RWordOfFacts | instruction_assemblers.py:176-206 | the R output is the join of the loop's final field strings; it is 37 characters and decodes back to its fields; each field whose role is absent is five zeros |
| InstructionAssemblers.ExtraTokensIgnored | instruction_assemblers.py:185-189 | the R and I words depend only on the mnemonic and the first `|format|` operands: trailing tokens leave them unchanged (the I loop, lines 242-246, reads the same way) |
| InstructionAssemblers.DecodeEncodeI | instruction_assemblers.py:261 | an I word is 35 characters and decodes to exactly its four fields |
| InstructionAssemblers.IFieldSlices | instruction_assemblers.py:235-261 | the four fields of an I word sit at character ranges 0-5, 7-11, 13-17, 19-34 |
| InstructionAssemblers.IFieldsAfterValues | instruction_assemblers.py:242-255 | the I loop's field strings after `n` roles are the renderings of the current rs, rt and immediate values |
| InstructionAssemblers.AssembleIInstruction | instruction_assemblers.py:209-261 | the loop's output is the I word of the catalogue opcode and the last rs/rt/imm operands |
| InstructionAssemblers.IWordOfFacts | instruction_assemblers.py:235-261 | the I output is the join of the loop's final field strings; it is 35 characters and decodes back; the 16-bit field reads back as the signed immediate; absent roles (also under `label` and `imm(rs)`) leave all-zero fields |
| InstructionAssemblers.DecodeEncodeJ | instruction_assemblers.py:297 | a J word is 33 characters and decodes to exactly its two fields |
| InstructionAssemblers.AssembleJInstruction | instruction_assemblers.py:264-297 | the J word is 33 characters and decodes to the catalogue opcode and the unshifted symbol-table address of `tokens[1]` |
| WorkedExamples.AddTokenizes | instruction_assemblers.py:8-33 | `add $t0, $t1, $t2` splits into exactly the tokens `add`, `$t0`, `$t1`, `$t2` |
| WorkedExamples.AddVerifies | instruction_assemblers.py:36-152 | `add $t0, $t1, $t2` passes verification and yields the `add` entry |
| WorkedExamples.AddFields | instruction_assemblers.py:185-200 | its fields are rd = 8, rs = 9, rt = 10, shamt = 0, funct = 32 |
| WorkedExamples.AddAssembles | instruction_assemblers.py:155-206 | the R encoder turns it into `000000 01001 01010 01000 00000 100000` |
| WorkedExamples.ExtraTokenIgnored | instruction_assemblers.py:185-206 | `add $t0, $t1, $t2, $t3` encodes to the word of `add $t0, $t1, $t2` |
| WorkedExamples.AddiTopPasses | instruction_assemblers.py:123-133 | `addi $t0, $t1, 32767` passes verification |
| WorkedExamples.AddiPastTopFails | instruction_assemblers.py:131-133 | `addi $t0, $t1, 32768` fails with `ImmediateOutOfRange(32768)` |
| WorkedExamples.AddiBottomEncodes | instruction_assemblers.py:123-261 | `addi $t0, $t1, -32768` passes and its immediate field is `1000000000000000` |
| WorkedExamples.ZeroDestinationFails | instruction_assemblers.py:116-120 | `add $zero, $t1, $t2` fails with `ProtectedRegister("$zero")` |
| ExampleText.AddLineText | instruction_assemblers.py:27-29 | the example line keeps its text past the absent comment and loses its two commas |
| ExampleText.Numerals | instruction_assemblers.py:127 | `int()` of `32767`, `32768` and `-32768` |
| ExampleDigits.PowerDigits | instruction_assemblers.py:176-181 | 2^k at width k + 1 is a one followed by k zeros |
| ExampleDigits.AddDigits | instruction_assemblers.py:176-198 | 0, 9, 10, 8 and 32 rendered at their widths |
| ExampleDigits.AddJoin | instruction_assemblers.py:206 | the six example fields joined by single spaces |
| Assembler.CounterAtInstruction | assembler.py:53-57 | after an instruction-bearing line the counter is that line's address, 7996 + 4·(instructions before it) |
| Assembler.CounterAligned | assembler.py:22-57 | the counter is always a multiple of 4 and at least 7992 |
| Assembler.InstructionsMonotone | assembler.py:53-57 | the instruction count never decreases, and it grows across any instruction-bearing line |
| Assembler.AddressesIncrease | assembler.py:53-57 | a later line's address is above every earlier instruction's address |
| Assembler.NoInstructionsBetween | assembler.py:53-57 | lines of the other categories (unsupported, invalid instruction, label only, …) leave the counter unchanged |
| Assembler.LabelWithInstrBindsOwnAddress | assembler.py:74-76 | LABEL_WITH_R/I/J binds the label to that line's own address |
| Assembler.LabelOnlyBindsNextInstruction | assembler.py:71-73 | LABEL_ONLY binds counter + 4, the address of the next instruction-bearing line |
| Assembler.LabelWithUnsupportedBindsCounter | assembler.py:74-76 | LABEL_WITH_U binds the unadvanced counter, 7992 when no instruction precedes it |
| Assembler.LastDeclaration | assembler.py:64-68 | the last earlier label-bearing line whose stripped text before `:` is the name, or none |
| Assembler.SymbolLookup | assembler.py:64-76 | a name is bound exactly when it was bound before or some line declared it; the last declaration wins; an undeclared name keeps its old address |
| Assembler.SymbolsAligned | assembler.py:53-76 | every address the first pass binds is word aligned |
| Assembler.FirstInvalid | assembler.py:47-51 | the first INVALID line, every line before it being of another category |
| Assembler.SkippedLineTakesNoAddress | assembler.py:47-57 | a U_INSTRUCTION, LABEL_WITH_U_INSTR or INVALID_INSTRUCTION line leaves the counter unchanged and does not stop the pass, and of these only LABEL_WITH_U_INSTR carries a label |
| Assembler.AssemblerState.constructor | assembler.py:7-17 | the three tables start empty |
| Assembler.AssemblerState.ProcessFirstPass | assembler.py:26-77 | lines up to the first INVALID are processed. The symbol table gets their label bindings and the variable table is unchanged. `line_type_list` gets one entry per line processed, the INVALID one included; an INVALID line fails with its 1-based number and no later line is processed |
| Assembler.LookupMnemonic | assembler.py:118-127 | exactly one of: the catalogue entry of a catalogued mnemonic, "unsupported" for a name in the unsupported list, an "Invalid Instruction" error for any other mnemonic, and a fourth outcome, `NoMnemonic`, for the empty token list (Python's `IndexError`) |

## Left out

- File handling, printing and the CLI (`assemble`, `open_with_error`, `main.py`) are I/O. The debug write to `o_file` in the first pass is I/O too.
- Line classification (`helpers.get_line_type`, the `REGEX_DICT` patterns) is not part of this model. The first pass takes each line's `LineType` as an input sequence beside the lines.
- `helpers.sign_extend` is not among the source files; the model renders a natural number `n < 2^w` as exactly `w` binary digits in its place.
- The second pass (`process_second_pass`) is an empty stub, and is left out.
- The part of `assemble_instruction` after the mnemonic lookup is an unfinished draft that repeats the verifier, and is left out.
- The unwritten TODOs are not invented: splitting and checking `imm(rs)` operands, encoding `imm(rs)`, branch offsets, filling the variable table, and shifting J addresses.
- Exception message texts are not modelled; errors carry their kind, the offending token or value, and for the first pass the line number and line.
- PyText.ParseInt: models Python `int()` as an optional sign and decimal digits. It omits the underscores, the surrounding whitespace and the non-ASCII decimal digits that `int()` also accepts, so the verifier reports `1_0` as not numeric where Python reads it as 10. It also omits CPython's limit on the digits of a numeral (`sys.get_int_max_str_digits`, 4300 by default since 3.11 and 3.10.7): a longer numeral, leading zeros counted, raises `ValueError` in Python but parses in the model.
- PyText.IsSpace: treats as whitespace the characters Python's `str.split()` and `str.strip()` treat so for `str`. Unicode normalisation is out of scope.
- InstructionAssemblers.AssembleIInstruction: a negative immediate is encoded as its 16-bit two's complement. This is an extension, because the source leaves negative immediates as a TODO and the behaviour of `sign_extend` on `bin()` of a negative number is not visible.
- InstructionAssemblers.AssembleJInstruction: requires the address to be below 2^26, because `sign_extend` on a wider number is not visible.
- InstructionAssemblers.AssembleRInstruction: requires a token for each role, fit for it (`EncodableTokens`), as verified tokens are (`VerifiedTokensEncodable`). Extra trailing tokens are allowed and, as in Python, ignored (`ExtraTokensIgnored`). The other cases are not modelled. Too few tokens raise an `IndexError` in Python. An unknown register or a token `int()` rejects raises a `KeyError` or `ValueError`. An out-of-range number (a shift amount of `40` or `-1`, an immediate of `70000`) goes to `sign_extend`, whose behaviour is not visible.
- InstructionAssemblers.AssembleIInstruction: has the same requirement on its tokens, for the same reason.
- InstructionAssemblers.AssembleJInstruction: requires at least two tokens and `tokens[1]` in the symbol table, as verified tokens have; further tokens are ignored, as in Python. Fewer than two tokens raise an `IndexError` in Python and a missing label a `KeyError`; neither is modelled.
- Python integers are unbounded, like Dafny's, so no wrap-around is modelled. The verifier range-checks immediates and shift amounts; the source never range-checks the J address before rendering it (instruction_assemblers.py:288-291). The model requires every rendered value to fit its field.
