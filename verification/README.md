# Two-pass MIPS assembler, modelled in Dafny

The assembler reads a MIPS assembly source twice.

* Pass 1 (`firstPass`) walks the lines with an address counter that starts at 0.
  - It records, for every label a line defines, the counter value on that line.
  - The counter moves by 4 on every line that has code and is not label-only.
* Pass 2 (`secondPass`) walks the lines again with that table.
  - It splits each line into comment, label and code.
  - It matches the code against four operand patterns, tried in order: one token; two tokens; `m r, N(b)`; `m a, b, c`.
  - It rewrites `j L` and `beq a, b, L` using the table.
  - It encodes the token list into a 32-bit word (`binInstruction`), using the instruction catalog of `definitions.hpp` and the register resolver `regCode`.
  - It produces one listing row per line.

The model is written as pure functions over a `seq<string>` of source lines.

| module | file | what it holds |
|---|---|---|
| `Wrappers` | wrappers.dfy | `Option` |
| `Chars` | chars.dfy | whitespace (`isspace` in the C locale), digits, tokens, trimming |
| `Decimal` | decimal.dfy | `std::to_string(int)`, `std::stoi`, and C++ truncating `int` division |
| `Definitions` | definitions.dfy | the `instr_codes` catalog and the decoding side of it |
| `Registers` | registers.dfy | `regCode` with the standard register names |
| `Encoder` | encoder.dfy | `binInstruction` on `bv32`, with the R/I/J field layouts of the MIPS32 instruction set |
| `Shapes` | shapes.dfy | the four operand patterns of pass 2, each written as an explicit matcher |
| `LineSyntax` | linesyntax.dfy | code test, comment, label, label-only test and line shape |
| `FirstPass` | firstpass.dfy | `firstPass` as a fold over classified lines |
| `SecondPass` | secondpass.dfy | `secondPass` as a fold that resolves, encodes and emits rows |
| `Assembler` | assembler.dfy | both passes together: addresses, label values, branches and examples |

Each `std::regex` of the source is modelled by an explicit matcher. The matcher commits to the engine's leftmost, greedy choice:

* `\S*(?=:)` takes the first whitespace-delimited token that holds a `:`, up to that token's last `:`.
* A greedy `(\S+),` ends at the largest comma that lets the rest of the pattern match.
* `.*(#.*)` captures from the last `#` of the first line segment that holds one.

`std::stoi` yields `Option`. Its exception is not caught, so the program ends: the encoder then returns `Crash` and pass 2 stops adding rows (`aborted`).

Two steps of pass 2 are reported as defects under "Findings". Pass 2 takes a `Mode`:

* `AsWritten` is the code as it stands.
* `Corrected` is the evidently intended behaviour.

Both behaviours are stated and proved.

## Model

| member | source | states |
|---|---|---|
| Definitions.Parse | definitions.hpp:21-35 | A successful catalog lookup returns the entry whose key is exactly the looked-up text |
| Definitions.ParseInvertsName | definitions.hpp:21-35 | Every mnemonic is found under its own name |
| Definitions.NamesDistinct | definitions.hpp:21-35 | The fourteen keys are pairwise distinct: two mnemonics share a name only if they are the same |
| Definitions.CatalogKeys | definitions.hpp:21-35 | A lookup succeeds exactly for add, sub, and, or, nor, slt, lw, sw, beq, addi, sll, j, jr, nop |
| Definitions.CatalogClasses | definitions.hpp:21-35 | Class R is add/sub/and/or/nor/slt/sll/jr, so `sll` is class R; class I is lw/sw/beq/addi; class J is j; NULL is nop; no entry has the shift class |
| Definitions.CodesFitSixBits | definitions.hpp:16-35 | Every opcode and function code is below 64. R entries have opcode 0; I and J entries have a nonzero opcode and function code 0 |
| Definitions.IdentifyOfFields | definitions.hpp:22-34 | A word with an entry's opcode, and under opcode 0 also its function code, decodes to that entry |
| Definitions.IdentifyInvertsCodes | definitions.hpp:22-34 | (opcode, function code) identifies every non-NULL mnemonic, in both directions: decoding an entry's codes names it, and a decoded name has those codes |
| Registers.AbbrevNumber | main.cpp:63-70 | A register abbreviation the table knows maps to a number in 0..31 |
| Registers.RegCode | main.cpp:44-71 | The result is always in 0..31. A token the register pattern rejects gives 0, and so does an abbreviation missing from the table |
| Registers.NumericRegister | main.cpp:51-60 | `$NN` gives NN when NN ≤ 31 and 0 for NN in 32..99 |
| Registers.AbbreviationRoundTrip | main.cpp:63-70 | Each standard register name passes the pattern and resolves to its number |
| Registers.AbbreviationsAreStandard | main.cpp:63-70 | Every abbreviation the table resolves is the standard spelling of its number |
| Decimal.IntToString | main.cpp:213-215 | `std::to_string` prints a non-blank text that starts with `-` exactly for negative values |
| Decimal.NatToString | main.cpp:213-215 | The digits have no leading zero and their value is the number |
| Decimal.Stoi | main.cpp:143-144 | A conversion that succeeds fits a 32-bit `int` and read at least one digit |
| Decimal.StoiInvertsToString | main.cpp:233-241 | Reading back an `int` printed by `std::to_string` gives the same value |
| Decimal.StoiOfDigits | main.cpp:143-144 | A digit string that fits an `int` converts to its value |
| Decimal.StoiRejectsDigitless | main.cpp:143-144 | A text without a digit makes `std::stoi` throw |
| Decimal.TruncDiv | main.cpp:213-215 | C++ `int` division: the remainder is smaller than the divisor and has the sign of the dividend |
| Encoder.Low16Value | main.cpp:143-144 | `& 0xFFFF` on an `int` gives a value below 2^16. It keeps a value that fits, maps a negative value down to -2^16 to its 16-bit two's complement, and in general is congruent to the value modulo 2^16 |
| Encoder.Low26Value | main.cpp:155 | `& 0x3FFFFFF` on an `int` gives a value below 2^26. It keeps a value that fits, maps a negative value down to -2^26 to its 26-bit two's complement, and in general is congruent to the value modulo 2^26 |
| Encoder.PackRFields | main.cpp:92-116 | Reading the six R fields back from a packed word gives the packed values |
| Encoder.PackIFields | main.cpp:132-145 | Reading opcode, rs, rt and immediate back from a packed I word gives the packed values |
| Encoder.PackJFields | main.cpp:147-156 | Reading opcode and target back from a packed J word gives the packed values |
| Encoder.EncodeWith | main.cpp:92-162 | The NULL class gives 0, and so does an operand count the class does not accept. The result is `Crash` exactly when the numeric operand is not a number |
| Encoder.Encode | main.cpp:75-90 | An empty list gives 0, and so does an unknown mnemonic. Otherwise the list is encoded with that mnemonic's entry |
| Encoder.EncodeRegisterFields | main.cpp:111-116 | R with four tokens: opcode 0, rs = parts[2], rt = parts[3], rd = parts[1], shamt 0, and the entry's function code |
| Encoder.EncodeJumpRegisterFields | main.cpp:99-103 | R with two tokens: rs = parts[1], the function code, and every other field 0 |
| Encoder.EncodeImmediateFields | main.cpp:132-145 | I with four tokens: the entry's opcode, rs = parts[2], rt = parts[1], and the immediate reduced to its low 16 bits |
| Encoder.EncodeJumpFields | main.cpp:147-156 | J with two tokens: the entry's opcode and the target reduced to its low 26 bits |
| Encoder.EncodeIdentifies | main.cpp:92-156 | Decoding opcode and function code of any word produced for a non-NULL mnemonic names that mnemonic again |
| Encoder.BranchEncoding | main.cpp:141-144 | A `{beq, x, y, offset}` list with a printed `int` offset encodes as opcode 4, rs = y, rt = x, and the offset's low 16 bits |
| Encoder.JumpEncoding | main.cpp:155 | A `{j, index}` list with a printed `int` index encodes as opcode 2 with the index's low 26 bits |
| Encoder.AddExample | main.cpp:111-116 | `{add, $t2, $t1, $t1}` encodes as 0x01295020 |
| Encoder.LoadWordExample | main.cpp:141-144 | `{lw, $t4, $t5, 4}` encodes as 0x8DAC0004 |
| Encoder.ShiftAsRegisterExample | main.cpp:111-116 | `sll` is class R, so `{sll, $t0, $t1, 4}` reads the shift amount as a register, which resolves to 0. The word is 0x01204000 |
| Encoder.CommaJoinedExample | main.cpp:111-116 | `{add, "$t2,$t1,$t1"}` is a two-token R list: the malformed register yields 0 and only the function code is left (0x00000020) |
| Shapes.BasedTail | main.cpp:224 | `N(b)` after the comma gives a nonempty digit string and a blank-free base |
| Shapes.Head | main.cpp:207 | A blank text has no mnemonic. Otherwise the mnemonic is a token and the rest is trimmed |
| Shapes.ShapeOf | main.cpp:205-249 | The match of the four patterns is well-formed and carries the mnemonic |
| Shapes.MatchShape | main.cpp:205-249 | A blank text matches no pattern, and every match is well-formed |
| Shapes.ShapeOfBody | main.cpp:205-249 | The operands of a well-formed shape are classified back into that same shape, so the four patterns are tried in their fixed order with the first match winning |
| Shapes.MatchShapeRender | main.cpp:205-249 | Matching undoes rendering: a well-formed shape in canonical form, with any blanks around it, is recognised as that shape |
| LineSyntax.BeforeHash | main.cpp:22-24 | `[^#]*` is a prefix of the line, free of `#`, and ends at the first `#` or at the end |
| LineSyntax.LabelSpan | main.cpp:25-28 | The label lies in the first whitespace-delimited token that contains a `:`, and runs up to that token's last `:` |
| LineSyntax.LabelName | main.cpp:25-28 | The label has no blank |
| LineSyntax.CodeAfterColonSearch | main.cpp:30-32 | The label-only search succeeds exactly when some `:` is followed by a non-blank character |
| LineSyntax.DefinedLabel | main.cpp:21-28 | A line defines a label exactly when it has code and its comment-free text holds a `:` |
| LineSyntax.StripLabels | main.cpp:202-203 | Removing `\S*:` leaves no `:`, and text without `:` is unchanged |
| LineSyntax.StripLabelOf | main.cpp:202-203 | A token holding the last `:` of the code is cut through that colon, so `loop:add $t0, $t1, $t2` becomes `add $t0, $t1, $t2` and `a:b:c add` becomes `c add`, whatever the name holds |
| LineSyntax.StripLabelsKeeps | main.cpp:202-203 | Colon-free text ending at whitespace is left untouched, and the rest of the line is stripped independently of it |
| LineSyntax.StripLabelAfterCode | main.cpp:202-203 | A label token after colon-free code (`foo bar:`) is removed while the code before it is kept |
| LineSyntax.GluedLabelStripped | main.cpp:202-203 | `loop:add $t0, $t1, $t2` loses its glued label and keeps the instruction |
| LineSyntax.Comment | main.cpp:185-187 | The comment is empty or a single `#` followed by text without `#`. It is empty without a `#`, and on a one-segment line it runs from the last `#` to the end |
| LineSyntax.CodeText | main.cpp:191-203 | The text pass 2 matches holds no `:` |
| LineSyntax.LineShape | main.cpp:189-249 | A line without code has no shape, and every shape is well-formed |
| LineSyntax.SourceLineRoundTrip | main.cpp:185-249 | The classifier takes a `label: instruction #comment` line apart into the label, label-only flag, shape, code flag and comment it was built from |
| FirstPass.WalkCountsWords | main.cpp:15-36 | After any prefix of classified lines, the counter is 4 times the number of lines that take up a word |
| FirstPass.CounterCountsWords | main.cpp:15-36 | The final pass-1 counter is the address that lies past the last line |
| FirstPass.AddressStep | main.cpp:21-36 | The counter moves by 4 across a line exactly when the line has code and is not label-only |
| FirstPass.LabelOnlyLinesShare | main.cpp:30-36 | Consecutive label-only lines and the line after them share one address |
| FirstPass.WalkHoldsLabels | main.cpp:26-28 | After a prefix, a name is in the table exactly when some classified line of the prefix defines it |
| FirstPass.TableHoldsDefinedLabels | main.cpp:26-28 | The table holds exactly the labels that some line defines |
| FirstPass.LastDefinitionWins | main.cpp:28 | A label maps to the address of the last line that defines it |
| SecondPass.Lookup | main.cpp:215 | `labelAddrMap[key]` returns the stored value. An unknown key is inserted with 0 and yields 0. No other entry changes |
| SecondPass.Resolve | main.cpp:205-249 | The token list is empty exactly for no shape, and never has three tokens. The table changes only through the `j`/`beq` lookup |
| SecondPass.ResolvedEncodable | main.cpp:133-144 | Pass 2 never builds the three-token I list that the encoder reads past the end of |
| SecondPass.StepEffect | main.cpp:252-304 | One line appends exactly one row, unless `stoi` throws. The counter moves by 4 when the line ticks, and the table is the one after resolution |
| SecondPass.EmitRow | main.cpp:252-302 | The row is an instruction exactly when the line has a shape. It carries the counter, the resolved list and its encoding, plus the line's label and comment |
| SecondPass.WalkRowCount | main.cpp:179-305 | Pass 2 gives at most one row per line, and exactly one per line unless `stoi` threw |
| SecondPass.WalkCounter | main.cpp:304 | Unless `stoi` threw, the counter is 4 times the number of lines that moved it |
| SecondPass.WalkTable | main.cpp:213-241 | The table keeps every pass-1 entry and gains only zero entries |
| SecondPass.WalkRowsPrefix | main.cpp:179-305 | A longer source only appends rows |
| SecondPass.RowOfLine | main.cpp:252-253 | Row k is the row built from line k under the state the walk had reached there |
| SecondPass.RowAt | main.cpp:252-304 | Row k: instruction exactly for a shaped line, at the counter 4 × (ticks before k), holding the list resolved under an extended table and its encoding |
| SecondPass.RowResolved | main.cpp:205-253 | An instruction row holds its line's shape resolved at the row's address under a table that extends pass 1's, and that list's encoding |
| SecondPass.RowsFollowLines | main.cpp:252-302 | Over the source, there is one row per line until `stoi` throws. A row is an instruction exactly when its line has a shape |
| SecondPass.TableOnlyGrows | main.cpp:213-241 | Pass 2 never changes a pass-1 entry. It only adds zero entries for unknown labels, including numeric `j` targets |
| SecondPass.BranchOvershoots | main.cpp:238-241 | As written, a `beq` to an aligned target lands two words past it |
| SecondPass.BranchLands | main.cpp:238-241 | With the corrected offset, a `beq` to an aligned target lands on it |
| SecondPass.BranchOvershootExample | main.cpp:238-241 | A branch at 0 to a label at 8: the written offset is 3, which goes to 16; the corrected offset is 1, which goes to 8 |
| Assembler.LastDefinition | main.cpp:28 | Finds the last line below n that defines the name, or reports that none does |
| Assembler.LastDefinitionIs | main.cpp:28 | The last line defining a label is the one `LastDefinition` finds |
| Assembler.LookupGivesLabelValue | main.cpp:215 | Whatever pass 2 has added to the table, looking up a label gives the pass-1 address of its last definition, or 0 if no line defines it |
| Assembler.TicksAgainstWords | main.cpp:304 | Before line k, the corrected pass-2 counter has ticked as often as the pass-1 counter. As written, it has ticked once more per line without code |
| Assembler.RowAddress | main.cpp:304 | Corrected, an instruction's listed address is its pass-1 address. As written, it is that plus 4 per earlier blank or comment-only line |
| Assembler.AddressesAgree | main.cpp:304 | Corrected, the two passes agree on every instruction's address |
| Assembler.AddressesDrift | main.cpp:304 | As written, an instruction after a blank or comment-only line is listed past its pass-1 address |
| Assembler.SilentCounted | main.cpp:21 | A blank or comment-only line before line k adds to the count of lines without code before k |
| Assembler.InstructionRow | main.cpp:252-253 | A line with a shape gets an instruction row |
| Assembler.BranchRow | main.cpp:233-241 | `beq a, b, L` becomes `{beq, b, a, offset}`, with the offset computed from L's value and the row's address. The word has opcode 4, rs = a, rt = b and the offset's low 16 bits |
| Assembler.JumpRow | main.cpp:213-215 | `j L` becomes `{j, value(L)/4}` with truncating division. The word has opcode 2 and that quotient's low 26 bits |
| Assembler.BranchFromLine | main.cpp:238-241 | A `beq` some whole words past line k's pass-1 address to label L lands on L's last definition when corrected, and two words past it as written |
| Assembler.BranchReachesLabel | main.cpp:238-241 | Corrected, a `beq` in the source branches to the address pass 1 gave its label |
| Assembler.BranchPassesLabel | main.cpp:238-241 | As written, the same `beq` branches two words past the label, measured from the address pass 2 lists the branch at |
| Assembler.LoadWordLine | main.cpp:219-226 | The line `lw $t4, 4($t5)` has the based shape and is reordered to `{lw, $t4, $t5, 4}` |
| Assembler.CommaJoinedLine | main.cpp:205-218 | `add $t2,$t1,$t1` takes the two-token shape and encodes as 0x00000020 |

## Left out

- File and stream handling is not modelled: `getline`, the rewind, `main` and the output files. The source arrives as a sequence of lines.
- The listing and instruction files' text is not modelled: hex formatting, padding and the symbol dump. A row keeps the data a listing line prints: address, token list, word, label text and comment.
- Error messages written to the listing are not modelled. Only their effect is: a 0 field or a 0 word.
- `REGISTER_ABRV`, `INSTR_CODES` and `INSTR_TYPE_R_SHIFT` are used by main.cpp but declared in neither main.cpp nor definitions.hpp.
  - The register table uses the standard MIPS numbering, keyed with the leading `$`.
  - The catalog is definitions.hpp's `instr_codes`.
  - The shift class is modelled in `EncodeWith`, but no catalog entry uses it, so it has no lemma.
- The three-token I-type list, for which `binInstruction` reads past the end of the vector, is excluded by the `Encodable` precondition. `SecondPass.ResolvedEncodable` shows that pass 2 never builds it.
- The unsigned pass-1 counter and the `int` pass-2 counter are unbounded here. Wrap-around would need more than 2^29 instructions.
- `Assembler.BranchRow` and `Assembler.JumpRow`: the word's fields are stated only when the printed offset or index fits an `int`, because the model's label values are unbounded.
- No lemma states that an unmatched line emits no word while the counter still moves. Both facts follow from `SecondPass.RowAt` and `SecondPass.WalkCounter`, since such a line has no shape and is not label-only.
- A line such as `foo bar:` counts as label-only, because nothing follows its first `:`. Pass 2 still removes only `bar:` and matches `foo` as an instruction. The model keeps this behaviour; it is not reported as a finding.

## Findings

| source | as written | input that shows it | evidently intended | confidence | as-written member | corrected member |
|---|---|---|---|---|---|---|
| main.cpp:238-241 | the `beq` offset is `(map[L] - count) / 4 + 1` | `beq $t0, $t1, L` at address 0 with `L` at 8: the offset is 3, so the branch goes to 16 | `(map[L] - count - 4) / 4`, so that the target `count + 4 + 4·offset` is `L`; here the offset is 1 | high; not executed | Assembler.BranchPassesLabel | Assembler.BranchReachesLabel |
| main.cpp:304 | the pass-2 counter moves by 4 on every line that is not label-only, including blank and comment-only lines | `# start` followed by `add $t0, $t1, $t2`: pass 1 puts the `add` at 0 and pass 2 lists it at 4 | move only on lines that have code and are not label-only, as pass 1 does (main.cpp:21, 36) | high; not executed | Assembler.AddressesDrift | Assembler.AddressesAgree |
