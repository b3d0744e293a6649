# tb_gen: a verified model of the Verilog testbench generator

`tb_gen.py` reads a Verilog design file line by line. It then writes a testbench next to it.

It reads three things from the design:
- the module name;
- the input ports, with an optional `wire` and an optional `[msb:lsb]` range;
- the output ports, with an optional `reg` and an optional range.

It records each port's width as `|msb - lsb| + 1`. It looks among the inputs for a clock (`clk`, `clk_n`, `clock`, `clock_n`) and a reset (`rst`, `rst_n`, `reset`, `reset_n`).

It then writes the testbench, in this order:
- a timescale and the module header;
- one `reg` per input and one `wire` per output;
- an instance that binds every port by name;
- a clock toggle, when there is a clock;
- an initial block that sets the clock low, zeroes the stimulus inputs (every input but the clock and the reset when there is a clock; every input otherwise) and drives the reset through its two levels;
- ten random stimulus vectors, 13 time units apart;
- a stop.

The project models that script and proves what it writes.

- `text.dfy` (`Text`): the regex character classes `\d`, `\w` and `\s`, plus `int()` and `str()` on decimal numerals, and the text of a file as the concatenation of its writes.
- `ordered_dict.dfy` (`OrderedDict`): Python's insertion-ordered `dict`.
  - Assigning to an existing key keeps its position and replaces its value.
  - Assigning to a new key appends it.
  - `|` is a left fold of assignments, and `del` removes one key.
- `patterns.dfy` (`Patterns`): the three `re.search` patterns as position-by-position matchers.
  - Each port match is proved to split the line into pieces that render it back.
  - Every well-formed rendering is proved to be matched as that split, except those `Patterns.Ambiguous` sets apart. These are the splits whose bare name equals the storage keyword and is followed by a blank, such as `input wire x`, where `wire\s+` is tried first. The set is a superset of the splits read differently: in `input wire ;` the pattern backtracks and still captures `wire`, yet the split is excluded.
  - The module pattern is proved to capture the word of the leftmost header on a word boundary, and to capture nothing exactly when the line holds no header.
- `signature.dfy` (`Signature`): what the line loop and the classification pass compute, as functions.
- `harness.dfy` (`Harness`): the strings passed to `tb.write`, in order, and the output path, as functions.
- `tb_gen.dfy` (`TbGen`): the script itself, imperatively.
  - A `Generator` class holds the script's tables and flags and changes them in place, with loops.
  - An `OutFile` class collects the writes.
  - Each method is proved against the function that specifies it.
  - `Generate` runs the whole script.

Behaviour of the script that the model reproduces:
- The module name comes from the last line the unanchored module pattern matches, not the first (line 41 reassigns it on every match). Text such as a comment `// module foo` matches too.
- A line that holds a module header is never scanned for ports (the `elif` at line 45).
- A port declared twice keeps the position of its first declaration and takes the width of its last (line 49 assigns into a `dict`).
- `rst_n` and `reset_n` are driven to `1'b0` first and to `1'b1` after the delay (lines 81-86).
- A range such as `[0:0]` has width one and is declared without a range (line 115).
- The testbench path inserts `_tb` before the last two characters, whatever they are (line 102).
- The instance binds the inputs first and then the outputs not already bound (line 65).
- The separator test at line 134 compares names, not positions.
- `input wire[3:0] a` captures `wire` as the port name, since `wire\s+` needs a blank after `wire` (`Patterns.StorageWithoutBlankIsName`).

## Model

Some specification functions carry no contract of their own. Their meaning is stated by the lemma rows below:
- `Signature.Step` by `Signature.Recognize` and the `ReadLine` rows;
- `Signature.Scan` by `ScanIsAssignment`, `ScanTables`, `ModuleIsLastMatch`, `ScanLawful` and `ScanUnique`;
- `Signature.Analyze` and `Signature.Prune` by `BoundPorts`, `StimulusPruning` and `ClockChoice`;
- `Signature.ResetOf` by `ResetPolarity`;
- `Harness.ZeroChunks` by `ZeroChunksSpec`;
- `Harness.ResetChunks` by `Signature.ResetPolarity`, which fixes the asserted and released levels the two lines write, and by `TbGen.Generator.EmitReset`, which places them;
- `TbGen.GenerateSpec` by `TbGen.Generate` and `TbGen.CrashIffNoModule`.


| member | source | states |
|---|---|---|
| Text.DecimalRoundTrip | Python/tb_gen.py:163 | the numeral `str(v)` writes reads back as `v` |
| Text.DecimalCanonical | Python/tb_gen.py:117 | a numeral without leading zeros is what `str(int(s))` writes back |
| OrderedDict.Put | Python/tb_gen.py:49 | a dict assignment keeps an existing key's position and appends a new key; the key maps to the new value and the other keys are untouched; keys stay unique |
| OrderedDict.PutAllKeys | Python/tb_gen.py:65 | the keys of a merged dict are the keys of both operands, each in the position of its first occurrence, with no repetition |
| OrderedDict.PutAllGet | Python/tb_gen.py:65 | after the merge, a key from the right operand maps to its last value there, and any other key keeps its value |
| OrderedDict.Delete | Python/tb_gen.py:93 | `del` removes exactly the key, keeps the other keys in order with their values, and keeps keys unique |
| OrderedDict.GetAt | Python/tb_gen.py:114 | in a dict with unique keys, each item is what its key looks up |
| OrderedDict.LastValueAt | Python/tb_gen.py:49 | the value a key ends with comes from an assignment after which that key is not assigned again |
| Patterns.FindModule | Python/tb_gen.py:39 | `re.search` takes the leftmost position where the module pattern matches |
| Patterns.MatchModule | Python/tb_gen.py:39 | a capture is the word that follows `module` and blanks at a word boundary, with no header further left in the line; nothing is captured exactly when the line holds no such header |
| Patterns.HeaderMatched | Python/tb_gen.py:39 | wherever a header starts, the pattern tried there captures its word |
| Patterns.MatchModuleHeader | Python/tb_gen.py:39 | a line of blanks, `module`, blanks, a name and a non-word character captures exactly that name |
| Patterns.NoModuleAfterWordChar | Python/tb_gen.py:39 | `\b` excludes a `module` preceded by a word character, as in `endmodule` |
| Patterns.ScanPortSound | Python/tb_gen.py:45 | every port match splits the line into well-formed pieces that render the line back |
| Patterns.ScanPortRendered | Python/tb_gen.py:45 | every well-formed port line, except the one ambiguous split, is matched as the split it was rendered from |
| Patterns.StorageWithoutBlankIsName | Python/tb_gen.py:45 | `input wire[3:0] a` is captured as an unranged port named `wire` |
| Patterns.MatchPort | Python/tb_gen.py:45-56 | the port pattern matches exactly when the line scans as a port line; the groups captured are those of that split, which is well formed and renders the line back |
| Patterns.InputMissesOutputLine | Python/tb_gen.py:45 | the input pattern never matches a line written with the `output` keyword |
| Signature.EntryOf | Python/tb_gen.py:47-52 | a ranged port is a vector of width `abs(msb - lsb) + 1` with its bounds as written; an unranged port is a scalar of width one |
| Signature.WidthOne | Python/tb_gen.py:115 | a vector has width one exactly when its bounds are equal |
| Signature.Recognize | Python/tb_gen.py:39-62 | a line is a module line when the module pattern matches; otherwise an input line when the input pattern matches; otherwise an output line when the output pattern matches |
| Signature.ScanIsAssignment | Python/tb_gen.py:36-62 | the table the loop builds is the dict assignment of every declaration of that direction, in file order |
| Signature.ScanTables | Python/tb_gen.py:36-62 | each table lists every declared name once, in the order of its first declaration, with the entry of its last declaration |
| Signature.ModuleIsLastMatch | Python/tb_gen.py:39-41 | there is no module name exactly when no line matches the module pattern; otherwise it is the name from a line after which no line matches |
| Signature.ScanLawful | Python/tb_gen.py:49 | every stored entry obeys the width law |
| Signature.ScanUnique | Python/tb_gen.py:36-62 | the tables keep their keys unique |
| Signature.OutputLineRecorded | Python/tb_gen.py:56-62 | an output line records its name among the outputs with the width computed from the decimal bounds, or width one without a range, and leaves the inputs alone |
| Signature.InputLineRecorded | Python/tb_gen.py:45-52 | an input line records its name with the width computed from the decimal bounds, or width one without a range, and leaves the outputs alone |
| Signature.LastAlias | Python/tb_gen.py:71-79 | the chosen clock or reset is an input name that is an alias of its role |
| Signature.LastAliasSpec | Python/tb_gen.py:71-79 | no alias is chosen exactly when no input is one; otherwise the chosen one is followed by no other alias of the same role |
| Signature.LastAliasIs | Python/tb_gen.py:71-79 | a name is chosen exactly when it is an alias of the role and no later input name is one |
| Signature.AliasesDisjoint | Python/tb_gen.py:73-78 | no name is both a clock alias and a reset alias |
| Signature.ResetPolarity | Python/tb_gen.py:81-86 | `rst_n` and `reset_n` are asserted at 0 and released at 1; `rst` and `reset` the other way round; the two levels always differ |
| Signature.BoundPorts | Python/tb_gen.py:65 | the instance binds the inputs in order, then the outputs that are not inputs, each name once |
| Signature.StimulusPruning | Python/tb_gen.py:91-95 | the declarations keep every input; without a clock the stimulus is all the inputs, reset included; with a clock it is the inputs without the clock and reset, in order and with their entries |
| Signature.ClockChoice | Python/tb_gen.py:71-75 | a clock exists exactly when some input has a clock name, and it is the last such input |
| Harness.OutputPath | Python/tb_gen.py:102 | the path is three characters longer: `_tb` is inserted before the last two characters, clamped at the start |
| Harness.OutputPathInverse | Python/tb_gen.py:102 | removing the inserted `_tb` gives back the design path |
| Harness.OutputPathOfVerilog | Python/tb_gen.py:102 | `x.v` becomes `x_tb.v` |
| Harness.DeclChunksSpec | Python/tb_gen.py:114-127 | one declaration is written per table entry, in table order |
| Harness.DeclLineRange | Python/tb_gen.py:115-119 | a declaration carries a bit range exactly when the width exceeds one, and it ends with the port name |
| Harness.DeclarationsOfScan | Python/tb_gen.py:114-127 | over a design file there is one declaration per distinct port name, in first-declaration order, with the last declaration's entry |
| Harness.BindChunksSpec | Python/tb_gen.py:132-139 | with distinct names, each binding is `.n(n)`, followed by `,\n`, except the last, which is followed by the closing parenthesis |
| Harness.AssignChunksSpec | Python/tb_gen.py:161-163 | one vector assigns each stimulus input its value, in table order |
| Harness.RoundLayout | Python/tb_gen.py:160-164 | a vector is `#13`, one assignment per stimulus input, then a blank line |
| Harness.RoundsAppend | Python/tb_gen.py:159-164 | writing the vectors of two runs of draws in turn is writing the vectors of both |
| Harness.RoundsLength | Python/tb_gen.py:159 | the vectors take `(number of inputs + 2)` writes each |
| Harness.RoundsInOrder | Python/tb_gen.py:159-164 | vector `q` is written after the vectors drawn before it and before those drawn after it, at offset `q * (inputs + 2)` |
| Harness.StimulusValues | Python/tb_gen.py:163 | ten vectors are written; each assignment writes the input's width and a value that reads back as the draw, below `2^width` |
| Harness.HarnessWrites | Python/tb_gen.py:108-169 | without a module name only the timescale is written before the failure; otherwise the file starts with the timescale and `module m_tb;` and ends with the stop, `end` and `endmodule` |
| Harness.ToggleInjective | Python/tb_gen.py:144 | different clocks give different toggle lines |
| Harness.InstanceNotToggle | Python/tb_gen.py:131 | the instance line of a word-named module is never a toggle line |
| Harness.ZeroChunksSpec | Python/tb_gen.py:150-152 | the zeroing loop writes one line per stimulus input, setting it to zero at its width, in table order |
| Harness.ClockInitIffClock | Python/tb_gen.py:148-149 | for a word `c` that the reset does not carry, `c = 1'b0;` is written exactly when `c` is the design's clock |
| Harness.ToggleIffClock | Python/tb_gen.py:143-144 | the toggle line for `c` is written exactly when `c` is the design's clock |
| TbGen.OutFile.Write | Python/tb_gen.py:108 | a write appends its string to the file |
| TbGen.Generator.ReadLine | Python/tb_gen.py:39-62 | one turn of the line loop updates the module name and tables as `Step` does and nothing else |
| TbGen.Generator.ReadPortLine | Python/tb_gen.py:45-52 | on a line that is not a module line the input pattern is tried first, and a match assigns the input's entry as `Step` does |
| TbGen.Generator.ReadOutputLine | Python/tb_gen.py:56-62 | on a line that is neither a module nor an input line the output pattern assigns the output's entry, or nothing changes |
| TbGen.Generator.ReadLines | Python/tb_gen.py:36-62 | the line loop leaves the tables that `Scan` computes |
| TbGen.Generator.Classify | Python/tb_gen.py:65-95 | the merge, the copy, the alias loop and the deletions leave exactly the design that `Analyze` derives, and sequential mode coincides with having a clock |
| TbGen.Generator.FindAliases | Python/tb_gen.py:71-86 | after the alias loop the clock is the last clock alias, the reset is the last reset alias with its polarity, and the tables are unchanged |
| TbGen.Generator.ClassifyName | Python/tb_gen.py:73-86 | one turn of the alias loop sets the clock or the reset when the name is an alias, and leaves everything else |
| TbGen.Generator.DropClockAndReset | Python/tb_gen.py:91-95 | the stimulus table loses the clock, then the reset when there is one |
| TbGen.Generator.EmitDecls | Python/tb_gen.py:114-127 | the declaration loop appends the declarations of the table |
| TbGen.Generator.EmitBindings | Python/tb_gen.py:132-139 | the instantiation loop appends the bindings |
| TbGen.Generator.EmitZeros | Python/tb_gen.py:150-152 | the zeroing loop appends `ZeroChunks`, one `W'd0` line per stimulus input in table order (`Harness.ZeroChunksSpec`) |
| TbGen.Generator.EmitRound | Python/tb_gen.py:160-164 | one turn of the vector loop appends one vector |
| TbGen.Generator.EmitRounds | Python/tb_gen.py:159-164 | the vector loop appends the ten vectors |
| TbGen.Generator.EmitPreamble | Python/tb_gen.py:113-144 | the declarations, the instance and the clock generator are appended in that order |
| TbGen.Generator.EmitInstantiation | Python/tb_gen.py:129-142 | the instance header, the bindings and the blank line are appended |
| TbGen.Generator.EmitClock | Python/tb_gen.py:143-144 | the toggle line of the clock is appended in sequential mode and nothing in combinational mode |
| TbGen.Generator.EmitInitialBlock | Python/tb_gen.py:147-168 | the initialisation, the vectors and the stop are appended in that order |
| TbGen.Generator.EmitInitialisation | Python/tb_gen.py:147-155 | the block opens, the clock and the stimulus inputs start at zero, then the reset sequence follows |
| TbGen.Generator.EmitClockInit | Python/tb_gen.py:148-149 | the clock is set low in sequential mode only |
| TbGen.Generator.EmitReset | Python/tb_gen.py:153-155 | with a reset, it is asserted and then released after one delay; without one nothing is written |
| TbGen.Generator.EmitFooter | Python/tb_gen.py:166-169 | the stop, `end` and `endmodule` close the file |
| TbGen.Generator.Emit | Python/tb_gen.py:108-169 | the writes are those `HarnessWrites` gives; without a module name the run stops after the timescale |
| TbGen.Generate | Python/tb_gen.py:36-169 | the script yields the testbench at `OutputPath` holding the concatenated writes, or the partial file when it crashes |
| TbGen.CrashIffNoModule | Python/tb_gen.py:111 | the script crashes exactly when it read no module name, leaving only the timescale in the testbench path |
| TbGen.ModuleNameIsWord | Python/tb_gen.py:39-41 | the module name read is a non-empty word |
| TbGen.ClockInitOfDesign | Python/tb_gen.py:148-149 | in a completed run a clock name `c` is set low exactly when it is an input and no later input name is a clock name; the statement is restricted to clock names because for other names it is false: `rst_n = 1'b0;` has the same form |
| Signature.ResetIsNotClock | Python/tb_gen.py:71-79 | the reset of an analysed design never carries a clock name |
| TbGen.ToggleOfDesign | Python/tb_gen.py:143-144 | in a completed run the toggle line for `c` is written exactly when `c` is a clock name and no later input name is one |

## Left out

- The command line (lines 5-9): the design path is a parameter of `Generate`, and a missing argument is not modelled.
- File reading and writing (lines 18, 105, 172-173): the design file is a sequence of lines, and the testbench is the sequence of strings written to it. Line splitting and newline handling are not modelled.
- The diagnostic prints (lines 40 and 96) are left out, because they go to the console and not to the testbench.
- `random.randint` (line 163): the drawn values are a parameter, ten rows of one value per stimulus input, each in `[0, 2^width - 1]` as `randint` guarantees.
- `str(tclk / 2)` (line 144) is a float rendering: it is the constant `"5.0"`, and floating point is not modelled.
- `\w` and `\d` are ASCII only: Python's Unicode word characters and digits are not modelled. `\s` is the full set that Python's `str.isspace` accepts.
- TbGen.Generate: the `NameError` raised at line 111 is modelled as a `Crashed` run whose file holds what was written before it. The exception itself is not modelled.
- A failing `open` and an interrupted write are not modelled: they are operating-system errors.
- The limit on `int()`: Python 3.11 and later raise `ValueError` at line 49 or 59 for a bound with more than 4300 digits, before the testbench is opened. The model reads a bound of any length and records its width.
- TbGen.Generate: Python 3.11 and later also refuse `str()` of an integer with more than 4300 digits. The run then raises `ValueError` partway through the file. This happens at line 152 for a width of 10^4300 or more, such as `[<4300 nines>:0]`. It happens at line 163 for a drawn value of more than 4300 digits, which is possible from width 14285 on. Such a run leaves a partial testbench; the model instead completes the run and writes the full numeral. The limit is an interpreter setting, not part of the script.
- Harness.StimulusValues: the numerals it proves to read back as the draws are written in full, including where Python 3.11 and later would raise at line 163 (see the line above).
