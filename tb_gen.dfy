/** The generator as the script runs it: a line loop that fills the port
    tables in place, a classification pass that sets the clock and reset
    flags and prunes the stimulus table, and an emitter that writes the
    testbench to an output file string by string. Each step is proved to
    compute what the specification functions of `Signature` and `Harness`
    describe. */
module TbGen {
  import opened Wrappers
  import opened Text
  import opened OrderedDict
  import opened Patterns
  import opened Signature
  import opened Harness

  /** The testbench file opened for writing: its path and what has been written to it. */
  class OutFile {
    const path: string
    var chunks: seq<string>

    constructor (path: string)
      ensures this.path == path && chunks == []
    {
      this.path := path;
      chunks := [];
    }

    /** The file's text. */
    function Contents(): string
      reads this
    {
      Concat(chunks)
    }

    method Write(s: string)
      modifies this
      ensures chunks == old(chunks) + [s]
    {
      chunks := chunks + [s];
    }
  }

  /** The script's global variables. `clk` is unbound until a clock input is
      seen; `rst` is the empty string until a reset input is seen. */
  class Generator {
    var moduleName: Option<string>
    var inDict: Ports
    var outDict: Ports
    var inregDict: Ports
    var inoutDict: Ports
    var combo: bool
    var clk: Option<string>
    var rst: string
    var rstH: nat
    var rstL: nat

    /** What the line loop has found so far. */
    function Scanned(): ScanState
      reads this
    {
      ScanState(moduleName, inDict, outDict)
    }

    /** What the classification pass has derived. */
    function Derived(): Design
      reads this
    {
      Design(moduleName, inregDict, outDict, Keys(inoutDict), if combo then None else clk,
             if rst == "" then None else Some(ResetSignal(rst, rstH, rstL)), inDict)
    }

    /** Lines 21-33: empty tables, combinational, no reset. */
    constructor ()
      ensures Scanned() == Initial && inregDict == [] && inoutDict == []
      ensures combo && clk.None? && rst == ""
    {
      moduleName := None;
      inDict := [];
      outDict := [];
      inregDict := [];
      inoutDict := [];
      combo := true;
      clk := None;
      rst := "";
      rstH := 0;
      rstL := 0;
    }

    /** One turn of the line loop: a module line sets the name; otherwise an
        input or output line assigns its table entry. */
    method ReadLine(line: string)
      modifies this
      ensures Scanned() == Step(old(Scanned()), line)
      ensures inregDict == old(inregDict) && inoutDict == old(inoutDict)
      ensures combo == old(combo) && clk == old(clk) && rst == old(rst)
      ensures rstH == old(rstH) && rstL == old(rstL)
    {
      StepModule(Scanned(), line);
      var x := MatchModule(line);
      if x.Some? {
        moduleName := x;
      } else {
        ReadPortLine(line);
      }
    }

    /** Lines 45-53: the input pattern is tried first. */
    method ReadPortLine(line: string)
      requires MatchModule(line).None?
      modifies this
      ensures Scanned() == Step(old(Scanned()), line)
      ensures inregDict == old(inregDict) && inoutDict == old(inoutDict)
      ensures combo == old(combo) && clk == old(clk) && rst == old(rst)
      ensures rstH == old(rstH) && rstL == old(rstL)
    {
      var y := MatchPort(line, "input", "wire");
      if y.Some? {
        StepInput(Scanned(), line, y.value);
        inDict := Put(inDict, y.value.name, EntryOf(y.value));
      } else {
        ReadOutputLine(line);
      }
    }

    /** Lines 56-62: the output pattern, on a line that is neither a module nor an input line. */
    method ReadOutputLine(line: string)
      requires MatchModule(line).None? && MatchPort(line, "input", "wire").None?
      modifies this
      ensures Scanned() == Step(old(Scanned()), line)
      ensures inregDict == old(inregDict) && inoutDict == old(inoutDict)
      ensures combo == old(combo) && clk == old(clk) && rst == old(rst)
      ensures rstH == old(rstH) && rstL == old(rstL)
    {
      var z := MatchPort(line, "output", "reg");
      StepOutput(Scanned(), line, z);
      if z.Some? {
        outDict := Put(outDict, z.value.name, EntryOf(z.value));
      }
    }

    /** The line loop over the whole design file. */
    method ReadLines(lines: seq<string>)
      modifies this
      ensures Scanned() == Scan(old(Scanned()), lines)
      ensures inregDict == old(inregDict) && inoutDict == old(inoutDict)
      ensures combo == old(combo) && clk == old(clk) && rst == old(rst)
      ensures rstH == old(rstH) && rstL == old(rstL)
    {
      for i := 0 to |lines|
        invariant Scanned() == Scan(old(Scanned()), lines[..i])
        invariant inregDict == old(inregDict) && inoutDict == old(inoutDict)
        invariant combo == old(combo) && clk == old(clk) && rst == old(rst)
        invariant rstH == old(rstH) && rstL == old(rstL)
      {
        assert lines[..i + 1][..i] == lines[..i];
        ReadLine(lines[i]);
      }
      assert lines[..|lines|] == lines;
    }

    /** Lines 65-95, run once on the flags the script starts with. */
    method Classify()
      requires combo && clk.None? && rst == ""
      modifies this
      ensures Derived() == Analyze(old(Scanned()))
      ensures combo <==> clk.None?
    {
      inoutDict := PutAll(inDict, outDict);
      inregDict := inDict;
      FindAliases();
      if !combo {
        DropClockAndReset();
      }
    }

    /** Lines 71-86: the loop over the input names that sets the clock and reset flags. */
    method FindAliases()
      requires combo && clk.None? && rst == ""
      modifies this
      ensures moduleName == old(moduleName) && inDict == old(inDict) && outDict == old(outDict)
      ensures inregDict == old(inregDict) && inoutDict == old(inoutDict)
      ensures combo <==> clk.None?
      ensures clk == LastAlias(Keys(inDict), Clock)
      ensures rst == "" <==> LastAlias(Keys(inDict), Reset).None?
      ensures rst != "" ==> LastAlias(Keys(inDict), Reset) == Some(rst) && ResetOf(rst) == ResetSignal(rst, rstH, rstL)
    {
      var names := Keys(inDict);
      for i := 0 to |names|
        invariant moduleName == old(moduleName) && inDict == old(inDict) && outDict == old(outDict)
        invariant inregDict == old(inregDict) && inoutDict == old(inoutDict)
        invariant combo <==> clk.None?
        invariant clk == LastAlias(names[..i], Clock)
        invariant rst == "" <==> LastAlias(names[..i], Reset).None?
        invariant rst != "" ==> LastAlias(names[..i], Reset) == Some(rst) && ResetOf(rst) == ResetSignal(rst, rstH, rstL)
      {
        LastAliasSnoc(names, i, Clock);
        LastAliasSnoc(names, i, Reset);
        ClassifyName(names[i]);
      }
      assert names[..|names|] == names;
    }

    /** The body of the loop at lines 71-86 for one input name. */
    method ClassifyName(n: string)
      modifies this
      ensures moduleName == old(moduleName) && inDict == old(inDict) && outDict == old(outDict)
      ensures inregDict == old(inregDict) && inoutDict == old(inoutDict)
      ensures IsAlias(n, Clock) ==> !combo && clk == Some(n)
      ensures !IsAlias(n, Clock) ==> combo == old(combo) && clk == old(clk)
      ensures IsAlias(n, Reset) ==> rst == n && ResetOf(n) == ResetSignal(n, rstH, rstL)
      ensures !IsAlias(n, Reset) ==> rst == old(rst) && rstH == old(rstH) && rstL == old(rstL)
    {
      AliasesDisjoint(n);
      if IsAlias(n, Clock) {
        combo := false;
        clk := Some(n);
      } else if IsAlias(n, Reset) {
        rst := n;
        ResetOfCases(n);
        if EndsWith(rst, "_n") {
          rstH := 0;
          rstL := 1;
        } else {
          rstH := 1;
          rstL := 0;
        }
      }
    }

    /** Lines 93-95: `del in_dict[clk]`, then `del in_dict[rst]` if there is a reset. */
    method DropClockAndReset()
      requires clk.Some? && clk == LastAlias(Keys(inDict), Clock)
      requires rst == "" <==> LastAlias(Keys(inDict), Reset).None?
      requires rst != "" ==> LastAlias(Keys(inDict), Reset) == Some(rst)
      modifies this
      ensures moduleName == old(moduleName) && outDict == old(outDict)
      ensures inregDict == old(inregDict) && inoutDict == old(inoutDict)
      ensures combo == old(combo) && clk == old(clk) && rst == old(rst)
      ensures rstH == old(rstH) && rstL == old(rstL)
      ensures inDict == Prune(old(inDict), clk.value, LastAlias(Keys(old(inDict)), Reset))
    {
      AliasesDisjoint(clk.value);
      inDict := Delete(inDict, clk.value);
      if rst != "" {
        GetSome(old(inDict), rst);
        GetSome(inDict, rst);
        inDict := Delete(inDict, rst);
      }
    }

    /** A declaration loop, lines 114-127. */
    method EmitDecls(tb: OutFile, kind: string, ports: Ports)
      modifies tb
      ensures tb.chunks == old(tb.chunks) + DeclChunks(kind, ports)
    {
      for i := 0 to |ports|
        invariant tb.chunks == old(tb.chunks) + DeclChunks(kind, ports[..i])
      {
        assert ports[..i + 1][..i] == ports[..i];
        var it := ports[i];
        if Width(it.value) > 1 {
          tb.Write(kind + " [" + DecimalString(it.value.msb) + ":" + DecimalString(it.value.lsb) + "] " + it.key + ";\n");
        } else {
          tb.Write(kind + " " + it.key + ";\n");
        }
      }
      assert ports[..|ports|] == ports;
    }

    /** The instantiation loop, lines 132-139. */
    method EmitBindings(tb: OutFile, names: seq<string>)
      modifies tb
      ensures tb.chunks == old(tb.chunks) + BindChunks(names, |names|)
    {
      for i := 0 to |names|
        invariant tb.chunks == old(tb.chunks) + BindChunks(names, i)
      {
        tb.Write("\t." + names[i] + "(" + names[i] + ")");
        if names[i] != names[|names| - 1] {
          tb.Write(",\n");
        } else {
          tb.Write("\n\t);\n");
        }
      }
    }

    /** The zero-initialisation loop, lines 150-152. */
    method EmitZeros(tb: OutFile, ports: Ports)
      modifies tb
      ensures tb.chunks == old(tb.chunks) + ZeroChunks(ports)
    {
      for i := 0 to |ports|
        invariant tb.chunks == old(tb.chunks) + ZeroChunks(ports[..i])
      {
        assert ports[..i + 1][..i] == ports[..i];
        tb.Write("\t" + ports[i].key + " = " + DecimalString(Width(ports[i].value)) + "'d0;\n");
      }
      assert ports[..|ports|] == ports;
    }

    /** The stimulus loops, lines 159-164: ten vectors, one assignment per stimulus input in each. */
    method EmitRounds(tb: OutFile, ports: Ports, draws: seq<seq<nat>>)
      requires DrawsFit(ports, draws)
      modifies tb
      ensures tb.chunks == old(tb.chunks) + RoundsChunks(ports, draws)
    {
      for r := 0 to Rounds
        invariant tb.chunks == old(tb.chunks) + RoundsChunks(ports, draws[..r])
      {
        assert draws[..r + 1][..r] == draws[..r];
        EmitRound(tb, ports, draws[r]);
      }
      assert draws[..Rounds] == draws;
    }

    /** One turn of the outer stimulus loop, lines 160-164. */
    method EmitRound(tb: OutFile, ports: Ports, row: seq<nat>)
      requires RowFits(ports, row)
      modifies tb
      ensures tb.chunks == old(tb.chunks) + RoundChunks(ports, row)
    {
      tb.Write("#" + Delay);
      for k := 0 to |ports|
        invariant tb.chunks == old(tb.chunks) + ["#" + Delay] + AssignChunks(ports, row, k)
      {
        tb.Write("\t" + ports[k].key + " = " + DecimalString(Width(ports[k].value)) + "'d" + DecimalString(row[k]) + ";\n");
      }
      tb.Write("\n");
    }

    /** Lines 108-169: the whole testbench, or the `NameError` at line 111 when no module was found. */
    method Emit(tb: OutFile, draws: seq<seq<nat>>) returns (ok: bool)
      requires DrawsFit(inDict, draws) && (combo <==> clk.None?)
      modifies tb
      ensures HarnessWrites(Derived(), draws).Success? ==>
        ok && tb.chunks == old(tb.chunks) + HarnessWrites(Derived(), draws).value
      ensures HarnessWrites(Derived(), draws).Failure? ==>
        !ok && tb.chunks == old(tb.chunks) + HarnessWrites(Derived(), draws).error.written
      ensures Derived() == old(Derived())
    {
      tb.Write(Timescale);
      if moduleName.None? {
        return false;
      }
      var m := moduleName.value;
      tb.Write("module " + m + "_tb;\n");
      ghost var c0 := tb.chunks;
      EmitPreamble(tb, m);
      ghost var c1 := tb.chunks;
      EmitInitialBlock(tb, draws);
      ok := true;
      Assoc3(old(tb.chunks), [Timescale, "module " + m + "_tb;\n"], Preamble(Derived(), m), InitialBlock(Derived(), draws));
      assert c0 == old(tb.chunks) + [Timescale, "module " + m + "_tb;\n"];
    }

    /** Lines 113-144: declarations, instantiation and the clock generator. */
    method EmitPreamble(tb: OutFile, m: string)
      requires combo <==> clk.None?
      modifies tb
      ensures tb.chunks == old(tb.chunks) + Preamble(Derived(), m)
    {
      ghost var d := Derived();
      ghost var c0 := tb.chunks;
      EmitDecls(tb, "reg", inregDict);
      EmitDecls(tb, "wire", outDict);
      assert tb.chunks == c0 + Declarations(d) by {
        Assoc2(c0, DeclChunks("reg", inregDict), DeclChunks("wire", outDict));
      }
      ghost var c1 := tb.chunks;
      EmitInstantiation(tb, m);
      ghost var c2 := tb.chunks;
      EmitClock(tb);
      Assoc3(c0, Declarations(d), Instantiation(d, m), ClockGen(d.clock));
    }

    /** Lines 143-144: the clock toggles every half period in sequential mode. */
    method EmitClock(tb: OutFile)
      requires combo <==> clk.None?
      modifies tb
      ensures tb.chunks == old(tb.chunks) + ClockGen(Derived().clock)
    {
      if !combo {
        tb.Write("always #" + HalfPeriod + " " + clk.value + " = ~" + clk.value + ";\n");
      }
    }

    /** Lines 130-142: the instance of the design, its port bindings and a blank line. */
    method EmitInstantiation(tb: OutFile, m: string)
      modifies tb
      ensures tb.chunks == old(tb.chunks) + Instantiation(Derived(), m)
    {
      tb.Write("\n//Module instantiation\n");
      tb.Write(m + " dut (\n");
      EmitBindings(tb, Keys(inoutDict));
      tb.Write("\n");
    }

    /** Lines 147-169: the initial block up to the end of the module. */
    method EmitInitialBlock(tb: OutFile, draws: seq<seq<nat>>)
      requires DrawsFit(inDict, draws) && (combo <==> clk.None?)
      modifies tb
      ensures tb.chunks == old(tb.chunks) + InitialBlock(Derived(), draws)
    {
      EmitInitialisation(tb);
      tb.Write("\n");
      EmitRounds(tb, inDict, draws);
      ghost var c2 := tb.chunks;
      EmitFooter(tb);
      Assoc3(old(tb.chunks), Initialisation(Derived()), Stimulus(Derived(), draws), Footer);
    }

    /** Lines 166-169: stop the simulation, close the initial block and the module. */
    method EmitFooter(tb: OutFile)
      modifies tb
      ensures tb.chunks == old(tb.chunks) + Footer
    {
      tb.Write("\n#50\t$stop;\n");
      tb.Write("end\n\n");
      tb.Write("endmodule\n");
    }

    /** Lines 147-155: the clock and the stimulus inputs set to zero, then the reset sequence. */
    method EmitInitialisation(tb: OutFile)
      requires combo <==> clk.None?
      modifies tb
      ensures tb.chunks == old(tb.chunks) + Initialisation(Derived())
    {
      ghost var d := Derived();
      ghost var c0 := tb.chunks;
      tb.Write("\ninitial begin\n");
      EmitClockInit(tb);
      ghost var c1 := tb.chunks;
      EmitZeros(tb, inDict);
      ghost var c2 := tb.chunks;
      EmitReset(tb);
      assert c1 == c0 + (["\ninitial begin\n"] + ClockInit(d.clock));
      Assoc3(c0, ["\ninitial begin\n"] + ClockInit(d.clock), ZeroChunks(d.stimulus), ResetChunks(d.reset));
    }

    /** Line 149: the clock starts low in sequential mode. */
    method EmitClockInit(tb: OutFile)
      requires combo <==> clk.None?
      modifies tb
      ensures tb.chunks == old(tb.chunks) + ClockInit(Derived().clock)
    {
      if !combo {
        tb.Write("\t" + clk.value + " = 1'b0;\n");
      }
    }

    /** Lines 153-155: the reset is asserted, then released after one delay. */
    method EmitReset(tb: OutFile)
      modifies tb
      ensures tb.chunks == old(tb.chunks) + ResetChunks(Derived().reset)
    {
      if rst != "" {
        tb.Write("\t" + rst + " = 1'b" + DecimalString(rstH) + ";\n");
        tb.Write("\n#" + Delay + "\t" + rst + " = 1'b" + DecimalString(rstL) + ";\n");
      }
    }
  }

  /** The testbench file as the script leaves it. */
  datatype Testbench = Testbench(path: string, text: string)

  /** A run either completes or stops with the `NameError` of line 111, leaving a partial file. */
  datatype Run = Completed(file: Testbench) | Crashed(file: Testbench)

  /** The whole script on a design file's path and lines, with the given stimulus values. */
  function GenerateSpec(vfile: string, lines: seq<string>, draws: seq<seq<nat>>): Run
    requires DrawsFit(Analyze(Scan(Initial, lines)).stimulus, draws)
  {
    var path := OutputPath(vfile);
    match HarnessWrites(Analyze(Scan(Initial, lines)), draws)
    case Success(w) => Completed(Testbench(path, Concat(w)))
    case Failure(e) => Crashed(Testbench(path, Concat(e.written)))
  }

  /** The script: read the design, classify its inputs, write the testbench. */
  method Generate(vfile: string, lines: seq<string>, draws: seq<seq<nat>>) returns (run: Run)
    requires DrawsFit(Analyze(Scan(Initial, lines)).stimulus, draws)
    ensures run == GenerateSpec(vfile, lines, draws)
  {
    var g := new Generator();
    g.ReadLines(lines);
    assert g.Scanned() == Scan(Initial, lines);
    g.Classify();
    ghost var d := Analyze(Scan(Initial, lines));
    assert g.Derived() == d;
    var tb := new OutFile(OutputPath(vfile));
    assert g.Derived() == d;
    var ok := g.Emit(tb, draws);
    assert g.Derived() == d;
    ghost var w := HarnessWrites(d, draws);
    var file := Testbench(tb.path, tb.Contents());
    run := if ok then Completed(file) else Crashed(file);
    if w.Success? {
      EmptyAppend(w.value);
    } else {
      EmptyAppend(w.error.written);
    }
  }

  lemma EmptyAppend<T>(x: seq<T>)
    ensures [] + x == x
  {
  }

  /** The script fails with `NameError` exactly when it read no module name (by
      `ModuleIsLastMatch`, when no line is a module header); the file it leaves
      then holds only the timescale line. */
  lemma CrashIffNoModule(vfile: string, lines: seq<string>, draws: seq<seq<nat>>)
    requires DrawsFit(Analyze(Scan(Initial, lines)).stimulus, draws)
    ensures GenerateSpec(vfile, lines, draws).file.path == OutputPath(vfile)
    ensures GenerateSpec(vfile, lines, draws).Crashed? <==> Scan(Initial, lines).moduleName.None?
    ensures GenerateSpec(vfile, lines, draws).Crashed? ==> GenerateSpec(vfile, lines, draws).file.text == Timescale
  {
    var s := Scan(Initial, lines);
    var d := Analyze(s);
    assert d.moduleName == s.moduleName;
    var w := HarnessWrites(d, draws);
    var path := OutputPath(vfile);
    if w.Failure? {
      assert GenerateSpec(vfile, lines, draws) == Crashed(Testbench(path, Concat(w.error.written)));
      ConcatOne(Timescale);
    } else {
      assert GenerateSpec(vfile, lines, draws) == Completed(Testbench(path, Concat(w.value)));
    }
  }

  /** The module name the script reads is a word taken from a header line. */
  lemma ModuleNameIsWord(lines: seq<string>)
    ensures Scan(Initial, lines).moduleName.Some? ==>
      |Scan(Initial, lines).moduleName.value| >= 1 && AllWord(Scan(Initial, lines).moduleName.value)
  {
    ModuleIsLastMatch(lines);
  }

  /** In a completed run the testbench toggles `c` exactly when `c` is the last
      input whose name is a clock name. */
  lemma ToggleOfDesign(lines: seq<string>, draws: seq<seq<nat>>, c: string)
    requires DrawsFit(Analyze(Scan(Initial, lines)).stimulus, draws)
    requires Scan(Initial, lines).moduleName.Some?
    ensures var names := Keys(Scan(Initial, lines).inputs);
      ToggleLine(c) in HarnessWrites(Analyze(Scan(Initial, lines)), draws).value
      <==> IsAlias(c, Clock) && exists i | 0 <= i < |names| ::
             names[i] == c && forall j | i < j < |names| :: !IsAlias(names[j], Clock)
  {
    var s := Scan(Initial, lines);
    var d := Analyze(s);
    ModuleNameIsWord(lines);
    assert d.clock == LastAlias(Keys(s.inputs), Clock);
    ToggleIffClock(d, draws, c);
    LastAliasIs(Keys(s.inputs), Clock, c);
  }

  /** In a completed run the testbench starts clock name `c` low exactly when
      it is the last input whose name is a clock name. The restriction to
      clock names is needed: `rst_n = 1'b0;` has the same form. */
  lemma ClockInitOfDesign(lines: seq<string>, draws: seq<seq<nat>>, c: string)
    requires DrawsFit(Analyze(Scan(Initial, lines)).stimulus, draws)
    requires Scan(Initial, lines).moduleName.Some?
    requires IsAlias(c, Clock)
    ensures var names := Keys(Scan(Initial, lines).inputs);
      ClockInitLine(c) in HarnessWrites(Analyze(Scan(Initial, lines)), draws).value
      <==> exists i | 0 <= i < |names| ::
             names[i] == c && forall j | i < j < |names| :: !IsAlias(names[j], Clock)
  {
    var s := Scan(Initial, lines);
    var d := Analyze(s);
    ModuleNameIsWord(lines);
    assert d.clock == LastAlias(Keys(s.inputs), Clock);
    AliasIsWord(c, Clock);
    ResetIsNotClock(s, c);
    ClockInitIffClock(d, draws, c);
    LastAliasIs(Keys(s.inputs), Clock, c);
  }
}
