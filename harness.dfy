/** The testbench the generator writes: the strings passed to the file's
    `write` calls, in order, as a function of the analysed design and the
    stimulus values; and the testbench file's path. */
module Harness {
  import opened Wrappers
  import opened Text
  import opened OrderedDict
  import opened Signature

  /** `str(delay)`: the delay before the reset is released and before each stimulus vector. */
  const Delay := "13"

  /** `str(tclk / 2)`: half the clock period, rendered as a float. */
  const HalfPeriod := "5.0"

  /** The number of stimulus vectors, `range(1, 11)`. */
  const Rounds: nat := 10

  const Timescale := "`timescale 1ns/10ps\n\n"
  const Footer := ["\n#50\t$stop;\n", "end\n\n", "endmodule\n"]

  // ---------------------------------------------------------------- output path

  /** `vfile[:-2] + "_tb" + vfile[-2:]`; both slices clamp at the string's start. */
  function OutputPath(vfile: string): (r: string)
    ensures |r| == |vfile| + 3
    ensures var cut := if |vfile| >= 2 then |vfile| - 2 else 0;
      r[..cut] == vfile[..cut] && r[cut..cut + 3] == "_tb" && r[cut + 3..] == vfile[cut..]
  {
    var cut := if |vfile| >= 2 then |vfile| - 2 else 0;
    vfile[..cut] + "_tb" + vfile[cut..]
  }

  /** Taking the inserted `_tb` back out gives the design file's path. */
  lemma OutputPathInverse(vfile: string)
    ensures var cut := if |vfile| >= 2 then |vfile| - 2 else 0;
      OutputPath(vfile)[..cut] + OutputPath(vfile)[cut + 3..] == vfile
  {
    var cut := if |vfile| >= 2 then |vfile| - 2 else 0;
    assert vfile[..cut] + vfile[cut..] == vfile;
  }

  /** For a `.v` file the testbench sits next to it with `_tb` before the extension. */
  lemma OutputPathOfVerilog(stem: string)
    ensures OutputPath(stem + ".v") == stem + "_tb.v"
  {
    var v := stem + ".v";
    assert v[..|stem|] == stem;
    assert v[|stem|..] == ".v";
  }

  // ---------------------------------------------------------------- declarations

  /** One `reg` or `wire` declaration: the stored bounds are written only when the width exceeds one. */
  function DeclLine(kind: string, it: Item<Entry>): string {
    if Width(it.value) > 1 then
      kind + " [" + DecimalString(it.value.msb) + ":" + DecimalString(it.value.lsb) + "] " + it.key + ";\n"
    else
      kind + " " + it.key + ";\n"
  }

  /** The declaration loop over `ports`. */
  function DeclChunks(kind: string, ports: Ports): seq<string>
    decreases |ports|
  {
    if ports == [] then [] else DeclChunks(kind, ports[..|ports| - 1]) + [DeclLine(kind, ports[|ports| - 1])]
  }

  /** The declaration loop writes one line per table entry, in table order. */
  lemma {:induction false} DeclChunksSpec(kind: string, ports: Ports)
    ensures |DeclChunks(kind, ports)| == |ports|
    ensures forall i | 0 <= i < |ports| :: DeclChunks(kind, ports)[i] == DeclLine(kind, ports[i])
    decreases |ports|
  {
    if ports != [] {
      var n := |ports| - 1;
      var front := ports[..n];
      DeclChunksSpec(kind, front);
      assert DeclChunks(kind, ports) == DeclChunks(kind, front) + [DeclLine(kind, ports[n])];
      forall i | 0 <= i < |ports|
        ensures DeclChunks(kind, ports)[i] == DeclLine(kind, ports[i])
      {
        if i < n {
          assert ports[i] == front[i];
        }
      }
    }
  }

  /** A declaration carries a bit range exactly when its entry is wider than
      one bit, and it ends with the port's name. */
  lemma DeclLineRange(kind: string, it: Item<Entry>)
    requires '[' !in kind && '[' !in it.key
    ensures '[' in DeclLine(kind, it) <==> Width(it.value) > 1
    ensures EndsWith(DeclLine(kind, it), " " + it.key + ";\n")
  {
    var tail := " " + it.key + ";\n";
    if Width(it.value) > 1 {
      var lead := kind + " [" + DecimalString(it.value.msb) + ":" + DecimalString(it.value.lsb) + "]";
      assert DeclLine(kind, it) == lead + tail;
      assert DeclLine(kind, it)[|kind| + 1] == '[';
    } else {
      assert DeclLine(kind, it) == kind + tail;
      assert '[' !in tail;
    }
  }

  /** Over a whole design file the declarations of one direction are one line
      per distinct name, in the order of the name's first declaration, with
      the entry of its last declaration. */
  lemma DeclarationsOfScan(lines: seq<string>, dir: Direction, kind: string)
    ensures var t := Table(Scan(Initial, lines), dir);
      var decl := Declared(lines, dir);
      var names := FirstOccurrences(Keys(decl));
      && |DeclChunks(kind, t)| == |names|
      && forall i | 0 <= i < |names| ::
           names[i] in Keys(decl) && DeclChunks(kind, t)[i] == DeclLine(kind, Item(names[i], LastValue(decl, names[i])))
  {
    var t := Table(Scan(Initial, lines), dir);
    var decl := Declared(lines, dir);
    var names := FirstOccurrences(Keys(decl));
    ScanTables(lines, dir);
    FirstOccurrencesSpec(Keys(decl));
    DeclChunksSpec(kind, t);
    forall i | 0 <= i < |names|
      ensures names[i] in Keys(decl) && t[i] == Item(names[i], LastValue(decl, names[i]))
    {
      assert Keys(t)[i] == names[i];
      GetAt(t, i);
    }
  }

  // ---------------------------------------------------------------- instantiation

  /** `.n(n)`: a port bound by name to the signal of the same name. */
  function BindLine(n: string): string {
    "\t." + n + "(" + n + ")"
  }

  const Separator := ",\n"
  const Closing := "\n\t);\n"

  /** The instantiation loop over the first `i` of `names`: each binding is
      followed by a separator, unless its name is the last name of all. */
  function BindChunks(names: seq<string>, i: nat): seq<string>
    requires i <= |names|
    decreases i
  {
    if i == 0 then []
    else
      BindChunks(names, i - 1)
      + [BindLine(names[i - 1]), if names[i - 1] != names[|names| - 1] then Separator else Closing]
  }

  /** With distinct names, every binding but the last is followed by a
      separator and the last by the closing parenthesis. */
  lemma {:induction false} BindChunksSpec(names: seq<string>, i: nat)
    requires Unique(names) && i <= |names|
    ensures |BindChunks(names, i)| == 2 * i
    ensures forall k | 0 <= k < i ::
      BindChunks(names, i)[2 * k] == BindLine(names[k])
      && BindChunks(names, i)[2 * k + 1] == if k == |names| - 1 then Closing else Separator
    decreases i
  {
    if i > 0 {
      BindChunksSpec(names, i - 1);
      var k := i - 1;
      assert names[k] == names[|names| - 1] <==> k == |names| - 1;
    }
  }

  // ---------------------------------------------------------------- initial block

  /** `always #5.0 c = ~c;`: the clock toggles every half period. */
  function ToggleLine(c: string): string {
    "always #" + HalfPeriod + " " + c + " = ~" + c + ";\n"
  }

  /** The clock starts low. */
  function ClockInitLine(c: string): string {
    "\t" + c + " = 1'b0;\n"
  }

  function ClockGen(clock: Option<string>): seq<string> {
    if clock.Some? then [ToggleLine(clock.value)] else []
  }

  function ClockInit(clock: Option<string>): seq<string> {
    if clock.Some? then [ClockInitLine(clock.value)] else []
  }

  /** A stimulus input set to zero at its width. */
  function ZeroLine(it: Item<Entry>): string {
    "\t" + it.key + " = " + DecimalString(Width(it.value)) + "'d0;\n"
  }

  function ZeroChunks(ports: Ports): seq<string>
    decreases |ports|
  {
    if ports == [] then [] else ZeroChunks(ports[..|ports| - 1]) + [ZeroLine(ports[|ports| - 1])]
  }

  /** The zeroing loop writes one zero line per stimulus input, in table order. */
  lemma {:induction false} ZeroChunksSpec(ports: Ports)
    ensures |ZeroChunks(ports)| == |ports|
    ensures forall i | 0 <= i < |ports| :: ZeroChunks(ports)[i] == ZeroLine(ports[i])
    decreases |ports|
  {
    if ports != [] {
      var n := |ports| - 1;
      var front := ports[..n];
      ZeroChunksSpec(front);
      assert ZeroChunks(ports) == ZeroChunks(front) + [ZeroLine(ports[n])];
      forall i | 0 <= i < |ports|
        ensures ZeroChunks(ports)[i] == ZeroLine(ports[i])
      {
        if i < n {
          assert ports[i] == front[i];
        }
      }
    }
  }

  /** The reset is driven to its asserted level, then after one delay to its released level. */
  function ResetChunks(reset: Option<ResetSignal>): seq<string> {
    match reset
    case None => []
    case Some(r) =>
      ["\t" + r.name + " = 1'b" + DecimalString(r.asserted) + ";\n",
       "\n#" + Delay + "\t" + r.name + " = 1'b" + DecimalString(r.released) + ";\n"]
  }

  // ---------------------------------------------------------------- stimulus

  /** One stimulus input given the value `v` at its width. */
  function AssignLine(it: Item<Entry>, v: nat): string {
    "\t" + it.key + " = " + DecimalString(Width(it.value)) + "'d" + DecimalString(v) + ";\n"
  }

  /** The values drawn for one vector fit the stimulus inputs: one per input, below `2^width`. */
  predicate RowFits(ports: Ports, row: seq<nat>) {
    |row| == |ports| && forall k | 0 <= k < |row| :: row[k] < Pow2(Width(ports[k].value))
  }

  /** The values drawn by `random.randint` over the whole run: one row per vector. */
  predicate DrawsFit(ports: Ports, draws: seq<seq<nat>>) {
    |draws| == Rounds && forall r | 0 <= r < |draws| :: RowFits(ports, draws[r])
  }

  /** The assignments of one vector for the first `i` stimulus inputs. */
  function AssignChunks(ports: Ports, row: seq<nat>, i: nat): (r: seq<string>)
    requires i <= |ports| && |row| == |ports|
    ensures |r| == i
    decreases i
  {
    if i == 0 then [] else AssignChunks(ports, row, i - 1) + [AssignLine(ports[i - 1], row[i - 1])]
  }

  /** One vector: the delay, an assignment per stimulus input, a blank line. */
  function RoundChunks(ports: Ports, row: seq<nat>): (r: seq<string>)
    requires |row| == |ports|
    ensures |r| == |ports| + 2
  {
    ["#" + Delay] + AssignChunks(ports, row, |ports|) + ["\n"]
  }

  /** Each row of draws holds one value per stimulus input. */
  predicate RowsFit(ports: Ports, draws: seq<seq<nat>>) {
    forall q | 0 <= q < |draws| :: |draws[q]| == |ports|
  }

  lemma RowsFitSlice(ports: Ports, draws: seq<seq<nat>>, i: nat, j: nat)
    requires RowsFit(ports, draws) && i <= j <= |draws|
    ensures RowsFit(ports, draws[i..j])
  {
    forall q | 0 <= q < j - i
      ensures |draws[i..j][q]| == |ports|
    {
      assert draws[i..j][q] == draws[i + q];
    }
  }

  lemma RowsFitAppend(ports: Ports, x: seq<seq<nat>>, y: seq<seq<nat>>)
    requires RowsFit(ports, x) && RowsFit(ports, y)
    ensures RowsFit(ports, x + y)
  {
    forall q | 0 <= q < |x + y|
      ensures |(x + y)[q]| == |ports|
    {
      if q >= |x| {
        assert (x + y)[q] == y[q - |x|];
      }
    }
  }

  /** One vector per row of `draws`, in order. */
  function RoundsChunks(ports: Ports, draws: seq<seq<nat>>): seq<string>
    requires RowsFit(ports, draws)
    decreases |draws|
  {
    if draws == [] then []
    else RoundsChunks(ports, draws[..|draws| - 1]) + RoundChunks(ports, draws[|draws| - 1])
  }

  /** One vector assigns its values to the stimulus inputs in table order. */
  lemma {:induction false} AssignChunksSpec(ports: Ports, row: seq<nat>, i: nat)
    requires i <= |ports| && |row| == |ports|
    ensures |AssignChunks(ports, row, i)| == i
    ensures forall k | 0 <= k < i :: AssignChunks(ports, row, i)[k] == AssignLine(ports[k], row[k])
    decreases i
  {
    if i > 0 {
      AssignChunksSpec(ports, row, i - 1);
    }
  }

  /** One vector: the delay, one assignment per stimulus input in table order, a blank line. */
  lemma RoundLayout(ports: Ports, row: seq<nat>)
    requires |row| == |ports|
    ensures |RoundChunks(ports, row)| == |ports| + 2
    ensures RoundChunks(ports, row)[0] == "#" + Delay
    ensures forall k | 0 <= k < |ports| :: RoundChunks(ports, row)[1 + k] == AssignLine(ports[k], row[k])
    ensures RoundChunks(ports, row)[|ports| + 1] == "\n"
  {
    AssignChunksSpec(ports, row, |ports|);
  }

  /** Writing the vectors of `x` and then those of `y` is writing the vectors of `x + y`. */
  lemma {:induction false} RoundsAppend(ports: Ports, x: seq<seq<nat>>, y: seq<seq<nat>>)
    requires RowsFit(ports, x)
    requires RowsFit(ports, y)
    ensures RoundsChunks(ports, x + y) == RoundsChunks(ports, x) + RoundsChunks(ports, y)
    decreases |y|
  {
    if y == [] {
      assert x + y == x;
    } else {
      var n := |y| - 1;
      var front := y[..n];
      var a := x + front;
      RowsFitSlice(ports, y, 0, n);
      assert front == y[0..n];
      RowsFitAppend(ports, x, front);
      calc {
        RoundsChunks(ports, x + y);
        { assert x + y == a + [y[n]]; RoundsSnoc(ports, a, y[n]); }
        RoundsChunks(ports, a) + RoundChunks(ports, y[n]);
        { RoundsAppend(ports, x, front); }
        RoundsChunks(ports, x) + RoundsChunks(ports, front) + RoundChunks(ports, y[n]);
        { Assoc2(RoundsChunks(ports, x), RoundsChunks(ports, front), RoundChunks(ports, y[n])); }
        RoundsChunks(ports, x) + (RoundsChunks(ports, front) + RoundChunks(ports, y[n]));
        { assert y == front + [y[n]]; RoundsSnoc(ports, front, y[n]); }
        RoundsChunks(ports, x) + RoundsChunks(ports, y);
      }
    }
  }

  /** One more row of draws is one more vector at the end. */
  lemma RoundsSnoc(ports: Ports, x: seq<seq<nat>>, row: seq<nat>)
    requires RowsFit(ports, x)
    requires |row| == |ports|
    ensures RoundsChunks(ports, x + [row]) == RoundsChunks(ports, x) + RoundChunks(ports, row)
  {
    assert (x + [row])[..|x|] == x;
  }

  /** Ten vectors of `|ports| + 2` writes each. */
  lemma {:induction false} RoundsLength(ports: Ports, draws: seq<seq<nat>>)
    requires RowsFit(ports, draws)
    ensures |RoundsChunks(ports, draws)| == |draws| * (|ports| + 2)
    decreases |draws|
  {
    if draws != [] {
      var n := |draws| - 1;
      RoundsLength(ports, draws[..n]);
      AssignChunksSpec(ports, draws[n], |ports|);
      MulNext(n, |ports| + 2);
    }
  }

  lemma MulNext(n: nat, m: nat)
    ensures (n + 1) * m == n * m + m
  {
  }

  /** The vectors are written in the order they were drawn: vector `q` sits
      between the vectors drawn before it and those drawn after it. */
  lemma RoundsInOrder(ports: Ports, draws: seq<seq<nat>>, q: nat)
    requires RowsFit(ports, draws)
    requires q < |draws|
    ensures RoundsChunks(ports, draws)
      == RoundsChunks(ports, draws[..q]) + RoundChunks(ports, draws[q]) + RoundsChunks(ports, draws[q + 1..])
    ensures |RoundsChunks(ports, draws[..q])| == q * (|ports| + 2)
  {
    var before, rest, after := draws[..q], [draws[q]] + draws[q + 1..], draws[q + 1..];
    assert draws == before + rest;
    assert before == draws[0..q] && after == draws[q + 1..|draws|];
    RowsFitSlice(ports, draws, 0, q);
    RowsFitSlice(ports, draws, q + 1, |draws|);
    assert RowsFit(ports, [draws[q]]);
    RowsFitAppend(ports, [draws[q]], after);
    RoundsAppend(ports, before, rest);
    RoundsAppend(ports, [draws[q]], after);
    assert RoundsChunks(ports, [draws[q]]) == RoundChunks(ports, draws[q]) by {
      assert [draws[q]][..0] == draws[..0];
    }
    RoundsLength(ports, before);
  }

  /** Each value written reads back as the value drawn for that input, which is below `2^width`. */
  lemma StimulusValues(ports: Ports, draws: seq<seq<nat>>)
    requires DrawsFit(ports, draws)
    ensures |RoundsChunks(ports, draws)| == Rounds * (|ports| + 2)
    ensures forall q, k | 0 <= q < Rounds && 0 <= k < |ports| ::
      var v := draws[q][k];
      && RoundChunks(ports, draws[q])[1 + k]
           == "\t" + ports[k].key + " = " + DecimalString(Width(ports[k].value)) + "'d" + DecimalString(v) + ";\n"
      && DecimalValue(DecimalString(v)) == v < Pow2(Width(ports[k].value))
  {
    RoundsLength(ports, draws);
    forall q, k | 0 <= q < Rounds && 0 <= k < |ports|
      ensures RoundChunks(ports, draws[q])[1 + k] == AssignLine(ports[k], draws[q][k])
      ensures DecimalValue(DecimalString(draws[q][k])) == draws[q][k]
    {
      RoundLayout(ports, draws[q]);
      DecimalRoundTrip(draws[q][k]);
    }
  }

  // ---------------------------------------------------------------- the whole file

  /** `module` is still unbound when line 111 reads it: Python raises `NameError`,
      leaving in the file what was written before. */
  datatype Error = NameError(written: seq<string>)

  /** The `reg` declarations of the inputs, then the `wire` declarations of the outputs. */
  function Declarations(d: Design): seq<string> {
    DeclChunks("reg", d.regs) + DeclChunks("wire", d.wires)
  }

  /** The instance of the design under test, bound port by port. */
  function Instantiation(d: Design, m: string): seq<string> {
    ["\n//Module instantiation\n", m + " dut (\n"] + BindChunks(d.bound, |d.bound|) + ["\n"]
  }

  /** Everything after the module line, up to the initial block. */
  function Preamble(d: Design, m: string): seq<string> {
    Declarations(d) + Instantiation(d, m) + ClockGen(d.clock)
  }

  /** The initial block: clock and inputs to zero, the reset sequence, the vectors, the stop. */
  function InitialBlock(d: Design, draws: seq<seq<nat>>): seq<string>
    requires DrawsFit(d.stimulus, draws)
  {
    Initialisation(d) + Stimulus(d, draws) + Footer
  }

  /** The clock and the stimulus inputs start at zero, then the reset sequence runs. */
  function Initialisation(d: Design): seq<string> {
    ["\ninitial begin\n"] + ClockInit(d.clock) + ZeroChunks(d.stimulus) + ResetChunks(d.reset)
  }

  /** A blank line, then the vectors. */
  function Stimulus(d: Design, draws: seq<seq<nat>>): seq<string>
    requires DrawsFit(d.stimulus, draws)
  {
    ["\n"] + RoundsChunks(d.stimulus, draws)
  }

  lemma Assoc2<T>(a: seq<T>, x: seq<T>, y: seq<T>)
    ensures a + x + y == a + (x + y)
  {
  }

  lemma Assoc3<T>(a: seq<T>, x: seq<T>, y: seq<T>, z: seq<T>)
    ensures a + (x + y + z) == a + x + y + z
  {
  }

  /** The strings written to the testbench file, in order. */
  function HarnessWrites(d: Design, draws: seq<seq<nat>>): (r: Result<seq<string>, Error>)
    requires DrawsFit(d.stimulus, draws)
    ensures r.Failure? <==> d.moduleName.None?
    ensures r.Failure? ==> r.error.written == [Timescale]
    ensures r.Success? ==> |r.value| >= 5 && r.value[..2] == [Timescale, "module " + d.moduleName.value + "_tb;\n"]
    ensures r.Success? ==> r.value[|r.value| - 3..] == Footer
  {
    match d.moduleName
    case None => Failure(NameError([Timescale]))
    case Some(m) =>
      var w := [Timescale, "module " + m + "_tb;\n"] + Preamble(d, m) + InitialBlock(d, draws);
      assert w[..2] == [Timescale, "module " + m + "_tb;\n"];
      assert w[|w| - 3..] == Footer;
      Success(w)
  }

  // ---------------------------------------------------------------- the clock toggle

  /** No write in `xs` starts with the `a` of `always`. */
  predicate NoAlways(xs: seq<string>) {
    forall i | 0 <= i < |xs| :: |xs[i]| >= 1 && xs[i][0] != 'a'
  }

  lemma NoAlwaysJoin(a: seq<string>, b: seq<string>)
    requires NoAlways(a) && NoAlways(b)
    ensures NoAlways(a + b)
  {
    forall i | 0 <= i < |a + b|
      ensures |(a + b)[i]| >= 1 && (a + b)[i][0] != 'a'
    {
      if i >= |a| {
        assert (a + b)[i] == b[i - |a|];
      }
    }
  }

  lemma {:induction false} DeclNoAlways(kind: string, ports: Ports)
    requires |kind| >= 1 && kind[0] != 'a'
    ensures NoAlways(DeclChunks(kind, ports))
  {
    DeclChunksSpec(kind, ports);
    forall i | 0 <= i < |ports|
      ensures DeclLine(kind, ports[i])[0] == kind[0]
    {
    }
  }

  lemma {:induction false} BindNoAlways(names: seq<string>, i: nat)
    requires i <= |names|
    ensures NoAlways(BindChunks(names, i))
    decreases i
  {
    if i > 0 {
      BindNoAlways(names, i - 1);
      var last := if names[i - 1] != names[|names| - 1] then Separator else Closing;
      assert BindLine(names[i - 1])[0] == '\t';
      NoAlwaysJoin(BindChunks(names, i - 1), [BindLine(names[i - 1]), last]);
    }
  }

  lemma {:induction false} ZeroNoAlways(ports: Ports)
    ensures NoAlways(ZeroChunks(ports))
    decreases |ports|
  {
    if ports != [] {
      var n := |ports| - 1;
      ZeroNoAlways(ports[..n]);
      assert ZeroLine(ports[n])[0] == '\t';
      NoAlwaysJoin(ZeroChunks(ports[..n]), [ZeroLine(ports[n])]);
    }
  }

  lemma {:induction false} RoundsNoAlways(ports: Ports, draws: seq<seq<nat>>)
    requires RowsFit(ports, draws)
    ensures NoAlways(RoundsChunks(ports, draws))
    decreases |draws|
  {
    if draws != [] {
      var n := |draws| - 1;
      RoundsNoAlways(ports, draws[..n]);
      RoundLayout(ports, draws[n]);
      var r := RoundChunks(ports, draws[n]);
      forall k | 0 <= k < |r|
        ensures |r[k]| >= 1 && r[k][0] != 'a'
      {
        if 1 <= k <= |ports| {
          assert r[k] == AssignLine(ports[k - 1], draws[n][k - 1]);
        }
      }
      NoAlwaysJoin(RoundsChunks(ports, draws[..n]), r);
    }
  }

  /** `always #5.0 c = ~c;` names its clock: different clocks give different lines. */
  lemma ToggleInjective(c: string, c': string)
    requires ToggleLine(c) == ToggleLine(c')
    ensures c == c'
  {
    var t := ToggleLine(c);
    assert |t| == 18 + 2 * |c|;
    assert |ToggleLine(c')| == 18 + 2 * |c'|;
    assert t[12..12 + |c|] == c;
    assert ToggleLine(c')[12..12 + |c'|] == c';
  }

  /** The instance line `m dut (` is never a toggle line when the module name is a word. */
  lemma InstanceNotToggle(m: string, c: string)
    requires AllWord(m)
    ensures m + " dut (\n" != ToggleLine(c)
  {
    var x := m + " dut (\n";
    var t := ToggleLine(c);
    assert t[..8] == "always #";
    if |m| >= 7 {
      assert x[6] == m[6] && t[6] == ' ';
    } else if |m| == 6 {
      assert x[7] == 'd' && t[7] == '#';
    } else {
      assert x[|m|] == ' ' && t[|m|] != ' ';
    }
  }

  /** Everything written from the initial block on starts otherwise than `always`. */
  lemma InitialNoAlways(d: Design, draws: seq<seq<nat>>)
    requires DrawsFit(d.stimulus, draws)
    ensures NoAlways(InitialBlock(d, draws))
  {
    ZeroNoAlways(d.stimulus);
    RoundsNoAlways(d.stimulus, draws);
    NoAlwaysJoin(["\ninitial begin\n"] + ClockInit(d.clock), ZeroChunks(d.stimulus));
    NoAlwaysJoin(["\ninitial begin\n"] + ClockInit(d.clock) + ZeroChunks(d.stimulus), ResetChunks(d.reset));
    NoAlwaysJoin(["\n"], RoundsChunks(d.stimulus, draws));
    NoAlwaysJoin(Initialisation(d), Stimulus(d, draws));
    NoAlwaysJoin(Initialisation(d) + Stimulus(d, draws), Footer);
  }

  /** The header and declarations start otherwise than `always`. */
  lemma HeadNoAlways(d: Design, m: string)
    ensures NoAlways([Timescale, "module " + m + "_tb;\n"] + Declarations(d))
  {
    DeclNoAlways("reg", d.regs);
    DeclNoAlways("wire", d.wires);
    NoAlwaysJoin(DeclChunks("reg", d.regs), DeclChunks("wire", d.wires));
    NoAlwaysJoin([Timescale, "module " + m + "_tb;\n"], Declarations(d));
  }

  /** A string starting with `a` is none of the writes in `xs`. */
  lemma NotAmong(t: string, xs: seq<string>)
    requires |t| >= 1 && t[0] == 'a' && NoAlways(xs)
    ensures t !in xs
  {
  }

  /** No line of the instantiation is a toggle line. */
  lemma InstantiationNotToggle(d: Design, m: string, c: string)
    requires AllWord(m)
    ensures ToggleLine(c) !in Instantiation(d, m)
  {
    var t := ToggleLine(c);
    assert t[0] == 'a';
    InstanceNotToggle(m, c);
    BindNoAlways(d.bound, |d.bound|);
    NoAlwaysJoin(BindChunks(d.bound, |d.bound|), ["\n"]);
    var tail := BindChunks(d.bound, |d.bound|) + ["\n"];
    assert Instantiation(d, m) == ["\n//Module instantiation\n", m + " dut (\n"] + tail;
    NotAmong(t, tail);
  }

  /** The clock toggles, `always #5.0 c = ~c;`, exactly when the design has clock `c`. */
  lemma ToggleIffClock(d: Design, draws: seq<seq<nat>>, c: string)
    requires DrawsFit(d.stimulus, draws)
    requires d.moduleName.Some? && AllWord(d.moduleName.value)
    ensures ToggleLine(c) in HarnessWrites(d, draws).value <==> d.clock == Some(c)
  {
    var m := d.moduleName.value;
    var top := [Timescale, "module " + m + "_tb;\n"];
    var w := HarnessWrites(d, draws).value;
    assert w == top + Preamble(d, m) + InitialBlock(d, draws);
    var t := ToggleLine(c);
    assert t[0] == 'a';
    assert t !in top + Declarations(d) by {
      HeadNoAlways(d, m);
      NotAmong(t, top + Declarations(d));
    }
    assert t !in InitialBlock(d, draws) by {
      InitialNoAlways(d, draws);
      NotAmong(t, InitialBlock(d, draws));
    }
    InstantiationNotToggle(d, m, c);
    if t in w {
      assert t in ClockGen(d.clock);
      ToggleInjective(c, d.clock.value);
    }
  }

  // ---------------------------------------------------------------- the clock's initial level

  /** A write that cannot be a clock's initial level `\tc = 1'b0;`: it does not
      start with a tab, it binds a port (`\t.`), or it has no `b` four
      characters from its end. */
  predicate InitFree(x: string) {
    |x| < 4 || x[0] != '\t' || x[1] == '.' || x[|x| - 4] != 'b'
  }

  predicate NoInit(xs: seq<string>) {
    forall i | 0 <= i < |xs| :: InitFree(xs[i])
  }

  lemma NoInitJoin(a: seq<string>, b: seq<string>)
    requires NoInit(a) && NoInit(b)
    ensures NoInit(a + b)
  {
    forall i | 0 <= i < |a + b|
      ensures InitFree((a + b)[i])
    {
      if i >= |a| {
        assert (a + b)[i] == b[i - |a|];
      }
    }
  }

  /** The initial level of a clock named by a word is not free of that shape. */
  lemma ClockInitShape(c: string)
    requires |c| >= 1 && AllWord(c)
    ensures !InitFree(ClockInitLine(c))
  {
    var x := ClockInitLine(c);
    assert x[1] == c[0];
    assert x[|x| - 4] == 'b';
  }

  /** `\tc = 1'b0;` names its clock: different clocks give different lines. */
  lemma ClockInitInjective(c: string, c': string)
    requires ClockInitLine(c) == ClockInitLine(c')
    ensures c == c'
  {
    var x := ClockInitLine(c);
    assert x[1..1 + |c|] == c;
    assert ClockInitLine(c')[1..1 + |c'|] == c';
  }

  lemma NotInitAmong(t: string, xs: seq<string>)
    requires !InitFree(t) && NoInit(xs)
    ensures t !in xs
  {
  }

  lemma {:induction false} DeclNoInit(kind: string, ports: Ports)
    requires |kind| >= 1 && kind[0] != '\t'
    ensures NoInit(DeclChunks(kind, ports))
  {
    DeclChunksSpec(kind, ports);
    forall i | 0 <= i < |ports|
      ensures DeclLine(kind, ports[i])[0] == kind[0]
    {
    }
  }

  lemma {:induction false} BindNoInit(names: seq<string>, i: nat)
    requires i <= |names|
    ensures NoInit(BindChunks(names, i))
    decreases i
  {
    if i > 0 {
      BindNoInit(names, i - 1);
      var last := if names[i - 1] != names[|names| - 1] then Separator else Closing;
      assert BindLine(names[i - 1])[1] == '.';
      NoInitJoin(BindChunks(names, i - 1), [BindLine(names[i - 1]), last]);
    }
  }

  /** A zero line ends in `'d0;` where an initial level ends in `'b0;`. */
  lemma {:induction false} ZeroNoInit(ports: Ports)
    ensures NoInit(ZeroChunks(ports))
  {
    ZeroChunksSpec(ports);
    forall i | 0 <= i < |ports|
      ensures InitFree(ZeroLine(ports[i]))
    {
      var x := ZeroLine(ports[i]);
      assert x[|x| - 4] == 'd';
    }
  }

  /** An assignment ends in `'d` and its digits, so its fourth character from the end is a `d` or a digit. */
  lemma AssignInitFree(it: Item<Entry>, v: nat)
    ensures InitFree(AssignLine(it, v))
  {
    var x := AssignLine(it, v);
    var ds := DecimalString(v);
    assert x == "\t" + it.key + " = " + DecimalString(Width(it.value)) + "'d" + ds + ";\n";
    if |ds| == 1 {
      assert x[|x| - 4] == 'd';
    } else {
      assert x[|x| - 4] == ds[|ds| - 2];
    }
  }

  lemma {:induction false} RoundsNoInit(ports: Ports, draws: seq<seq<nat>>)
    requires RowsFit(ports, draws)
    ensures NoInit(RoundsChunks(ports, draws))
    decreases |draws|
  {
    if draws != [] {
      var n := |draws| - 1;
      RoundsNoInit(ports, draws[..n]);
      RoundLayout(ports, draws[n]);
      var r := RoundChunks(ports, draws[n]);
      forall k | 0 <= k < |r|
        ensures InitFree(r[k])
      {
        if 1 <= k <= |ports| {
          assert r[k] == AssignLine(ports[k - 1], draws[n][k - 1]);
          AssignInitFree(ports[k - 1], draws[n][k - 1]);
        }
      }
      NoInitJoin(RoundsChunks(ports, draws[..n]), r);
    }
  }

  /** The reset lines never set a clock other than the reset itself to `1'b0`. */
  lemma ResetNotClockInit(reset: Option<ResetSignal>, c: string)
    requires |c| >= 1 && AllWord(c)
    requires reset.Some? ==> reset.value.name != c
    ensures ClockInitLine(c) !in ResetChunks(reset)
  {
    if reset.Some? {
      var r := reset.value;
      var ds := DecimalString(r.asserted);
      var x := "\t" + r.name + " = 1'b" + ds + ";\n";
      var t := ClockInitLine(c);
      assert ResetChunks(reset) == [x, "\n#" + Delay + "\t" + r.name + " = 1'b" + DecimalString(r.released) + ";\n"];
      assert ResetChunks(reset)[1][0] == '\n';
      if |r.name| < |c| {
        assert x[1 + |r.name|] == ' ';
        assert t[1 + |r.name|] == c[|r.name|];
      } else if |x| == |t| {
        assert |r.name| == |c|;
        assert x[1..1 + |c|] == r.name;
        assert t[1..1 + |c|] == c;
      }
    }
  }

  /** Outside the clock's own initial level and the reset lines, no write has the shape of an initial level. */
  lemma WritesNoInit(d: Design, draws: seq<seq<nat>>, m: string)
    requires DrawsFit(d.stimulus, draws)
    requires AllWord(m)
    ensures NoInit([Timescale, "module " + m + "_tb;\n"] + Declarations(d))
    ensures NoInit(Instantiation(d, m))
    ensures NoInit(ClockGen(d.clock))
    ensures NoInit(ZeroChunks(d.stimulus))
    ensures NoInit(Stimulus(d, draws) + Footer)
  {
    DeclNoInit("reg", d.regs);
    DeclNoInit("wire", d.wires);
    NoInitJoin(DeclChunks("reg", d.regs), DeclChunks("wire", d.wires));
    NoInitJoin([Timescale, "module " + m + "_tb;\n"], Declarations(d));
    BindNoInit(d.bound, |d.bound|);
    var inst := m + " dut (\n";
    assert InitFree(inst) by {
      if |m| >= 1 {
        assert inst[0] == m[0];
      } else {
        assert inst[0] == ' ';
      }
    }
    NoInitJoin(["\n//Module instantiation\n", inst], BindChunks(d.bound, |d.bound|));
    NoInitJoin(["\n//Module instantiation\n", inst] + BindChunks(d.bound, |d.bound|), ["\n"]);
    ZeroNoInit(d.stimulus);
    RoundsNoInit(d.stimulus, draws);
    NoInitJoin(["\n"], RoundsChunks(d.stimulus, draws));
    NoInitJoin(Stimulus(d, draws), Footer);
  }

  /** A clock's initial level, `c = 1'b0;`, is written exactly when the design
      has clock `c`, provided the reset does not carry that name. */
  lemma ClockInitIffClock(d: Design, draws: seq<seq<nat>>, c: string)
    requires DrawsFit(d.stimulus, draws)
    requires d.moduleName.Some? && AllWord(d.moduleName.value)
    requires |c| >= 1 && AllWord(c)
    requires d.reset.Some? ==> d.reset.value.name != c
    ensures ClockInitLine(c) in HarnessWrites(d, draws).value <==> d.clock == Some(c)
  {
    var m := d.moduleName.value;
    var top := [Timescale, "module " + m + "_tb;\n"];
    var w := HarnessWrites(d, draws).value;
    assert w == top + Preamble(d, m) + InitialBlock(d, draws);
    var t := ClockInitLine(c);
    ClockInitShape(c);
    WritesNoInit(d, draws, m);
    assert t !in top + Preamble(d, m) by {
      assert top + Preamble(d, m) == top + Declarations(d) + Instantiation(d, m) + ClockGen(d.clock);
      NotInitAmong(t, top + Declarations(d));
      NotInitAmong(t, Instantiation(d, m));
      NotInitAmong(t, ClockGen(d.clock));
    }
    assert t in InitialBlock(d, draws) <==> t in ClockInit(d.clock) by {
      assert t[0] == '\t';
      NotInitAmong(t, ZeroChunks(d.stimulus));
      NotInitAmong(t, Stimulus(d, draws) + Footer);
      ResetNotClockInit(d.reset, c);
      assert InitialBlock(d, draws) == ["\ninitial begin\n"] + ClockInit(d.clock) + ZeroChunks(d.stimulus)
        + ResetChunks(d.reset) + (Stimulus(d, draws) + Footer);
    }
    if t in ClockInit(d.clock) {
      ClockInitInjective(c, d.clock.value);
    }
  }
}
