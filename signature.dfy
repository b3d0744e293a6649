/** What the generator learns from a design file: the module name, the input
    and output port tables, and the clock and reset it picks out of the inputs.
    These are the specification functions the imperative generator is proved
    against. */
module Signature {
  import opened Wrappers
  import opened Text
  import opened OrderedDict
  import opened Patterns

  // ---------------------------------------------------------------- entries

  /** A port table value: `[1]` for an unranged port, `[width, MSB, LSB]` for a ranged one. */
  datatype Entry = Scalar | Vector(width: nat, msb: nat, lsb: nat)

  function AbsDiff(a: nat, b: nat): nat {
    if a >= b then a - b else b - a
  }

  /** `j[0]`, the first element of a table value. */
  function Width(e: Entry): nat {
    match e
    case Scalar => 1
    case Vector(w, _, _) => w
  }

  /** The width law: a ranged entry spans `|MSB-LSB|+1` bits. */
  predicate Lawful(e: Entry) {
    e.Vector? ==> e.width == AbsDiff(e.msb, e.lsb) + 1
  }

  /** The table value stored for a captured port. */
  function EntryOf(m: PortMatch): (e: Entry)
    ensures Lawful(e) && Width(e) >= 1
    ensures e.Vector? <==> m.range.Some?
    ensures e.Vector? ==> e.msb == m.range.value.msb && e.lsb == m.range.value.lsb
  {
    match m.range
    case None => Scalar
    case Some(r) => Vector(AbsDiff(r.msb, r.lsb) + 1, r.msb, r.lsb)
  }

  /** A lawful ranged entry has width one exactly when its bounds coincide, as in `[0:0]`. */
  lemma WidthOne(e: Entry)
    requires Lawful(e) && e.Vector?
    ensures Width(e) == 1 <==> e.msb == e.lsb
    ensures Width(e) >= 1
  {
  }

  type Ports = seq<Item<Entry>>

  // ---------------------------------------------------------------- scanning

  datatype LineKind = ModuleLine(name: string) | InputLine(port: PortMatch) | OutputLine(port: PortMatch) | OtherLine

  /** The `if`/`elif` chain of the line loop: the module pattern first, then
      the input pattern, then the output pattern. */
  function Recognize(line: string): (k: LineKind)
    ensures k.ModuleLine? <==> MatchModule(line).Some?
    ensures k.InputLine? ==> MatchModule(line).None? && MatchPort(line, "input", "wire") == Some(k.port)
    ensures k.OutputLine? ==> MatchModule(line).None? && MatchPort(line, "input", "wire").None?
                              && MatchPort(line, "output", "reg") == Some(k.port)
    ensures k.OtherLine? ==> MatchModule(line).None? && MatchPort(line, "input", "wire").None?
                             && MatchPort(line, "output", "reg").None?
  {
    match MatchModule(line)
    case Some(n) => ModuleLine(n)
    case None =>
      match MatchPort(line, "input", "wire")
      case Some(m) => InputLine(m)
      case None =>
        match MatchPort(line, "output", "reg")
        case Some(m) => OutputLine(m)
        case None => OtherLine
  }

  /** The variables the line loop updates; `module` is unbound until a module line is seen. */
  datatype ScanState = ScanState(moduleName: Option<string>, inputs: Ports, outputs: Ports)

  const Initial := ScanState(None, [], [])

  /** One turn of the line loop. */
  function Step(s: ScanState, line: string): ScanState {
    match Recognize(line)
    case ModuleLine(n) => s.(moduleName := Some(n))
    case InputLine(m) => s.(inputs := Put(s.inputs, m.name, EntryOf(m)))
    case OutputLine(m) => s.(outputs := Put(s.outputs, m.name, EntryOf(m)))
    case OtherLine => s
  }

  /** A turn on an input line that is not a module line. */
  lemma StepInput(s: ScanState, line: string, m: PortMatch)
    requires MatchModule(line).None? && MatchPort(line, "input", "wire") == Some(m)
    ensures Step(s, line) == s.(inputs := Put(s.inputs, m.name, EntryOf(m)))
  {
  }

  /** A turn on a line that is neither a module nor an input line. */
  lemma StepOutput(s: ScanState, line: string, z: Option<PortMatch>)
    requires MatchModule(line).None? && MatchPort(line, "input", "wire").None?
    requires z == MatchPort(line, "output", "reg")
    ensures Step(s, line) == if z.Some? then s.(outputs := Put(s.outputs, z.value.name, EntryOf(z.value))) else s
  {
  }

  /** The line loop over `lines`, started in state `s`. */
  function Scan(s: ScanState, lines: seq<string>): ScanState
    decreases |lines|
  {
    if lines == [] then s else Step(Scan(s, lines[..|lines| - 1]), lines[|lines| - 1])
  }

  datatype Direction = Input | Output

  /** The ports declared in `lines` for one direction, in file order, repeats included. */
  function Declared(lines: seq<string>, dir: Direction): Ports
    decreases |lines|
  {
    if lines == [] then []
    else
      Declared(lines[..|lines| - 1], dir) + DeclaredBy(lines[|lines| - 1], dir)
  }

  /** The table a turn of the line loop updates for one direction. */
  function Table(s: ScanState, dir: Direction): Ports {
    if dir == Input then s.inputs else s.outputs
  }

  /** What a line contributes to the declarations of one direction. */
  function DeclaredBy(line: string, dir: Direction): Ports {
    var k := Recognize(line);
    if (dir == Input && k.InputLine?) || (dir == Output && k.OutputLine?)
    then [Item(k.port.name, EntryOf(k.port))] else []
  }

  /** One turn of the line loop changes a table only by the declaration on that line. */
  lemma StepTable(s: ScanState, line: string, dir: Direction)
    ensures Table(Step(s, line), dir) == PutAll(Table(s, dir), DeclaredBy(line, dir))
  {
    var k := Recognize(line);
    if (dir == Input && k.InputLine?) || (dir == Output && k.OutputLine?) {
      assert DeclaredBy(line, dir)[..0] == [];
    }
  }

  /** Putting the items of `a + [x]` puts those of `a`, then `x`. */
  lemma PutAllSnoc<V>(d: seq<Item<V>>, a: seq<Item<V>>, b: seq<Item<V>>)
    requires |b| <= 1
    ensures PutAll(d, a + b) == PutAll(PutAll(d, a), b)
  {
    if |b| == 1 {
      assert (a + b)[..|a + b| - 1] == a;
      assert b[..0] == [];
    } else {
      assert a + b == a;
    }
  }

  /** The line loop is `d[name] = value` once per declaration, in file order. */
  lemma {:induction false} ScanIsAssignment(lines: seq<string>, dir: Direction)
    ensures Table(Scan(Initial, lines), dir) == PutAll([], Declared(lines, dir))
    decreases |lines|
  {
    if lines != [] {
      var p := lines[..|lines| - 1];
      var line := lines[|lines| - 1];
      ScanIsAssignment(p, dir);
      StepTable(Scan(Initial, p), line, dir);
      assert Declared(lines, dir) == Declared(p, dir) + DeclaredBy(line, dir);
      PutAllSnoc([], Declared(p, dir), DeclaredBy(line, dir));
    }
  }

  /** A port table lists each declared name once, in the order of its first
      declaration, with the value of its last declaration. */
  lemma ScanTables(lines: seq<string>, dir: Direction)
    ensures var t := Table(Scan(Initial, lines), dir);
      var decl := Declared(lines, dir);
      && Unique(Keys(t))
      && Keys(t) == FirstOccurrences(Keys(decl))
      && forall n | n in Keys(decl) :: Get(t, n) == Some(LastValue(decl, n))
  {
    ScanIsAssignment(lines, dir);
    var decl := Declared(lines, dir);
    PutAllKeys([], decl);
    assert Keys<Entry>([]) + Keys(decl) == Keys(decl);
    forall n | n in Keys(decl)
      ensures Get(PutAll([], decl), n) == Some(LastValue(decl, n))
    {
      PutAllGet([], decl, n);
    }
  }

  /** One turn of the line loop sets the module name exactly on a module line. */
  lemma StepModule(s: ScanState, line: string)
    ensures Step(s, line).moduleName == if MatchModule(line).Some? then MatchModule(line) else s.moduleName
  {
  }

  /** The last value present in `xs`: each one overwrites the previous one. */
  function LastSome<T>(xs: seq<Option<T>>): (r: Option<T>)
    decreases |xs|
  {
    if xs == [] then None
    else if xs[|xs| - 1].Some? then xs[|xs| - 1]
    else LastSome(xs[..|xs| - 1])
  }

  /** Nothing is left exactly when every value is absent; otherwise the
      result sits at a position after which every value is absent. */
  lemma LastSomeSpec<T>(xs: seq<Option<T>>)
    ensures LastSome(xs).None? <==> forall i | 0 <= i < |xs| :: xs[i].None?
    ensures LastSome(xs).Some? ==>
      exists i | 0 <= i < |xs| :: xs[i] == LastSome(xs) && forall j | i < j < |xs| :: xs[j].None?
  {
    LastSomeNone(xs);
    LastSomeAt(xs);
  }

  lemma {:induction false} LastSomeNone<T>(xs: seq<Option<T>>)
    ensures LastSome(xs).None? <==> forall i | 0 <= i < |xs| :: xs[i].None?
    decreases |xs|
  {
    if xs != [] {
      var n := |xs| - 1;
      var p := xs[..n];
      if xs[n].None? {
        assert LastSome(xs) == LastSome(p);
        LastSomeNone(p);
        assert forall i | 0 <= i < n :: xs[i] == p[i];
      }
    }
  }

  lemma {:induction false} LastSomeAt<T>(xs: seq<Option<T>>)
    ensures LastSome(xs).Some? ==>
      exists i | 0 <= i < |xs| :: xs[i] == LastSome(xs) && forall j | i < j < |xs| :: xs[j].None?
    decreases |xs|
  {
    if xs != [] {
      var n := |xs| - 1;
      var p := xs[..n];
      if xs[n].Some? {
        assert xs[n] == LastSome(xs);
      } else {
        assert LastSome(xs) == LastSome(p);
        LastSomeAt(p);
        if LastSome(p).Some? {
          var i :| 0 <= i < |p| && p[i] == LastSome(p) && forall j | i < j < |p| :: p[j].None?;
          assert xs[i] == LastSome(xs);
          assert forall j | i < j < |xs| :: xs[j].None? by {
            forall j | i < j < |xs|
              ensures xs[j].None?
            {
              if j < n {
                assert xs[j] == p[j];
              }
            }
          }
        }
      }
    }
  }

  /** The module pattern's capture on each line. */
  function ModuleMatches(lines: seq<string>): (ms: seq<Option<string>>)
    ensures |ms| == |lines| && forall i | 0 <= i < |lines| :: ms[i] == MatchModule(lines[i])
  {
    seq(|lines|, i requires 0 <= i < |lines| => MatchModule(lines[i]))
  }

  lemma MatchesPrefix(lines: seq<string>, n: nat)
    requires n <= |lines|
    ensures ModuleMatches(lines)[..n] == ModuleMatches(lines[..n])
  {
    var ms := ModuleMatches(lines);
    forall i | 0 <= i < n
      ensures ms[..n][i] == ModuleMatches(lines[..n])[i]
    {
      assert lines[..n][i] == lines[i];
    }
  }

  /** The line loop leaves the module name of the last line the module pattern matches. */
  lemma {:induction false} ScanModule(lines: seq<string>)
    ensures Scan(Initial, lines).moduleName == LastSome(ModuleMatches(lines))
    decreases |lines|
  {
    if lines != [] {
      var n := |lines| - 1;
      var p := lines[..n];
      var ms := ModuleMatches(lines);
      ScanModule(p);
      assert Scan(Initial, lines) == Step(Scan(Initial, p), lines[n]);
      StepModule(Scan(Initial, p), lines[n]);
      MatchesPrefix(lines, n);
      assert LastSome(ms) == if ms[n].Some? then ms[n] else LastSome(ms[..n]);
    }
  }

  /** The module name is one found on some line, and no later line names a module;
      it is unbound exactly when no line does. */
  lemma ModuleIsLastMatch(lines: seq<string>)
    ensures Scan(Initial, lines).moduleName.None? <==> forall i | 0 <= i < |lines| :: MatchModule(lines[i]).None?
    ensures Scan(Initial, lines).moduleName.Some? ==>
      exists i | 0 <= i < |lines| :: MatchModule(lines[i]) == Scan(Initial, lines).moduleName
        && forall j | i < j < |lines| :: MatchModule(lines[j]).None?
  {
    ScanModule(lines);
    LastSomeSpec(ModuleMatches(lines));
  }

  /** Every value in a table built by the line loop obeys the width law. */
  lemma {:induction false} ScanLawful(s: ScanState, lines: seq<string>)
    requires forall n | Get(s.inputs, n).Some? :: Lawful(Get(s.inputs, n).value)
    requires forall n | Get(s.outputs, n).Some? :: Lawful(Get(s.outputs, n).value)
    ensures forall n | Get(Scan(s, lines).inputs, n).Some? :: Lawful(Get(Scan(s, lines).inputs, n).value)
    ensures forall n | Get(Scan(s, lines).outputs, n).Some? :: Lawful(Get(Scan(s, lines).outputs, n).value)
    decreases |lines|
  {
    if lines != [] {
      ScanLawful(s, lines[..|lines| - 1]);
    }
  }

  /** The tables built by the line loop have unique keys. */
  lemma {:induction false} ScanUnique(s: ScanState, lines: seq<string>)
    requires Unique(Keys(s.inputs)) && Unique(Keys(s.outputs))
    ensures Unique(Keys(Scan(s, lines).inputs)) && Unique(Keys(Scan(s, lines).outputs))
    decreases |lines|
  {
    if lines != [] {
      ScanUnique(s, lines[..|lines| - 1]);
    }
  }

  /** A port line written out from a well-formed split, on a line the module
      pattern does not claim, is recorded under its name with its decimal bounds. */
  lemma InputLineRecorded(s: ScanState, d: PortLine)
    requires WellFormed(d) && !Ambiguous("wire", d)
    requires MatchModule(Render("input", "wire", d)).None?
    ensures var t := Step(s, Render("input", "wire", d)).inputs;
      && Get(t, d.name) == Some(EntryOf(Capture(d)))
      && (d.range.Some? ==>
            Width(Get(t, d.name).value) == AbsDiff(DecimalValue(d.range.value.msb), DecimalValue(d.range.value.lsb)) + 1)
      && (d.range.None? ==> Get(t, d.name) == Some(Scalar))
      && Step(s, Render("input", "wire", d)).outputs == s.outputs
  {
    ScanPortRendered("input", "wire", d);
  }

  /** An output line written out from a well-formed split, on a line the module
      pattern does not claim, is recorded among the outputs under its name with
      its decimal bounds; the input pattern does not claim it. */
  lemma OutputLineRecorded(s: ScanState, d: PortLine)
    requires WellFormed(d) && !Ambiguous("reg", d)
    requires MatchModule(Render("output", "reg", d)).None?
    ensures var t := Step(s, Render("output", "reg", d)).outputs;
      && Get(t, d.name) == Some(EntryOf(Capture(d)))
      && (d.range.Some? ==>
            Width(Get(t, d.name).value) == AbsDiff(DecimalValue(d.range.value.msb), DecimalValue(d.range.value.lsb)) + 1)
      && (d.range.None? ==> Get(t, d.name) == Some(Scalar))
      && Step(s, Render("output", "reg", d)).inputs == s.inputs
  {
    InputMissesOutputLine(d);
    ScanPortRendered("output", "reg", d);
  }

  // ---------------------------------------------------------------- classification

  datatype Role = Clock | Reset

  /** The clock names of line 73 and the reset names of line 78. */
  predicate IsAlias(n: string, role: Role) {
    match role
    case Clock => n == "clk" || n == "clk_n" || n == "clock" || n == "clock_n"
    case Reset => n == "rst" || n == "rst_n" || n == "reset" || n == "reset_n"
  }

  /** The last name in `names` with the given role: each match overwrites the previous one. */
  function LastAlias(names: seq<string>, role: Role): (r: Option<string>)
    ensures r.Some? ==> IsAlias(r.value, role) && r.value in names
    decreases |names|
  {
    if names == [] then None
    else if IsAlias(names[|names| - 1], role) then Some(names[|names| - 1])
    else LastAlias(names[..|names| - 1], role)
  }

  /** The alias chosen is the one at the highest position; there is none exactly when no name has the role. */
  lemma LastAliasSpec(names: seq<string>, role: Role)
    ensures LastAlias(names, role).None? <==> forall i | 0 <= i < |names| :: !IsAlias(names[i], role)
    ensures LastAlias(names, role).Some? ==>
      exists i | 0 <= i < |names| :: names[i] == LastAlias(names, role).value
        && forall j | i < j < |names| :: !IsAlias(names[j], role)
  {
    LastAliasNone(names, role);
    LastAliasAt(names, role);
  }

  lemma {:induction false} LastAliasNone(names: seq<string>, role: Role)
    ensures LastAlias(names, role).None? <==> forall i | 0 <= i < |names| :: !IsAlias(names[i], role)
    decreases |names|
  {
    if names != [] {
      var n := |names| - 1;
      var p := names[..n];
      if !IsAlias(names[n], role) {
        assert LastAlias(names, role) == LastAlias(p, role);
        LastAliasNone(p, role);
        assert forall i | 0 <= i < n :: names[i] == p[i];
      }
    }
  }

  lemma {:induction false} LastAliasAt(names: seq<string>, role: Role)
    ensures LastAlias(names, role).Some? ==>
      exists i | 0 <= i < |names| :: names[i] == LastAlias(names, role).value
        && forall j | i < j < |names| :: !IsAlias(names[j], role)
    decreases |names|
  {
    if names != [] {
      var n := |names| - 1;
      var p := names[..n];
      if IsAlias(names[n], role) {
        assert names[n] == LastAlias(names, role).value;
      } else {
        assert LastAlias(names, role) == LastAlias(p, role);
        LastAliasAt(p, role);
        if LastAlias(p, role).Some? {
          var i :| 0 <= i < |p| && p[i] == LastAlias(p, role).value
                   && forall j | i < j < |p| :: !IsAlias(p[j], role);
          assert names[i] == LastAlias(names, role).value;
          assert forall j | i < j < |names| :: !IsAlias(names[j], role) by {
            forall j | i < j < |names|
              ensures !IsAlias(names[j], role)
            {
              if j < n {
                assert names[j] == p[j];
              }
            }
          }
        }
      }
    }
  }

  /** `c` is the alias chosen exactly when it has the role and no later name has it. */
  lemma LastAliasIs(names: seq<string>, role: Role, c: string)
    ensures LastAlias(names, role) == Some(c)
      <==> IsAlias(c, role) && exists i | 0 <= i < |names| ::
             names[i] == c && forall j | i < j < |names| :: !IsAlias(names[j], role)
  {
    LastAliasSpec(names, role);
    if IsAlias(c, role) && exists i | 0 <= i < |names| ::
         names[i] == c && forall j | i < j < |names| :: !IsAlias(names[j], role) {
      var i :| 0 <= i < |names| && names[i] == c && forall j | i < j < |names| :: !IsAlias(names[j], role);
      assert LastAlias(names, role).Some?;
      var i' :| 0 <= i' < |names| && names[i'] == LastAlias(names, role).value
                && forall j | i' < j < |names| :: !IsAlias(names[j], role);
      assert IsAlias(names[i'], role);
      assert i == i';
    }
  }

  /** Extending the names by one: the new name wins if it has the role. */
  lemma LastAliasSnoc(names: seq<string>, i: nat, role: Role)
    requires i < |names|
    ensures LastAlias(names[..i + 1], role) ==
            if IsAlias(names[i], role) then Some(names[i]) else LastAlias(names[..i], role)
  {
    assert names[..i + 1][..i] == names[..i];
  }

  lemma AliasesDisjoint(n: string)
    ensures !(IsAlias(n, Clock) && IsAlias(n, Reset))
  {
  }

  /** Every clock and reset name is a non-empty word. */
  lemma AliasIsWord(n: string, role: Role)
    requires IsAlias(n, role)
    ensures |n| >= 1 && AllWord(n)
  {
    assert forall k | 0 <= k < |n| :: n[k] in "abcdeklnorst_";
  }

  /** The reset picked out of the inputs, with the level that asserts it and the level that releases it. */
  datatype ResetSignal = ResetSignal(name: string, asserted: nat, released: nat)

  /** `re.search(r"_n$", rst)` decides the polarity: an `_n` name is active low. */
  function ResetOf(name: string): ResetSignal {
    if EndsWith(name, "_n") then ResetSignal(name, 0, 1) else ResetSignal(name, 1, 0)
  }

  lemma ResetOfCases(name: string)
    ensures EndsWith(name, "_n") ==> ResetOf(name) == ResetSignal(name, 0, 1)
    ensures !EndsWith(name, "_n") ==> ResetOf(name) == ResetSignal(name, 1, 0)
  {
  }

  /** Of the four reset names, `rst_n` and `reset_n` are driven low first and
      `rst` and `reset` high first; the two levels always differ. */
  lemma ResetPolarity(name: string)
    requires IsAlias(name, Reset)
    ensures var r := ResetOf(name);
      && r.name == name
      && (r.asserted, r.released) == (if name == "rst_n" || name == "reset_n" then (0, 1) else (1, 0))
      && r.asserted + r.released == 1
  {
  }

  /** What the generator derived from the design: the tables it declares and
      binds, the clock and reset, and the inputs it drives with stimulus. */
  datatype Design = Design(
    moduleName: Option<string>,
    regs: Ports,
    wires: Ports,
    bound: seq<string>,
    clock: Option<string>,
    reset: Option<ResetSignal>,
    stimulus: Ports)

  /** `del in_dict[clk]`, then `del in_dict[rst]` when there is a reset. */
  function Prune(inputs: Ports, clock: string, reset: Option<string>): Ports
    requires clock in Keys(inputs) && IsAlias(clock, Clock)
    requires reset.Some? ==> reset.value in Keys(inputs) && IsAlias(reset.value, Reset)
  {
    AliasesDisjoint(clock);
    var once := Delete(inputs, clock);
    match reset
    case None => once
    case Some(r) =>
      assert r in Keys(once) by {
        GetSome(inputs, r);
        GetSome(once, r);
      }
      Delete(once, r)
  }

  /** Lines 65-95: merge the tables for the instantiation, copy the inputs
      for the declarations, pick the clock and reset, and in sequential mode
      drop both from the stimulus. */
  function Analyze(s: ScanState): Design {
    var names := Keys(s.inputs);
    var clock := LastAlias(names, Clock);
    var reset := LastAlias(names, Reset);
    var stimulus :=
      if clock.Some? then Prune(s.inputs, clock.value, reset)
      else s.inputs;
    Design(s.moduleName, s.inputs, s.outputs, Keys(PutAll(s.inputs, s.outputs)), clock,
           if reset.Some? then Some(ResetOf(reset.value)) else None, stimulus)
  }

  /** The instantiation binds every input, then every output that is not also an input. */
  lemma BoundPorts(s: ScanState)
    requires Unique(Keys(s.inputs)) && Unique(Keys(s.outputs))
    ensures Analyze(s).bound == Keys(s.inputs) + Without(Keys(s.outputs), set k | k in Keys(s.inputs))
    ensures Unique(Analyze(s).bound)
  {
    UnionKeys(s.inputs, s.outputs);
    PutAllKeys(s.inputs, s.outputs);
  }

  /** In sequential mode the stimulus is the inputs without the clock and the
      reset, in their order and with their values; in combinational mode it is
      all the inputs, a reset included. The declarations keep every input. */
  lemma StimulusPruning(s: ScanState)
    requires Unique(Keys(s.inputs))
    ensures var d := Analyze(s);
      && d.regs == s.inputs
      && (d.clock.None? ==> d.stimulus == s.inputs)
      && (d.clock.Some? && d.reset.None? ==> Keys(d.stimulus) == Without(Keys(s.inputs), {d.clock.value}))
      && (d.clock.Some? && d.reset.Some? ==>
            Keys(d.stimulus) == Without(Keys(s.inputs), {d.clock.value, d.reset.value.name}))
      && Unique(Keys(d.stimulus))
      && (forall n | d.clock != Some(n) && (d.reset.None? || d.reset.value.name != n) ::
            Get(d.stimulus, n) == Get(s.inputs, n))
  {
    var d := Analyze(s);
    var names := Keys(s.inputs);
    var clock := LastAlias(names, Clock);
    var reset := LastAlias(names, Reset);
    assert d.regs == s.inputs && d.clock == clock;
    assert d.reset.Some? <==> reset.Some?;
    assert d.reset.Some? ==> d.reset.value.name == reset.value;
    if clock.Some? {
      assert d.stimulus == Prune(s.inputs, clock.value, reset);
      PruneKeys(s.inputs, clock.value, reset);
    } else {
      assert d.stimulus == s.inputs;
    }
  }

  /** What the deletions leave: the inputs without the clock and the reset, other entries unchanged. */
  lemma PruneKeys(inputs: Ports, clock: string, reset: Option<string>)
    requires Unique(Keys(inputs))
    requires clock in Keys(inputs) && IsAlias(clock, Clock)
    requires reset.Some? ==> reset.value in Keys(inputs) && IsAlias(reset.value, Reset)
    ensures reset.None? ==> Keys(Prune(inputs, clock, reset)) == Without(Keys(inputs), {clock})
    ensures reset.Some? ==> Keys(Prune(inputs, clock, reset)) == Without(Keys(inputs), {clock, reset.value})
    ensures Unique(Keys(Prune(inputs, clock, reset)))
    ensures forall n | n != clock && reset != Some(n) :: Get(Prune(inputs, clock, reset), n) == Get(inputs, n)
  {
    if reset.Some? {
      var r := reset.value;
      AliasesDisjoint(clock);
      WithoutTwice(Keys(inputs), {clock}, {r});
      assert {clock} + {r} == {clock, r};
    }
  }

  /** Dropping two sets in turn drops their union. */
  lemma {:induction false} WithoutTwice(ks: seq<string>, a: set<string>, b: set<string>)
    ensures Without(Without(ks, a), b) == Without(ks, a + b)
    decreases |ks|
  {
    if ks != [] {
      var p := ks[..|ks| - 1];
      WithoutTwice(p, a, b);
      var w := Without(p, a);
      if ks[|ks| - 1] !in a {
        assert (w + [ks[|ks| - 1]])[..|w|] == w;
      }
    }
  }

  /** The clock is chosen exactly when some input has a clock name, and it is the last such input. */
  lemma ClockChoice(s: ScanState)
    ensures Analyze(s).clock.Some? <==> exists i | 0 <= i < |s.inputs| :: IsAlias(s.inputs[i].key, Clock)
    ensures Analyze(s).clock.Some? ==>
      exists i | 0 <= i < |s.inputs| :: s.inputs[i].key == Analyze(s).clock.value
        && forall j | i < j < |s.inputs| :: !IsAlias(s.inputs[j].key, Clock)
  {
    LastAliasSpec(Keys(s.inputs), Clock);
  }

  /** The reset of an analysed design never carries a clock name. */
  lemma ResetIsNotClock(s: ScanState, c: string)
    requires IsAlias(c, Clock)
    ensures Analyze(s).reset.Some? ==> Analyze(s).reset.value.name != c
  {
    var r := LastAlias(Keys(s.inputs), Reset);
    if r.Some? {
      assert Analyze(s).reset == Some(ResetOf(r.value));
      AliasesDisjoint(c);
    }
  }
}
