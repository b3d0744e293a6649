/** The three regular expressions of the line scanner, written as matchers
    that follow Python's backtracking order:
      `\bmodule\s+(\w+)`                                        searched anywhere in the line,
      `^\s*input\s+(?:wire\s+)?(?:\[(\d+)\s*:\s*(\d+)\]\s*)?(\w+)` anchored at the line start,
      `^\s*output\s+(?:reg\s+)?(?:\[(\d+)\s*:\s*(\d+)\]\s*)?(\w+)` anchored at the line start. */
module Patterns {
  import opened Wrappers
  import opened Text

  datatype CharClass = Space | Word | Digit

  predicate InClass(c: char, k: CharClass) {
    match k
    case Space => IsSpace(c)
    case Word => IsWordChar(c)
    case Digit => IsDigit(c)
  }

  lemma ClassesDisjoint(c: char)
    ensures IsWordChar(c) ==> !IsSpace(c)
    ensures IsDigit(c) ==> IsWordChar(c)
    ensures c == '[' || c == ':' || c == ']' ==> !IsSpace(c) && !IsWordChar(c)
  {
  }

  /** End of the longest run of class `k` that starts at `i`: a greedy `\s*`, `\w*` or `\d*`. */
  function RunEnd(s: string, i: nat, k: CharClass): (j: nat)
    requires i <= |s|
    ensures i <= j <= |s|
    ensures forall m | i <= m < j :: InClass(s[m], k)
    ensures j == |s| || !InClass(s[j], k)
    decreases |s| - i
  {
    if i < |s| && InClass(s[i], k) then RunEnd(s, i + 1, k) else i
  }

  /** A run is determined by where it stops. */
  lemma RunEndAt(s: string, i: nat, j: nat, k: CharClass)
    requires i <= j <= |s|
    requires forall m | i <= m < j :: InClass(s[m], k)
    requires j == |s| || !InClass(s[j], k)
    ensures RunEnd(s, i, k) == j
  {
  }

  // ---------------------------------------------------------------- module

  /** A module header in `line`: `module` at `p` on a word boundary, blanks
      up to `j`, and the whole word `line[j..e]`. */
  predicate HeaderAt(line: string, p: nat, j: nat, e: nat) {
    && p + 6 < j < e <= |line|
    && line[p..p + 6] == "module" && (p == 0 || !IsWordChar(line[p - 1]))
    && AllSpace(line[p + 6..j]) && AllWord(line[j..e])
    && (e == |line| || !IsWordChar(line[e]))
  }

  /** `\bmodule\s+(\w+)` tried at position `p`: the captured word, if any. */
  function ModuleAt(line: string, p: nat): (r: Option<string>)
    requires p <= |line|
    ensures r.Some? ==> |r.value| >= 1 && AllWord(r.value)
    ensures r.Some? ==> exists j: nat, e: nat :: HeaderAt(line, p, j, e) && r.value == line[j..e]
  {
    if p + 6 <= |line| && line[p..p + 6] == "module" && (p == 0 || !IsWordChar(line[p - 1])) then
      var j := RunEnd(line, p + 6, Space);
      var e := RunEnd(line, j, Word);
      if j > p + 6 && e > j then
        RunSlice(line, p + 6, j, Space);
        RunSlice(line, j, e, Word);
        assert HeaderAt(line, p, j, e);
        Some(line[j..e])
      else None
    else None
  }

  /** Every header is matched where it starts, with its word captured. */
  lemma HeaderMatched(line: string, p: nat, j: nat, e: nat)
    requires HeaderAt(line, p, j, e)
    ensures ModuleAt(line, p) == Some(line[j..e])
  {
    forall m | p + 6 <= m < j
      ensures IsSpace(line[m])
    {
      assert line[m] == line[p + 6..j][m - p - 6];
    }
    forall m | j <= m < e
      ensures IsWordChar(line[m])
    {
      assert line[m] == line[j..e][m - j];
    }
    ModuleAtParts(line, p, j, e);
  }

  /** `re.search`: the leftmost position at or after `p` where the module pattern matches. */
  function FindModule(line: string, p: nat): (r: Option<nat>)
    requires p <= |line|
    ensures r.Some? ==> p <= r.value <= |line| && ModuleAt(line, r.value).Some?
    ensures r.Some? ==> forall q | p <= q < r.value :: ModuleAt(line, q).None?
    ensures r.None? ==> forall q | p <= q <= |line| :: ModuleAt(line, q).None?
    decreases |line| - p
  {
    if ModuleAt(line, p).Some? then Some(p)
    else if p == |line| then None
    else
      var r := FindModule(line, p + 1);
      SearchOneBack(line, p, r);
      r
  }

  /** A search from `p + 1` is also one from `p` when the pattern fails at `p`. */
  lemma SearchOneBack(line: string, p: nat, r: Option<nat>)
    requires p < |line| && ModuleAt(line, p).None?
    requires r.Some? ==> p + 1 <= r.value <= |line| && forall q | p + 1 <= q < r.value :: ModuleAt(line, q).None?
    requires r.None? ==> forall q | p + 1 <= q <= |line| :: ModuleAt(line, q).None?
    ensures r.Some? ==> forall q | p <= q < r.value :: ModuleAt(line, q).None?
    ensures r.None? ==> forall q | p <= q <= |line| :: ModuleAt(line, q).None?
  {
    if r.Some? {
      forall q | p <= q < r.value
        ensures ModuleAt(line, q).None?
      {
        if q == p {
        } else {
          assert p + 1 <= q;
        }
      }
    } else {
      forall q | p <= q <= |line|
        ensures ModuleAt(line, q).None?
      {
        if q == p {
        } else {
          assert p + 1 <= q;
        }
      }
    }
  }

  /** The group captured by `re.search(r"\bmodule\s+(\w+)", line)`: the
      word of the leftmost header, or nothing when the line holds none. */
  function MatchModule(line: string): (r: Option<string>)
    ensures r.Some? ==> |r.value| >= 1 && AllWord(r.value)
    ensures r.Some? ==>
      exists p: nat, j: nat, e: nat ::
        && HeaderAt(line, p, j, e) && r.value == line[j..e]
        && forall q: nat, j': nat, e': nat | q < p :: !HeaderAt(line, q, j', e')
    ensures r.None? ==> forall p: nat, j: nat, e: nat :: !HeaderAt(line, p, j, e)
  {
    match FindModule(line, 0)
    case Some(q) => NoHeaderBefore(line, q); ModuleAt(line, q)
    case None => NoHeaderBefore(line, |line| + 1); None
  }

  /** Where the pattern fails at every position before `q`, no header starts there. */
  lemma NoHeaderBefore(line: string, q: nat)
    requires forall p: nat | p < q && p <= |line| :: ModuleAt(line, p).None?
    ensures forall p: nat, j: nat, e: nat | p < q :: !HeaderAt(line, p, j, e)
  {
    forall p: nat, j: nat, e: nat | p < q && HeaderAt(line, p, j, e)
      ensures false
    {
      HeaderMatched(line, p, j, e);
    }
  }

  /** The module pattern at `p`, read off the positions where its parts end. */
  lemma ModuleAtParts(line: string, p: nat, j: nat, e: nat)
    requires p + 6 < j < e <= |line|
    requires line[p..p + 6] == "module" && (p == 0 || !IsWordChar(line[p - 1]))
    requires forall m | p + 6 <= m < j :: IsSpace(line[m])
    requires forall m | j <= m < e :: IsWordChar(line[m])
    requires e == |line| || !IsWordChar(line[e])
    ensures ModuleAt(line, p) == Some(line[j..e])
  {
    ClassesDisjoint(line[j]);
    RunEndAt(line, p + 6, j, Space);
    RunEndAt(line, j, e, Word);
  }

  /** No match can start inside a run of blanks. */
  lemma NoModuleInBlanks(line: string, p: nat)
    requires p < |line| && IsSpace(line[p])
    ensures ModuleAt(line, p).None?
  {
  }

  /** A line whose first non-blank text is a module header yields that header's name. */
  lemma MatchModuleAt(line: string, p: nat, j: nat, e: nat)
    requires p + 6 < j < e <= |line|
    requires forall m | 0 <= m < p :: IsSpace(line[m])
    requires line[p..p + 6] == "module"
    requires forall m | p + 6 <= m < j :: IsSpace(line[m])
    requires forall m | j <= m < e :: IsWordChar(line[m])
    requires e == |line| || !IsWordChar(line[e])
    ensures MatchModule(line) == Some(line[j..e])
  {
    if p > 0 {
      ClassesDisjoint(line[p - 1]);
    }
    ModuleAtParts(line, p, j, e);
    forall q | 0 <= q < p
      ensures ModuleAt(line, q).None?
    {
      NoModuleInBlanks(line, q);
    }
  }

  /** A header `module <name>` after leading whitespace is found, and its name captured. */
  lemma MatchModuleHeader(lead: string, gap: string, name: string, rest: string)
    requires AllSpace(lead) && |gap| >= 1 && AllSpace(gap)
    requires |name| >= 1 && AllWord(name)
    requires rest == [] || !IsWordChar(rest[0])
    ensures MatchModule(lead + "module" + gap + name + rest) == Some(name)
  {
    var line := lead + "module" + gap + name + rest;
    var p := |lead|;
    var j := p + 6 + |gap|;
    var e := j + |name|;
    assert line[..p] == lead;
    assert line[p..p + 6] == "module";
    assert line[p + 6..j] == gap;
    assert line[j..e] == name;
    assert line[e..] == rest;
    forall m | 0 <= m < p
      ensures IsSpace(line[m])
    {
      assert line[m] == line[..p][m];
    }
    forall m | p + 6 <= m < j
      ensures IsSpace(line[m])
    {
      assert line[m] == line[p + 6..j][m - p - 6];
    }
    forall m | j <= m < e
      ensures IsWordChar(line[m])
    {
      assert line[m] == line[j..e][m - j];
    }
    if e < |line| {
      assert line[e] == line[e..][0];
    }
    MatchModuleAt(line, p, j, e);
  }

  /** A `module` preceded by a word character (as in `endmodule`) is not a header. */
  lemma NoModuleAfterWordChar(line: string, p: nat)
    requires 0 < p <= |line| && IsWordChar(line[p - 1])
    ensures ModuleAt(line, p).None?
  {
  }

  // ---------------------------------------------------------------- ports

  /** The bit range as `int()` reads its two groups. */
  datatype Range = Range(msb: nat, lsb: nat)

  /** What the port patterns capture: group 3 and, when the range was taken, groups 1 and 2. */
  datatype PortMatch = PortMatch(name: string, range: Option<Range>)

  /** The text of a taken range `\[(\d+)\s*:\s*(\d+)\]\s*`, piece by piece. */
  datatype RangeText = RangeText(msb: string, beforeColon: string, afterColon: string, lsb: string, after: string)

  /** A port declaration line split along the port pattern: leading blanks, the
      direction keyword, blanks, the optional storage keyword with its blanks,
      the optional range, the name, and whatever follows. */
  datatype PortLine = PortLine(lead: string, gap: string, storage: Option<string>,
                               range: Option<RangeText>, name: string, rest: string)

  function RangeString(r: RangeText): string {
    "[" + r.msb + r.beforeColon + ":" + r.afterColon + r.lsb + "]" + r.after
  }

  function StorageString(st: string, d: PortLine): string {
    if d.storage.Some? then st + d.storage.value else ""
  }

  function OptRangeString(d: PortLine): string {
    if d.range.Some? then RangeString(d.range.value) else ""
  }

  /** The line a split stands for, given the direction keyword `kw` and the storage keyword `st`. */
  function Render(kw: string, st: string, d: PortLine): string {
    d.lead + kw + d.gap + StorageString(st, d) + OptRangeString(d) + d.name + d.rest
  }

  predicate WellFormedRange(r: RangeText) {
    && |r.msb| >= 1 && AllDigits(r.msb) && AllSpace(r.beforeColon) && AllSpace(r.afterColon)
    && |r.lsb| >= 1 && AllDigits(r.lsb) && AllSpace(r.after)
  }

  /** Every piece has the shape its part of the pattern demands, and the name is a whole word. */
  predicate WellFormed(d: PortLine) {
    && AllSpace(d.lead) && |d.gap| >= 1 && AllSpace(d.gap)
    && (d.storage.Some? ==> |d.storage.value| >= 1 && AllSpace(d.storage.value))
    && (d.range.Some? ==> WellFormedRange(d.range.value))
    && |d.name| >= 1 && AllWord(d.name)
    && (d.rest == [] || !IsWordChar(d.rest[0]))
  }

  /** The one split the matcher reads differently: a bare name equal to the
      storage keyword followed by blanks, where `st\s+` is tried first. */
  predicate Ambiguous(st: string, d: PortLine) {
    d.storage.None? && d.range.None? && d.name == st && d.rest != [] && IsSpace(d.rest[0])
  }

  /** The captured groups of a split, with `int()` applied to the range digits. */
  function Capture(d: PortLine): PortMatch
    requires WellFormed(d)
  {
    match d.range
    case None => PortMatch(d.name, None)
    case Some(r) => PortMatch(d.name, Some(Range(DecimalValue(r.msb), DecimalValue(r.lsb))))
  }

  /** `st\s+` at `p`: where the blanks after the storage keyword end. */
  function StorageAt(line: string, st: string, p: nat): (r: Option<nat>)
    requires p <= |line|
    ensures r.Some? ==> p + |st| < r.value <= |line| && line[p..p + |st|] == st
    ensures r.Some? ==> AllSpace(line[p + |st|..r.value])
    ensures r.Some? ==> r.value == |line| || !IsSpace(line[r.value])
  {
    if p + |st| <= |line| && line[p..p + |st|] == st then
      var e := RunEnd(line, p + |st|, Space);
      if e > p + |st| then Some(e) else None
    else None
  }

  /** `\[(\d+)\s*:\s*(\d+)\]\s*` at `p`: the range's text and where it ends. */
  function RangeAt(line: string, p: nat): (r: Option<(RangeText, nat)>)
    requires p <= |line|
    ensures r.Some? ==> p < r.value.1 <= |line| && WellFormedRange(r.value.0)
    ensures r.Some? ==> line[p..r.value.1] == RangeString(r.value.0)
    ensures r.Some? ==> r.value.1 == |line| || !IsSpace(line[r.value.1])
  {
    if p < |line| && line[p] == '[' then
      var d1 := RunEnd(line, p + 1, Digit);
      var c := RunEnd(line, d1, Space);
      if d1 > p + 1 && c < |line| && line[c] == ':' then
        var b := RunEnd(line, c + 1, Space);
        var d2 := RunEnd(line, b, Digit);
        if d2 > b && d2 < |line| && line[d2] == ']' then
          var e := RunEnd(line, d2 + 1, Space);
          var r := RangeText(line[p + 1..d1], line[d1..c], line[c + 1..b], line[b..d2], line[d2 + 1..e]);
          RangeAtText(line, p, d1, c, b, d2, e, r);
          RunSlice(line, p + 1, d1, Digit);
          RunSlice(line, d1, c, Space);
          RunSlice(line, c + 1, b, Space);
          RunSlice(line, b, d2, Digit);
          RunSlice(line, d2 + 1, e, Space);
          Some((r, e))
        else None
      else None
    else None
  }

  /** A slice taken inside a run is all of the run's class. */
  lemma RunSlice(line: string, lo: nat, hi: nat, k: CharClass)
    requires lo <= hi <= |line|
    requires forall m | lo <= m < hi :: InClass(line[m], k)
    ensures k == Digit ==> AllDigits(line[lo..hi])
    ensures k == Space ==> AllSpace(line[lo..hi])
    ensures k == Word ==> AllWord(line[lo..hi])
  {
    forall t | 0 <= t < hi - lo
      ensures InClass(line[lo..hi][t], k)
    {
      assert line[lo..hi][t] == line[lo + t];
    }
  }

  lemma RangeAtText(line: string, p: nat, d1: nat, c: nat, b: nat, d2: nat, e: nat, r: RangeText)
    requires p < d1 <= c && c + 1 <= b <= d2 && d2 + 1 <= e <= |line|
    requires line[p] == '[' && line[c] == ':' && line[d2] == ']'
    requires r == RangeText(line[p + 1..d1], line[d1..c], line[c + 1..b], line[b..d2], line[d2 + 1..e])
    ensures line[p..e] == RangeString(r)
  {
    Glue8(line, p, p + 1, d1, c, c + 1, b, d2, d2 + 1, e);
    assert line[p..p + 1] == "[";
    assert line[c..c + 1] == ":";
    assert line[d2..d2 + 1] == "]";
    Spell8(line[p..e], line[p..p + 1], line[p + 1..d1], line[d1..c], line[c..c + 1],
           line[c + 1..b], line[b..d2], line[d2..d2 + 1], line[d2 + 1..e],
           "[", r.msb, r.beforeColon, ":", r.afterColon, r.lsb, "]", r.after);
    RangeStringNested(r);
  }

  /** Eight pieces nested to the right spell the same string when each is replaced by an equal one. */
  lemma Spell8(x: string, a0: string, a1: string, a2: string, a3: string, a4: string, a5: string, a6: string, a7: string,
               b0: string, b1: string, b2: string, b3: string, b4: string, b5: string, b6: string, b7: string)
    requires x == a0 + (a1 + (a2 + (a3 + (a4 + (a5 + (a6 + a7))))))
    requires a0 == b0 && a1 == b1 && a2 == b2 && a3 == b3 && a4 == b4 && a5 == b5 && a6 == b6 && a7 == b7
    ensures x == b0 + (b1 + (b2 + (b3 + (b4 + (b5 + (b6 + b7))))))
  {
  }

  /** A slice is the concatenation of its pieces between eight cuts. */
  lemma Glue8(line: string, q0: nat, q1: nat, q2: nat, q3: nat, q4: nat, q5: nat, q6: nat, q7: nat, q8: nat)
    requires q0 <= q1 <= q2 <= q3 <= q4 <= q5 <= q6 <= q7 <= q8 <= |line|
    ensures line[q0..q8] == line[q0..q1] + (line[q1..q2] + (line[q2..q3] + (line[q3..q4]
      + (line[q4..q5] + (line[q5..q6] + (line[q6..q7] + line[q7..q8]))))))
  {
    Glue(line, q6, q7, q8);
    Glue(line, q5, q6, q8);
    Glue(line, q4, q5, q8);
    Glue(line, q3, q4, q8);
    Glue(line, q2, q3, q8);
    Glue(line, q1, q2, q8);
    Glue(line, q0, q1, q8);
  }

  /** The rendered range, read from the right. */
  lemma RangeStringNested(r: RangeText)
    ensures RangeString(r) == "[" + (r.msb + (r.beforeColon + (":" + (r.afterColon + (r.lsb + ("]" + r.after))))))
  {
  }

  /** A slice is the concatenation of its two halves at any cut. */
  lemma Glue(s: string, i: nat, j: nat, k: nat)
    requires i <= j <= k <= |s|
    ensures s[i..k] == s[i..j] + s[j..k]
  {
  }

  /** `\w+` at `p`, with nothing before it: the name starts at `p` if a word character is there. */
  function NameOnly(line: string, p: nat): (r: Option<(Option<RangeText>, nat)>)
    requires p <= |line|
    ensures r.Some? ==> r.value == (None, p) && p < |line| && IsWordChar(line[p])
  {
    if RunEnd(line, p, Word) > p then Some((None, p)) else None
  }

  /** `(?:range)?(\w+)` at `p`, the range taken first: the range's text, if taken, and where the name starts. */
  function RangeThenName(line: string, p: nat): (r: Option<(Option<RangeText>, nat)>)
    requires p <= |line|
    ensures r.Some? ==> p <= r.value.1 < |line| && IsWordChar(line[r.value.1])
    ensures r.Some? && r.value.0.None? ==> r.value.1 == p
    ensures r.Some? && r.value.0.Some? ==>
      WellFormedRange(r.value.0.value) && line[p..r.value.1] == RangeString(r.value.0.value)
  {
    match RangeAt(line, p)
    case Some((rt, e)) => if RunEnd(line, e, Word) > e then Some((Some(rt), e)) else NameOnly(line, p)
    case None => NameOnly(line, p)
  }

  /** `^\s*kw\s+`: where the keyword starts and where the blanks after it end. */
  function KeywordAt(line: string, kw: string): (r: Option<(nat, nat)>)
    ensures r.Some? ==> r.value.0 + |kw| < r.value.1 <= |line|
    ensures r.Some? ==> AllSpace(line[..r.value.0]) && line[r.value.0..r.value.0 + |kw|] == kw
    ensures r.Some? ==> AllSpace(line[r.value.0 + |kw|..r.value.1])
    ensures r.Some? ==> r.value.1 == |line| || !IsSpace(line[r.value.1])
  {
    var i := RunEnd(line, 0, Space);
    if i + |kw| <= |line| && line[i..i + |kw|] == kw then
      var j := RunEnd(line, i + |kw|, Space);
      if j > i + |kw| then Some((i, j)) else None
    else None
  }

  /** What the optional groups took, starting at `j`: the blanks after the
      storage keyword (if it was taken), where the range would start, the
      range's text (if taken) and where the name starts. */
  datatype Groups = Groups(storage: Option<string>, at: nat, range: Option<RangeText>, nameAt: nat)

  /** `(?:st\s+)?(?:range)?(\w+)` at `j`, in Python's order: storage and range
      taken, storage taken alone, range taken alone, neither. */
  function GroupsAt(line: string, st: string, j: nat): (r: Option<Groups>)
    requires j <= |line|
    ensures r.Some? ==> j <= r.value.at <= r.value.nameAt < |line| && IsWordChar(line[r.value.nameAt])
    ensures r.Some? && r.value.storage.None? ==> r.value.at == j
    ensures r.Some? && r.value.storage.Some? ==>
      var w := r.value.storage.value;
      |w| >= 1 && AllSpace(w) && r.value.at == j + |st| + |w| && line[j..r.value.at] == st + w
    ensures r.Some? && r.value.range.None? ==> r.value.nameAt == r.value.at
    ensures r.Some? && r.value.range.Some? ==>
      WellFormedRange(r.value.range.value) && line[r.value.at..r.value.nameAt] == RangeString(r.value.range.value)
  {
    var k := StorageAt(line, st, j);
    var withStorage := if k.Some? then RangeThenName(line, k.value) else None;
    if withStorage.Some? then
      var w := line[j + |st|..k.value];
      assert line[j..k.value] == st + w by {
        Glue(line, j, j + |st|, k.value);
      }
      Some(Groups(Some(w), k.value, withStorage.value.0, withStorage.value.1))
    else
      match RangeThenName(line, j)
      case Some(found) => Some(Groups(None, j, found.0, found.1))
      case None => None
  }

  /** The port pattern with direction keyword `kw` and storage keyword `st`:
      the split of the line it matches. */
  function ScanPort(line: string, kw: string, st: string): Option<PortLine> {
    match KeywordAt(line, kw)
    case None => None
    case Some((i, j)) =>
      match GroupsAt(line, st, j)
      case None => None
      case Some(g) =>
        var e := RunEnd(line, g.nameAt, Word);
        Some(PortLine(line[..i], line[i + |kw|..j], g.storage, g.range, line[g.nameAt..e], line[e..]))
  }

  /** Seven consecutive slices of a string spell the string. */
  lemma Slices(s: string, a: nat, b: nat, c: nat, d: nat, e: nat, f: nat)
    requires a <= b <= c <= d <= e <= f <= |s|
    ensures s[..a] + s[a..b] + s[b..c] + s[c..d] + s[d..e] + s[e..f] + s[f..] == s
  {
    assert s[..a] + s[a..b] == s[..b];
    assert s[..b] + s[b..c] == s[..c];
    assert s[..c] + s[c..d] == s[..d];
    assert s[..d] + s[d..e] == s[..e];
    assert s[..e] + s[e..f] == s[..f];
    assert s[..f] + s[f..] == s;
  }

  /** The split returned for a keyword ending at `j` and groups `g`. */
  lemma ScanPortIs(line: string, kw: string, st: string, i: nat, j: nat, g: Groups)
    requires KeywordAt(line, kw) == Some((i, j))
    requires GroupsAt(line, st, j) == Some(g)
    ensures var e := RunEnd(line, g.nameAt, Word);
      ScanPort(line, kw, st) == Some(PortLine(line[..i], line[i + |kw|..j], g.storage, g.range, line[g.nameAt..e], line[e..]))
  {
  }

  /** Every split the matcher returns has the pattern's shape and spells the line back. */
  lemma ScanPortSound(line: string, kw: string, st: string)
    requires ScanPort(line, kw, st).Some?
    ensures WellFormed(ScanPort(line, kw, st).value)
    ensures Render(kw, st, ScanPort(line, kw, st).value) == line
  {
    var ij := KeywordAt(line, kw).value;
    var i, j := ij.0, ij.1;
    var g := GroupsAt(line, st, j).value;
    ScanPortIs(line, kw, st, i, j, g);
    SplitSound(line, kw, st, i, j, g);
  }

  lemma SplitSound(line: string, kw: string, st: string, i: nat, j: nat, g: Groups)
    requires KeywordAt(line, kw) == Some((i, j))
    requires GroupsAt(line, st, j) == Some(g)
    ensures var e := RunEnd(line, g.nameAt, Word);
      var d := PortLine(line[..i], line[i + |kw|..j], g.storage, g.range, line[g.nameAt..e], line[e..]);
      WellFormed(d) && Render(kw, st, d) == line
  {
    var n := g.nameAt;
    var e := RunEnd(line, n, Word);
    var d := PortLine(line[..i], line[i + |kw|..j], g.storage, g.range, line[n..e], line[e..]);
    KeywordFacts(line, kw, i, j);
    GroupsFacts(line, st, j, g, d);
    RunSlice(line, n, e, Word);
    SplitWellFormed(line, n, e, d);
    SplitRenders(line, kw, st, i, j, g.at, n, e, d);
  }

  lemma KeywordFacts(line: string, kw: string, i: nat, j: nat)
    requires KeywordAt(line, kw) == Some((i, j))
    ensures i + |kw| < j <= |line| && AllSpace(line[..i]) && AllSpace(line[i + |kw|..j])
    ensures kw == line[i..i + |kw|]
  {
  }

  lemma GroupsFacts(line: string, st: string, j: nat, g: Groups, d: PortLine)
    requires j <= |line| && GroupsAt(line, st, j) == Some(g)
    requires d.storage == g.storage && d.range == g.range
    ensures j <= g.at <= g.nameAt < |line| && IsWordChar(line[g.nameAt])
    ensures d.storage.Some? ==> |d.storage.value| >= 1 && AllSpace(d.storage.value)
    ensures d.range.Some? ==> WellFormedRange(d.range.value)
    ensures StorageString(st, d) == line[j..g.at] && OptRangeString(d) == line[g.at..g.nameAt]
  {
  }

  lemma SplitWellFormed(line: string, n: nat, e: nat, d: PortLine)
    requires n < e <= |line| && AllWord(line[n..e]) && (e == |line| || !IsWordChar(line[e]))
    requires d.name == line[n..e] && d.rest == line[e..]
    requires AllSpace(d.lead) && |d.gap| >= 1 && AllSpace(d.gap)
    requires d.storage.Some? ==> |d.storage.value| >= 1 && AllSpace(d.storage.value)
    requires d.range.Some? ==> WellFormedRange(d.range.value)
    ensures WellFormed(d)
  {
    assert e < |line| ==> d.rest[0] == line[e];
  }

  lemma SplitRenders(line: string, kw: string, st: string, i: nat, j: nat, at: nat, n: nat, e: nat, d: PortLine)
    requires i + |kw| <= j <= at <= n <= e <= |line|
    requires d.lead == line[..i] && kw == line[i..i + |kw|] && d.gap == line[i + |kw|..j]
    requires StorageString(st, d) == line[j..at] && OptRangeString(d) == line[at..n]
    requires d.name == line[n..e] && d.rest == line[e..]
    ensures Render(kw, st, d) == line
  {
    assert Render(kw, st, d)
      == line[..i] + line[i..i + |kw|] + line[i + |kw|..j] + line[j..at] + line[at..n] + line[n..e] + line[e..];
    Slices(line, i, i + |kw|, j, at, n, e);
  }

  /** A greedy run over a piece of the line stops where the piece ends. */
  lemma RunEndOfPiece(line: string, lo: nat, piece: string, k: CharClass)
    requires lo + |piece| <= |line| && line[lo..lo + |piece|] == piece
    requires forall t | 0 <= t < |piece| :: InClass(piece[t], k)
    requires lo + |piece| == |line| || !InClass(line[lo + |piece|], k)
    ensures RunEnd(line, lo, k) == lo + |piece|
  {
    forall m | lo <= m < lo + |piece|
      ensures InClass(line[m], k)
    {
      assert line[m] == line[lo..lo + |piece|][m - lo];
    }
    RunEndAt(line, lo, lo + |piece|, k);
  }

  /** A well-formed range text is read back whole by the range matcher. */
  lemma RangeAtRendered(line: string, p: nat, r: RangeText)
    requires WellFormedRange(r)
    requires p + |RangeString(r)| <= |line| && line[p..p + |RangeString(r)|] == RangeString(r)
    requires p + |RangeString(r)| == |line| || !IsSpace(line[p + |RangeString(r)|])
    ensures RangeAt(line, p) == Some((r, p + |RangeString(r)|))
  {
    var d1 := p + 1 + |r.msb|;
    var c := d1 + |r.beforeColon|;
    var b := c + 1 + |r.afterColon|;
    var d2 := b + |r.lsb|;
    var e := d2 + 1 + |r.after|;
    assert e == p + |RangeString(r)|;
    RangePieces(line, p, r);
    RangeRuns(line, p, d1, c, b, d2, e, r);
    RangeAtIs(line, p, d1, c, b, d2, e);
  }

  /** The greedy runs inside a range, from the positions its pieces occupy. */
  lemma RangeRuns(line: string, p: nat, d1: nat, c: nat, b: nat, d2: nat, e: nat, r: RangeText)
    requires WellFormedRange(r)
    requires d1 == p + 1 + |r.msb| && c == d1 + |r.beforeColon| && b == c + 1 + |r.afterColon|
    requires d2 == b + |r.lsb| && e == d2 + 1 + |r.after| && e <= |line|
    requires line[p + 1..d1] == r.msb && line[d1..c] == r.beforeColon && line[c] == ':'
    requires line[c + 1..b] == r.afterColon && line[b..d2] == r.lsb && line[d2] == ']'
    requires line[d2 + 1..e] == r.after
    requires e == |line| || !IsSpace(line[e])
    ensures RunEnd(line, p + 1, Digit) == d1 && RunEnd(line, d1, Space) == c
    ensures RunEnd(line, c + 1, Space) == b && RunEnd(line, b, Digit) == d2
    ensures RunEnd(line, d2 + 1, Space) == e
    ensures RangeText(line[p + 1..d1], line[d1..c], line[c + 1..b], line[b..d2], line[d2 + 1..e]) == r
  {
    RangeRunsHead(line, p, d1, c, r);
    RangeRunsTail(line, c, b, d2, e, r);
  }

  /** The digits of the most significant bound and the blanks before the colon. */
  lemma RangeRunsHead(line: string, p: nat, d1: nat, c: nat, r: RangeText)
    requires WellFormedRange(r)
    requires d1 == p + 1 + |r.msb| && c == d1 + |r.beforeColon| && c < |line|
    requires line[p + 1..d1] == r.msb && line[d1..c] == r.beforeColon && line[c] == ':'
    ensures RunEnd(line, p + 1, Digit) == d1 && RunEnd(line, d1, Space) == c
  {
    RunsBetween(line, p + 1, d1, c, r.msb, r.beforeColon, Digit);
  }

  /** The blanks after the colon, the digits of the least significant bound and the blanks after the bracket. */
  lemma RangeRunsTail(line: string, c: nat, b: nat, d2: nat, e: nat, r: RangeText)
    requires WellFormedRange(r)
    requires b == c + 1 + |r.afterColon| && d2 == b + |r.lsb| && e == d2 + 1 + |r.after| && e <= |line|
    requires line[c + 1..b] == r.afterColon && line[b..d2] == r.lsb && line[d2] == ']'
    requires line[d2 + 1..e] == r.after
    requires e == |line| || !IsSpace(line[e])
    ensures RunEnd(line, c + 1, Space) == b && RunEnd(line, b, Digit) == d2
    ensures RunEnd(line, d2 + 1, Space) == e
  {
    RunsBetween(line, c + 1, b, d2, r.afterColon, r.lsb, Space);
    ClassesDisjoint(line[d2]);
    RunEndOfPiece(line, d2 + 1, r.after, Space);
  }

  /** Two adjacent runs of different classes, the first of digits or blanks and
      the second of the other kind, followed by a bracket or colon. */
  lemma RunsBetween(line: string, lo: nat, mid: nat, hi: nat, x: string, y: string, k: CharClass)
    requires k == Digit || k == Space
    requires mid == lo + |x| && hi == mid + |y| && hi < |line|
    requires line[lo..mid] == x && line[mid..hi] == y
    requires line[hi] == ':' || line[hi] == ']'
    requires |(if k == Digit then x else y)| >= 1
    requires forall t | 0 <= t < |x| :: InClass(x[t], k)
    requires forall t | 0 <= t < |y| :: InClass(y[t], if k == Digit then Space else Digit)
    ensures RunEnd(line, lo, k) == mid
    ensures RunEnd(line, mid, if k == Digit then Space else Digit) == hi
  {
    var k2 := if k == Digit then Space else Digit;
    ClassesDisjoint(line[hi]);
    if |y| > 0 {
      assert line[mid] == y[0];
      ClassesDisjoint(line[mid]);
    }
    RunEndOfPiece(line, lo, x, k);
    RunEndOfPiece(line, mid, y, k2);
  }

  /** The range matcher's result, once every greedy run along the way is known. */
  lemma RangeAtIs(line: string, p: nat, d1: nat, c: nat, b: nat, d2: nat, e: nat)
    requires p + 1 < d1 <= c < |line| && c + 1 <= b < d2 < |line| && d2 + 1 <= e <= |line|
    requires line[p] == '[' && line[c] == ':' && line[d2] == ']'
    requires RunEnd(line, p + 1, Digit) == d1 && RunEnd(line, d1, Space) == c
    requires RunEnd(line, c + 1, Space) == b && RunEnd(line, b, Digit) == d2
    requires RunEnd(line, d2 + 1, Space) == e
    ensures RangeAt(line, p) == Some((RangeText(line[p + 1..d1], line[d1..c], line[c + 1..b], line[b..d2], line[d2 + 1..e]), e))
  {
  }

  /** A slice that spells `x + y` splits into a slice for `x` and one for `y`. */
  lemma Peel(line: string, lo: nat, x: string, y: string)
    requires lo + |x| + |y| <= |line| && line[lo..lo + |x| + |y|] == x + y
    ensures line[lo..lo + |x|] == x && line[lo + |x|..lo + |x| + |y|] == y
  {
    assert line[lo..lo + |x|] == line[lo..lo + |x| + |y|][..|x|];
    assert line[lo + |x|..lo + |x| + |y|] == line[lo..lo + |x| + |y|][|x|..];
  }

  lemma RangePieces(line: string, p: nat, r: RangeText)
    requires WellFormedRange(r)
    requires p + |RangeString(r)| <= |line| && line[p..p + |RangeString(r)|] == RangeString(r)
    ensures var d1 := p + 1 + |r.msb|;
      var c := d1 + |r.beforeColon|;
      var b := c + 1 + |r.afterColon|;
      var d2 := b + |r.lsb|;
      && line[p] == '[' && line[p + 1..d1] == r.msb && line[d1..c] == r.beforeColon
      && line[c] == ':' && line[c + 1..b] == r.afterColon && line[b..d2] == r.lsb
      && line[d2] == ']' && line[d2 + 1..d2 + 1 + |r.after|] == r.after
  {
    var d1 := p + 1 + |r.msb|;
    var c := d1 + |r.beforeColon|;
    var b := c + 1 + |r.afterColon|;
    var d2 := b + |r.lsb|;
    var e := d2 + 1 + |r.after|;
    RangeStringNested(r);
    Cut8(line, p, p + 1, d1, c, c + 1, b, d2, d2 + 1, e,
         "[", r.msb, r.beforeColon, ":", r.afterColon, r.lsb, "]", r.after);
    assert line[p] == line[p..p + 1][0];
    assert line[c] == line[c..c + 1][0];
    assert line[d2] == line[d2..d2 + 1][0];
  }

  /** A slice that spells eight strings in a row splits into one slice per string. */
  lemma Cut8(line: string, q0: nat, q1: nat, q2: nat, q3: nat, q4: nat, q5: nat, q6: nat, q7: nat, q8: nat,
             x0: string, x1: string, x2: string, x3: string, x4: string, x5: string, x6: string, x7: string)
    requires q1 == q0 + |x0| && q2 == q1 + |x1| && q3 == q2 + |x2| && q4 == q3 + |x3|
    requires q5 == q4 + |x4| && q6 == q5 + |x5| && q7 == q6 + |x6| && q8 == q7 + |x7| && q8 <= |line|
    requires line[q0..q8] == x0 + (x1 + (x2 + (x3 + (x4 + (x5 + (x6 + x7))))))
    ensures line[q0..q1] == x0 && line[q1..q2] == x1 && line[q2..q3] == x2 && line[q3..q4] == x3
    ensures line[q4..q5] == x4 && line[q5..q6] == x5 && line[q6..q7] == x6 && line[q7..q8] == x7
  {
    Cut(line, q0, q1, q8, x0, x1 + (x2 + (x3 + (x4 + (x5 + (x6 + x7))))));
    Cut(line, q1, q2, q8, x1, x2 + (x3 + (x4 + (x5 + (x6 + x7)))));
    Cut(line, q2, q3, q8, x2, x3 + (x4 + (x5 + (x6 + x7))));
    Cut(line, q3, q4, q8, x3, x4 + (x5 + (x6 + x7)));
    Cut(line, q4, q5, q8, x4, x5 + (x6 + x7));
    Cut(line, q5, q6, q8, x5, x6 + x7);
    Cut(line, q6, q7, q8, x6, x7);
  }

  /** A slice that spells `x + y` splits at `mid` into a slice for `x` and one for `y`. */
  lemma Cut(line: string, lo: nat, mid: nat, hi: nat, x: string, y: string)
    requires mid == lo + |x| && hi == mid + |y| && hi <= |line| && line[lo..hi] == x + y
    ensures line[lo..mid] == x && line[mid..hi] == y
  {
    assert line[lo..mid] == line[lo..hi][..|x|];
    assert line[mid..hi] == line[lo..hi][|x|..];
  }

  /** The keyword prefix of a rendered line is found where it was put. */
  lemma KeywordAtRendered(line: string, kw: string, i: nat, j: nat)
    requires |kw| >= 1 && !IsSpace(kw[0])
    requires i + |kw| < j <= |line|
    requires AllSpace(line[..i]) && line[i..i + |kw|] == kw && AllSpace(line[i + |kw|..j])
    requires j == |line| || !IsSpace(line[j])
    ensures KeywordAt(line, kw) == Some((i, j))
  {
    assert line[i] == kw[0];
    RunEndOfPiece(line, 0, line[..i], Space);
    RunEndOfPiece(line, i + |kw|, line[i + |kw|..j], Space);
  }

  /** The name matcher at `n` takes the whole name. */
  lemma RangeThenNameRendered(line: string, at: nat, range: Option<RangeText>, n: nat, e: nat)
    requires at <= n < e <= |line|
    requires range.None? ==> n == at
    requires range.Some? ==> WellFormedRange(range.value) && line[at..n] == RangeString(range.value)
    requires forall m | n <= m < e :: IsWordChar(line[m])
    requires e == |line| || !IsWordChar(line[e])
    ensures RangeThenName(line, at) == Some((range, n))
    ensures RunEnd(line, n, Word) == e
  {
    RunEndAt(line, n, e, Word);
    ClassesDisjoint(line[n]);
    if range.Some? {
      var rt := range.value;
      assert n == at + |RangeString(rt)| by {
        assert |line[at..n]| == n - at;
      }
      RangeThenNameTaken(line, at, rt, n);
    } else {
      assert line[at] != '[';
      assert RangeAt(line, at).None?;
      RangeThenNameSkipped(line, at);
    }
  }

  /** The range matched, and a word follows it. */
  lemma RangeThenNameTaken(line: string, p: nat, rt: RangeText, e: nat)
    requires WellFormedRange(rt) && e == p + |RangeString(rt)| <= |line| && line[p..e] == RangeString(rt)
    requires e == |line| || !IsSpace(line[e])
    requires RunEnd(line, e, Word) > e
    ensures RangeThenName(line, p) == Some((Some(rt), e))
  {
    RangeAtRendered(line, p, rt);
  }

  /** No range here: only the name can match. */
  lemma RangeThenNameSkipped(line: string, p: nat)
    requires p < |line| && RangeAt(line, p).None? && RunEnd(line, p, Word) > p
    ensures RangeThenName(line, p) == Some((None, p))
  {
  }

  /** Without the storage keyword in the split, `st\s+` cannot be taken either. */
  lemma NoStorageRendered(line: string, st: string, j: nat, d: PortLine, n: nat, e: nat)
    requires |st| >= 1 && AllWord(st)
    requires WellFormed(d) && !Ambiguous(st, d) && d.storage.None?
    requires j <= n && e == n + |d.name| && e <= |line|
    requires d.range.Some? ==> |line| > j && line[j] == '['
    requires d.range.None? ==> j == n && line[n..e] == d.name && line[e..] == d.rest
    ensures StorageAt(line, st, j).None?
  {
    if j + |st| <= |line| && line[j..j + |st|] == st {
      assert line[j] == st[0];
      ClassesDisjoint(line[j]);
      assert d.range.None?;
      // The name is the whole word run at `j`, and the keyword is a word run there too.
      assert forall m | j <= m < j + |st| :: IsWordChar(line[m]) by {
        forall m | j <= m < j + |st|
          ensures IsWordChar(line[m])
        {
          assert line[m] == st[m - j];
        }
      }
      assert e == |line| || line[e] == d.rest[0];
      assert forall m | j <= m < e :: IsWordChar(line[m]) by {
        forall m | j <= m < e
          ensures IsWordChar(line[m])
        {
          assert line[m] == d.name[m - j];
        }
      }
      RunEndAt(line, j, e, Word);
      assert e >= j + |st|;
      if |d.name| > |st| {
        assert line[j + |st|] == d.name[|st|];
        ClassesDisjoint(line[j + |st|]);
        RunEndAt(line, j + |st|, j + |st|, Space);
      } else {
        assert d.name == line[j..j + |st|] == st;
        if e < |line| {
          assert line[e] == d.rest[0];
        }
        RunEndAt(line, j + |st|, j + |st|, Space);
      }
    }
  }

  /** The storage keyword and the blanks after it are taken whole. */
  lemma StorageAtRendered(line: string, st: string, j: nat, w: string, at: nat)
    requires |w| >= 1 && AllSpace(w) && at == j + |st| + |w| && at < |line|
    requires line[j..at] == st + w && !IsSpace(line[at])
    ensures StorageAt(line, st, j) == Some(at) && line[j + |st|..at] == w
  {
    Peel(line, j, st, w);
    RunEndOfPiece(line, j + |st|, w, Space);
  }

  /** The optional groups of a rendered line are taken exactly as the split says. */
  lemma GroupsAtRendered(line: string, st: string, j: nat, d: PortLine, at: nat, n: nat, e: nat)
    requires |st| >= 1 && AllWord(st)
    requires WellFormed(d) && !Ambiguous(st, d)
    requires j <= at <= n < e <= |line|
    requires line[j..at] == StorageString(st, d) && line[at..n] == OptRangeString(d)
    requires line[n..e] == d.name && line[e..] == d.rest
    ensures GroupsAt(line, st, j) == Some(Groups(d.storage, at, d.range, n))
    ensures RunEnd(line, n, Word) == e
  {
    forall m | n <= m < e
      ensures IsWordChar(line[m])
    {
      assert line[m] == d.name[m - n];
    }
    if e < |line| {
      assert line[e] == d.rest[0];
    }
    if d.range.Some? {
      RangeStringHead(d.range.value);
      assert line[at] == line[at..n][0];
    }
    RangeThenNameRendered(line, at, d.range, n, e);
    if d.storage.Some? {
      var w := d.storage.value;
      assert line[j..at] == st + w;
      ClassesDisjoint(line[at]);
      StorageAtRendered(line, st, j, w, at);
      GroupsAtStorage(line, st, j, at, (d.range, n));
    } else {
      assert at == j by {
        assert |line[j..at]| == |StorageString(st, d)| == 0;
      }
      NoStorageRendered(line, st, j, d, n, e);
      GroupsAtPlain(line, st, j, (d.range, n));
    }
  }

  lemma RangeStringHead(r: RangeText)
    ensures |RangeString(r)| >= 1 && RangeString(r)[0] == '['
  {
  }

  /** The groups when the storage keyword and what follows it are both taken. */
  lemma GroupsAtStorage(line: string, st: string, j: nat, at: nat, x: (Option<RangeText>, nat))
    requires j <= |line| && StorageAt(line, st, j) == Some(at) && RangeThenName(line, at) == Some(x)
    ensures GroupsAt(line, st, j) == Some(Groups(Some(line[j + |st|..at]), at, x.0, x.1))
  {
  }

  /** The groups when the storage keyword is not there. */
  lemma GroupsAtPlain(line: string, st: string, j: nat, x: (Option<RangeText>, nat))
    requires j <= |line| && StorageAt(line, st, j).None? && RangeThenName(line, j) == Some(x)
    ensures GroupsAt(line, st, j) == Some(Groups(None, j, x.0, x.1))
  {
  }

  /** The pieces of a rendered line sit where their lengths put them. */
  lemma RenderPieces(kw: string, st: string, d: PortLine)
    ensures var line := Render(kw, st, d);
      var i := |d.lead|;
      var j := i + |kw| + |d.gap|;
      var at := j + |StorageString(st, d)|;
      var n := at + |OptRangeString(d)|;
      var e := n + |d.name|;
      && |line| == e + |d.rest|
      && line[..i] == d.lead && line[i..i + |kw|] == kw && line[i + |kw|..j] == d.gap
      && line[j..at] == StorageString(st, d) && line[at..n] == OptRangeString(d)
      && line[n..e] == d.name && line[e..] == d.rest
  {
    var line := Render(kw, st, d);
    var i := |d.lead|;
    var j := i + |kw| + |d.gap|;
    var at := j + |StorageString(st, d)|;
    var n := at + |OptRangeString(d)|;
    var e := n + |d.name|;
    Nest7(d.lead, kw, d.gap, StorageString(st, d), OptRangeString(d), d.name, d.rest);
    assert line[0..|line|] == line;
    Cut7(line, 0, i, i + |kw|, j, at, n, e, |line|,
         d.lead, kw, d.gap, StorageString(st, d), OptRangeString(d), d.name, d.rest);
    assert line[..i] == line[0..i];
    assert line[e..] == line[e..|line|];
  }

  /** Seven strings joined from the left are the same strings joined from the right. */
  lemma Nest7(x0: string, x1: string, x2: string, x3: string, x4: string, x5: string, x6: string)
    ensures x0 + x1 + x2 + x3 + x4 + x5 + x6 == x0 + (x1 + (x2 + (x3 + (x4 + (x5 + x6)))))
  {
  }

  /** A slice that spells seven strings in a row splits into one slice per string. */
  lemma Cut7(line: string, q0: nat, q1: nat, q2: nat, q3: nat, q4: nat, q5: nat, q6: nat, q7: nat,
             x0: string, x1: string, x2: string, x3: string, x4: string, x5: string, x6: string)
    requires q1 == q0 + |x0| && q2 == q1 + |x1| && q3 == q2 + |x2| && q4 == q3 + |x3|
    requires q5 == q4 + |x4| && q6 == q5 + |x5| && q7 == q6 + |x6| && q7 <= |line|
    requires line[q0..q7] == x0 + (x1 + (x2 + (x3 + (x4 + (x5 + x6)))))
    ensures line[q0..q1] == x0 && line[q1..q2] == x1 && line[q2..q3] == x2 && line[q3..q4] == x3
    ensures line[q4..q5] == x4 && line[q5..q6] == x5 && line[q6..q7] == x6
  {
    Cut(line, q0, q1, q7, x0, x1 + (x2 + (x3 + (x4 + (x5 + x6)))));
    Cut(line, q1, q2, q7, x1, x2 + (x3 + (x4 + (x5 + x6))));
    Cut(line, q2, q3, q7, x2, x3 + (x4 + (x5 + x6)));
    Cut(line, q3, q4, q7, x3, x4 + (x5 + x6));
    Cut(line, q4, q5, q7, x4, x5 + x6);
    Cut(line, q5, q6, q7, x5, x6);
  }

  /** A well-formed split that is not ambiguous is read back exactly: the
      matcher takes the storage keyword and the range precisely when the
      line has them, and captures the name. */
  lemma ScanPortRendered(kw: string, st: string, d: PortLine)
    requires |kw| >= 1 && !IsSpace(kw[0]) && |st| >= 1 && AllWord(st)
    requires WellFormed(d) && !Ambiguous(st, d)
    ensures ScanPort(Render(kw, st, d), kw, st) == Some(d)
  {
    var line := Render(kw, st, d);
    var i := |d.lead|;
    var j := i + |kw| + |d.gap|;
    var at := j + |StorageString(st, d)|;
    var n := at + |OptRangeString(d)|;
    var e := n + |d.name|;
    RenderPieces(kw, st, d);
    ScanPortAt(line, kw, st, d, i, j, at, n, e);
  }

  /** The matcher on a line whose pieces are known to sit at `i`, `j`, `at`, `n` and `e`. */
  lemma ScanPortAt(line: string, kw: string, st: string, d: PortLine, i: nat, j: nat, at: nat, n: nat, e: nat)
    requires |kw| >= 1 && !IsSpace(kw[0]) && |st| >= 1 && AllWord(st)
    requires WellFormed(d) && !Ambiguous(st, d)
    requires i == |d.lead| && j == i + |kw| + |d.gap| && j <= at <= n && e == n + |d.name| <= |line|
    requires line[..i] == d.lead && line[i..i + |kw|] == kw && line[i + |kw|..j] == d.gap
    requires line[j..at] == StorageString(st, d) && line[at..n] == OptRangeString(d)
    requires line[n..e] == d.name && line[e..] == d.rest
    ensures ScanPort(line, kw, st) == Some(d)
  {
    GapEndsRendered(line, st, d, j, at, n, e);
    KeywordAtRendered(line, kw, i, j);
    GroupsAtRendered(line, st, j, d, at, n, e);
    ScanPortIs(line, kw, st, i, j, Groups(d.storage, at, d.range, n));
  }

  /** The blanks after the direction keyword stop where the storage keyword,
      the range or the name begins. */
  lemma GapEndsRendered(line: string, st: string, d: PortLine, j: nat, at: nat, n: nat, e: nat)
    requires |st| >= 1 && AllWord(st) && WellFormed(d)
    requires j <= at <= n < e <= |line|
    requires line[j..at] == StorageString(st, d) && line[at..n] == OptRangeString(d)
    requires line[n..e] == d.name
    ensures !IsSpace(line[j])
  {
    if d.storage.Some? {
      assert line[j] == line[j..at][0] == st[0];
    } else if d.range.Some? {
      assert line[j] == line[at..n][0] == '[';
    } else {
      assert line[j] == line[n..e][0] == d.name[0];
    }
    ClassesDisjoint(line[j]);
  }

  /** `input wire[3:0] a`: `wire\s+` needs a blank after `wire`, the range
      needs a `[` where `w` stands, so the name captured is `wire` itself. */
  lemma StorageWithoutBlankIsName()
    ensures MatchPort("input wire[3:0] a", "input", "wire") == Some(PortMatch("wire", None))
  {
    var d := PortLine("", " ", None, None, "wire", "[3:0] a");
    assert Render("input", "wire", d) == "input wire[3:0] a";
    ScanPortRendered("input", "wire", d);
  }

  /** The input pattern never matches a line written with the `output` keyword:
      after the leading blanks it finds `outpu` where `input` should stand. */
  lemma InputMissesOutputLine(d: PortLine)
    requires AllSpace(d.lead)
    ensures ScanPort(Render("output", "reg", d), "input", "wire").None?
  {
    var tail := d.gap + StorageString("reg", d) + OptRangeString(d) + d.name + d.rest;
    assert Render("output", "reg", d) == d.lead + ("output" + tail);
    InputMissesAfterBlanks(d.lead, "output" + tail);
  }

  /** The input pattern fails on a line whose first non-blank character is `o`. */
  lemma InputMissesAfterBlanks(lead: string, rest: string)
    requires AllSpace(lead) && |rest| >= 1 && rest[0] == 'o'
    ensures ScanPort(lead + rest, "input", "wire").None?
  {
    var line := lead + rest;
    var i := |lead|;
    assert line[i] == 'o';
    forall m | 0 <= m < i
      ensures IsSpace(line[m])
    {
      assert line[m] == lead[m];
    }
    RunEndAt(line, 0, i, Space);
    if i + 5 <= |line| {
      assert line[i..i + 5][0] == 'o';
    }
  }

  /** `re.search` with the port pattern: the captured groups. */
  function MatchPort(line: string, kw: string, st: string): (r: Option<PortMatch>)
    ensures r.Some? <==> ScanPort(line, kw, st).Some?
    ensures r.Some? ==> |r.value.name| >= 1 && AllWord(r.value.name)
    ensures r.Some? ==>
      var d := ScanPort(line, kw, st).value;
      WellFormed(d) && Render(kw, st, d) == line && r.value == Capture(d)
  {
    match ScanPort(line, kw, st)
    case Some(d) => ScanPortSound(line, kw, st); Some(Capture(d))
    case None => None
  }
}
