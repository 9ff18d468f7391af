/** The unified-diff reader and writer of utils/check-style.py: parse_patchset and
    the write methods of Patch, PatchChunk and PatchChunkLine. */
module PatchText {

  datatype Option<T> = None | Some(value: T)

  datatype Kind = Src | Dst | Both
  datatype Line = Line(kind: Kind, text: string)
  datatype Chunk = Chunk(srcPos: nat, dstPos: nat, lines: seq<Line>)
  datatype Patch = Patch(src: string, dst: string, chunks: seq<Chunk>)

  predicate IsSrc(l: Line) { l.kind != Dst }
  predicate IsDst(l: Line) { l.kind != Src }

  // ---------- Decimal numbers ----------

  predicate IsDigit(c: char) { '0' <= c <= '9' }

  predicate AllDigits(s: string) { forall i :: 0 <= i < |s| ==> IsDigit(s[i]) }

  /** The value int() gives to a run of digits. */
  function Value(s: string): nat
    requires AllDigits(s)
  {
    if s == [] then 0 else 10 * Value(s[..|s| - 1]) + (s[|s| - 1] as int - '0' as int)
  }

  /** The decimal digits that '%d' writes. */
  function Decimal(n: nat): (s: string)
    ensures s != [] && AllDigits(s)
  {
    var last := ('0' as int + n % 10) as char;
    if n < 10 then [last] else Decimal(n / 10) + [last]
  }

  lemma {:induction false} ValueOfDecimal(n: nat)
    ensures Value(Decimal(n)) == n
  {
    if n >= 10 {
      ValueOfDecimal(n / 10);
      assert Decimal(n)[..|Decimal(n)| - 1] == Decimal(n / 10);
    } else {
      assert Decimal(n)[..0] == [];
    }
  }

  /** The number of digits at the front of s. */
  function DigitRun(s: string): (k: nat)
    ensures k <= |s| && AllDigits(s[..k]) && (k < |s| ==> !IsDigit(s[k]))
  {
    if s == [] || !IsDigit(s[0]) then 0 else 1 + DigitRun(s[1..])
  }

  lemma DigitRunStops(d: string, rest: string)
    requires AllDigits(d) && rest != [] && !IsDigit(rest[0])
    ensures DigitRun(d + rest) == |d|
  {
    if d == [] {
      assert d + rest == rest;
    } else {
      assert (d + rest)[1..] == d[1..] + rest;
      DigitRunStops(d[1..], rest);
    }
  }

  // ---------- Writing ----------

  function Mark(k: Kind): char {
    match k case Src => '-' case Dst => '+' case Both => ' '
  }

  function WriteLine(l: Line): string { [Mark(l.kind)] + l.text + "\n" }

  function Count(lines: seq<Line>, p: Line -> bool): nat {
    if lines == [] then 0 else Count(lines[..|lines| - 1], p) + if p(lines[|lines| - 1]) then 1 else 0
  }

  function WriteHeader(c: Chunk): string {
    "@@ -" + Decimal(c.srcPos) + "," + Decimal(Count(c.lines, IsSrc))
    + " +" + Decimal(c.dstPos) + "," + Decimal(Count(c.lines, IsDst)) + " @@\n"
  }

  function WriteLines(lines: seq<Line>): seq<string> {
    seq(|lines|, i requires 0 <= i < |lines| => WriteLine(lines[i]))
  }

  function WriteChunk(c: Chunk): seq<string> { [WriteHeader(c)] + WriteLines(c.lines) }

  function WriteChunks(cs: seq<Chunk>): seq<string> {
    if cs == [] then [] else WriteChunks(cs[..|cs| - 1]) + WriteChunk(cs[|cs| - 1])
  }

  function WritePatch(p: Patch): seq<string> {
    ["--- " + p.src + "\n", "+++ " + p.dst + "\n"] + WriteChunks(p.chunks)
  }

  /** The lines written for a patch set, each with its newline. */
  function WriteSet(ps: seq<Patch>): seq<string> {
    if ps == [] then [] else WriteSet(ps[..|ps| - 1]) + WritePatch(ps[|ps| - 1])
  }

  /** The file as one string, and the lines a reader of the file gets. */
  function Join(lines: seq<string>): string {
    if lines == [] then "" else lines[0] + Join(lines[1..])
  }

  function SplitLines(text: string): seq<string>
    decreases |text|
  {
    if text == "" then []
    else
      var k := LineLength(text);
      [text[..k]] + SplitLines(text[k..])
  }

  /** The length of the first line, its newline included. */
  function LineLength(text: string): (k: nat)
    requires text != ""
    ensures 0 < k <= |text| && '\n' !in text[..k - 1] && (k < |text| ==> text[k - 1] == '\n')
  {
    if text[0] == '\n' || |text| == 1 then 1 else 1 + LineLength(text[1..])
  }

  // ---------- Reading one line ----------

  /** '^' + prefix + '(.*)$': the rest of the line, up to its newline. */
  function Rest(prefix: string, line: string): Option<string> {
    if !(prefix <= line) then None
    else
      var rest := line[|prefix|..];
      var body := if rest != "" && rest[|rest| - 1] == '\n' then rest[..|rest| - 1] else rest;
      if '\n' in body then None else Some(body)
  }

  /** `lead` and then a nonempty run of digits: the run, and what follows it. */
  function Number(lead: string, s: string): Option<(string, string)> {
    if !(lead <= s) then None
    else
      var t := s[|lead|..];
      var k := DigitRun(t);
      if k == 0 then None else Some((t[..k], t[k..]))
  }

  /** '^@@ -([0-9]+),([0-9]+) \+([0-9]+),([0-9]+) @@': the two positions. */
  function HeaderOf(line: string): Option<(nat, nat)> {
    match Number("@@ -", line)
    case None => None
    case Some((a, s1)) =>
      match Number(",", s1)
      case None => None
      case Some((_, s2)) =>
        match Number(" +", s2)
        case None => None
        case Some((b, s3)) =>
          match Number(",", s3)
          case None => None
          case Some((_, s4)) =>
            if " @@" <= s4 && AllDigits(a) && AllDigits(b) then Some((Value(a), Value(b))) else None
  }

  // ---------- What the expressions match ----------

  /** Rest is the match of '^' + prefix + '(.*)$': the group is everything up to
      the end of the line or its newline, and holds no newline itself. */
  lemma RestIff(prefix: string, line: string, b: string)
    ensures Rest(prefix, line) == Some(b) <==> CleanText(b) && (line == prefix + b || line == prefix + b + "\n")
  {
    if prefix <= line {
      var rest := line[|prefix|..];
      assert line == prefix + rest;
      if rest != "" && rest[|rest| - 1] == '\n' {
        assert rest == rest[..|rest| - 1] + "\n";
        assert line == prefix + rest[..|rest| - 1] + "\n";
      }
      if line == prefix + b { assert rest == b; }
      if line == prefix + b + "\n" { assert rest == b + "\n" && rest[..|b|] == b; }
    }
  }

  ghost predicate Numeral(s: string) { s != "" && AllDigits(s) }

  /** The line is a chunk header with these four numerals, and anything after it. */
  ghost predicate IsHeader(line: string, a: string, b: string, d: string, e: string, rest: string) {
    && Numeral(a) && Numeral(b) && Numeral(d) && Numeral(e)
    && line == "@@ -" + a + "," + b + " +" + d + "," + e + " @@" + rest
  }

  lemma NumberRead(lead: string, digits: string, rest: string)
    requires Numeral(digits) && rest != [] && !IsDigit(rest[0])
    ensures Number(lead, lead + digits + rest) == Some((digits, rest))
  {
    var s := lead + digits + rest;
    assert s[|lead|..] == digits + rest;
    DigitRunStops(digits, rest);
    assert (digits + rest)[..|digits|] == digits;
    assert (digits + rest)[|digits|..] == rest;
  }

  lemma NumberSplits(lead: string, s: string)
    ensures var r := Number(lead, s); r.Some? ==> Numeral(r.value.0) && s == lead + r.value.0 + r.value.1
  {
    if lead <= s {
      var t := s[|lead|..];
      assert s == lead + t && t == t[..DigitRun(t)] + t[DigitRun(t)..];
    }
  }

  /** Every text with the shape of a header is read as one, with its first and its
      third number, whatever the other two are and whatever follows. */
  lemma HeaderRead(line: string, a: string, b: string, d: string, e: string, rest: string)
    requires IsHeader(line, a, b, d, e, rest)
    ensures HeaderOf(line) == Some((Value(a), Value(d)))
  {
    hide Value;
    var s4 := " @@" + rest;
    var s3 := "," + e + s4;
    var s2 := " +" + d + s3;
    var s1 := "," + b + s2;
    assert line == "@@ -" + a + s1;
    NumberRead("@@ -", a, s1);
    NumberRead(",", b, s2);
    NumberRead(" +", d, s3);
    NumberRead(",", e, s4);
  }

  /** And nothing else is. */
  lemma HeaderSplits(line: string) returns (a: string, b: string, d: string, e: string, rest: string)
    requires HeaderOf(line).Some?
    ensures IsHeader(line, a, b, d, e, rest) && HeaderOf(line) == Some((Value(a), Value(d)))
  {
    hide Value, Number;
    NumberSplits("@@ -", line);
    var s1 := Number("@@ -", line).value.1;
    NumberSplits(",", s1);
    var s2 := Number(",", s1).value.1;
    NumberSplits(" +", s2);
    var s3 := Number(" +", s2).value.1;
    NumberSplits(",", s3);
    var s4 := Number(",", s3).value.1;
    a, b, d, e := Number("@@ -", line).value.0, Number(",", s1).value.0, Number(" +", s2).value.0, Number(",", s3).value.0;
    rest := s4[3..];
    assert s4 == " @@" + rest;
    assert line == "@@ -" + a + "," + b + " +" + d + "," + e + " @@" + rest;
  }

  /** A line is a chunk header with positions x and y exactly when it has the shape
      of one and these are its first and its third number. */
  lemma HeaderIff(line: string, x: nat, y: nat)
    ensures HeaderOf(line) == Some((x, y)) <==>
            exists a, b, d, e, rest :: IsHeader(line, a, b, d, e, rest) && Value(a) == x && Value(d) == y
  {
    hide HeaderOf, Value;
    if HeaderOf(line) == Some((x, y)) {
      var a, b, d, e, rest := HeaderSplits(line);
    }
    if a, b, d, e, rest :| IsHeader(line, a, b, d, e, rest) && Value(a) == x && Value(d) == y {
      HeaderRead(line, a, b, d, e, rest);
    }
  }

  // ---------- The parser ----------

  datatype Failure = AttributeError | UnboundLocalError | NoMatch

  /** The patch set so far; `chunk` says which chunk of which patch is the
      current one. A new patch header does not forget the current chunk. */
  datatype State = State(patches: seq<Patch>, chunk: Option<(nat, nat)>)

  datatype Parsed = Ok(state: State) | Raised(failure: Failure)

  ghost predicate Valid(st: State) {
    st.chunk.Some? ==>
      && st.chunk.value.0 < |st.patches|
      && st.chunk.value.1 < |st.patches[st.chunk.value.0].chunks|
  }

  function AddLine(st: State, l: Line): Parsed
    requires Valid(st)
  {
    if st.chunk.None? then Raised(UnboundLocalError)
    else
      var (i, j) := st.chunk.value;
      var p := st.patches[i];
      var c := p.chunks[j];
      Ok(st.(patches := st.patches[i := p.(chunks := p.chunks[j := c.(lines := c.lines + [l])])]))
  }

  function ReadLine(st: State, line: string): (r: Parsed)
    requires Valid(st)
    ensures r.Ok? ==> Valid(r.state)
  {
    var n := |st.patches|;
    if Rest("--- ", line).Some? then
      Ok(st.(patches := st.patches + [Patch(Rest("--- ", line).value, "", [])]))
    else if Rest("+++ ", line).Some? then
      if n == 0 then Raised(AttributeError)
      else Ok(st.(patches := st.patches[n - 1 := st.patches[n - 1].(dst := Rest("+++ ", line).value)]))
    else if HeaderOf(line).Some? then
      if n == 0 then Raised(AttributeError)
      else
        var p := st.patches[n - 1];
        var c := Chunk(HeaderOf(line).value.0, HeaderOf(line).value.1, []);
        Ok(State(st.patches[n - 1 := p.(chunks := p.chunks + [c])], Some((n - 1, |p.chunks|))))
    else if Rest("-", line).Some? then AddLine(st, Line(Src, Rest("-", line).value))
    else if Rest("+", line).Some? then AddLine(st, Line(Dst, Rest("+", line).value))
    else if Rest(" ", line).Some? then AddLine(st, Line(Both, Rest(" ", line).value))
    else Raised(NoMatch)
  }

  function ReadLines(st: State, lines: seq<string>): (r: Parsed)
    requires Valid(st)
    ensures r.Ok? ==> Valid(r.state)
  {
    if lines == [] then Ok(st)
    else
      var r := ReadLines(st, lines[..|lines| - 1]);
      if r.Raised? then r else ReadLine(r.state, lines[|lines| - 1])
  }

  const START := State([], None)

  // ---------- What a parsed patch set looks like ----------

  predicate CleanText(s: string) { '\n' !in s }

  /** Written and read back, the line is the same line. */
  predicate CleanLine(l: Line) {
    && CleanText(l.text)
    && (l.kind == Src ==> !("-- " <= l.text))
    && (l.kind == Dst ==> !("++ " <= l.text))
  }

  predicate CleanChunk(c: Chunk) { forall i :: 0 <= i < |c.lines| ==> CleanLine(c.lines[i]) }

  predicate CleanPatch(p: Patch) {
    && CleanText(p.src) && CleanText(p.dst)
    && forall i :: 0 <= i < |p.chunks| ==> CleanChunk(p.chunks[i])
  }

  predicate Clean(ps: seq<Patch>) { forall i :: 0 <= i < |ps| ==> CleanPatch(ps[i]) }

  lemma AddLineIsClean(st: State, l: Line)
    requires Valid(st) && Clean(st.patches) && CleanLine(l) && AddLine(st, l).Ok?
    ensures Clean(AddLine(st, l).state.patches)
  {
    hide CleanLine;
    var (i, j) := st.chunk.value;
    assert CleanPatch(st.patches[i]) && CleanChunk(st.patches[i].chunks[j]);
  }

  /** Whatever was read, every line of the result would survive being written
      and read again. */
  lemma ReadIsClean(st: State, line: string)
    requires Valid(st) && Clean(st.patches) && ReadLine(st, line).Ok?
    ensures Clean(ReadLine(st, line).state.patches)
  {
    hide HeaderOf, AddLine;
    if Rest("--- ", line).None? && Rest("+++ ", line).None? {
      if HeaderOf(line).None? {
        var l := if Rest("-", line).Some? then Line(Src, Rest("-", line).value)
                 else if Rest("+", line).Some? then Line(Dst, Rest("+", line).value)
                 else Line(Both, Rest(" ", line).value);
        MarkedLineIsClean(line, l);
        AddLineIsClean(st, l);
      } else {
        assert CleanPatch(st.patches[|st.patches| - 1]);
      }
    } else if st.patches != [] {
      assert CleanPatch(st.patches[|st.patches| - 1]);
    }
  }

  lemma MarkedLineIsClean(line: string, l: Line)
    requires Rest("--- ", line).None? && Rest("+++ ", line).None?
    requires Rest([Mark(l.kind)], line) == Some(l.text)
    ensures CleanLine(l)
  {
    MarkedTwice("-", "-- ", line);
    MarkedTwice("+", "++ ", line);
    assert "-" + "-- " == "--- " && "+" + "++ " == "+++ ";
  }

  lemma MarkedTwice(mark: string, more: string, line: string)
    ensures Rest(mark, line).Some? && more <= Rest(mark, line).value ==> Rest(mark + more, line).Some?
  {
    if Rest(mark, line).Some? && more <= Rest(mark, line).value {
      var rest := line[|mark|..];
      assert line == mark + rest && more <= rest;
      assert line[|mark + more|..] == rest[|more|..];
    }
  }

  lemma ParsedIsClean(lines: seq<string>)
    ensures var r := ReadLines(START, lines); r.Ok? ==> Clean(r.state.patches)
  {
    if lines != [] {
      var front := lines[..|lines| - 1];
      ParsedIsClean(front);
      var r := ReadLines(START, front);
      if r.Ok? && ReadLine(r.state, lines[|lines| - 1]).Ok? { ReadIsClean(r.state, lines[|lines| - 1]); }
    }
  }

  // ---------- The current chunk ----------

  /** The place of the last chunk: the last patches may have none. */
  ghost predicate IsLastChunk(ps: seq<Patch>, at: Option<(nat, nat)>) {
    match at
    case None => forall k :: 0 <= k < |ps| ==> ps[k].chunks == []
    case Some((i, j)) =>
      i < |ps| && j + 1 == |ps[i].chunks| && forall k :: i < k < |ps| ==> ps[k].chunks == []
  }

  /** Whatever was read, the current chunk is the last chunk of the last patch that
      has one, and there is none exactly when no patch has a chunk. */
  lemma {:induction false} CurrentChunkIsLast(lines: seq<string>)
    ensures var r := ReadLines(START, lines); r.Ok? ==> IsLastChunk(r.state.patches, r.state.chunk)
  {
    hide ReadLine, IsLastChunk;
    if lines == [] {
      StartHasNoChunk();
    } else {
      var front := ReadLines(START, lines[..|lines| - 1]);
      CurrentChunkIsLast(lines[..|lines| - 1]);
      if front.Ok? { ReadKeepsLast(front.state, lines[|lines| - 1]); }
    }
  }

  lemma StartHasNoChunk()
    ensures IsLastChunk(START.patches, START.chunk)
  {
  }

  lemma ReadKeepsLast(st: State, line: string)
    requires Valid(st) && IsLastChunk(st.patches, st.chunk)
    ensures var r := ReadLine(st, line); r.Ok? ==> IsLastChunk(r.state.patches, r.state.chunk)
  {
    hide Rest, HeaderOf, AddLine;
    forall l ensures AddLine(st, l).Ok? ==> IsLastChunk(AddLine(st, l).state.patches, AddLine(st, l).state.chunk) {
      if st.chunk.Some? { AddKeepsLast(st, l); } else { NowhereToAdd(st, l); }
    }
  }

  lemma AddKeepsLast(st: State, l: Line)
    requires Valid(st) && IsLastChunk(st.patches, st.chunk) && st.chunk.Some?
    ensures AddLine(st, l).Ok? && IsLastChunk(AddLine(st, l).state.patches, AddLine(st, l).state.chunk)
  {
  }

  lemma NowhereToAdd(st: State, l: Line)
    requires Valid(st) && st.chunk.None?
    ensures AddLine(st, l) == Raised(UnboundLocalError)
  {
  }

  /** The line is read as a line of a chunk. */
  ghost predicate IsContent(line: string) {
    && Rest("--- ", line).None? && Rest("+++ ", line).None? && HeaderOf(line).None?
    && (Rest("-", line).Some? || Rest("+", line).Some? || Rest(" ", line).Some?)
  }

  /** Where the next content line goes. It is refused exactly when no patch has a
      chunk; it changes the last patch if that has a chunk, and otherwise, exactly
      then, it changes an earlier patch. */
  lemma ContentGoes(lines: seq<string>, line: string)
    requires ReadLines(START, lines).Ok? && IsContent(line)
    ensures var ps := ReadLines(START, lines).state.patches;
            var r := ReadLines(START, lines + [line]);
      && (r.Raised? <==> forall k :: 0 <= k < |ps| ==> ps[k].chunks == [])
      && (r.Raised? ==> r.failure == UnboundLocalError)
      && (r.Ok? ==>
            var n := |ps| - 1;
            && n >= 0 && |r.state.patches| == n + 1
            && (r.state.patches[n] != ps[n] <==> ps[n].chunks != [])
            && (r.state.patches[..n] == ps[..n] <==> ps[n].chunks != []))
  {
    hide Rest, HeaderOf, ReadLines;
    CurrentChunkIsLast(lines);
    ReadSnoc(START, lines, line);
    var st := ReadLines(START, lines).state;
    var l := if Rest("-", line).Some? then Line(Src, Rest("-", line).value)
             else if Rest("+", line).Some? then Line(Dst, Rest("+", line).value)
             else Line(Both, Rest(" ", line).value);
    assert ReadLine(st, line) == AddLine(st, l);
    if st.chunk.Some? { AddLineShows(st, l); }
  }

  /** Adding a line changes the patch of the current chunk and no other. */
  lemma AddLineShows(st: State, l: Line)
    requires Valid(st) && st.chunk.Some?
    ensures var i := st.chunk.value.0;
            var r := AddLine(st, l);
      && r.Ok? && r.state.chunk == st.chunk
      && |r.state.patches| == |st.patches| && r.state.patches[i] != st.patches[i]
      && forall k :: 0 <= k < |st.patches| && k != i ==> r.state.patches[k] == st.patches[k]
  {
    var (i, j) := st.chunk.value;
    var lines := st.patches[i].chunks[j].lines;
    assert |lines + [l]| != |lines|;
    assert AddLine(st, l).state.patches[i].chunks[j].lines == lines + [l];
  }

  // ---------- What parses ----------

  ghost predicate IsOldFile(line: string) { Rest("--- ", line).Some? }
  ghost predicate IsNewFile(line: string) { !IsOldFile(line) && Rest("+++ ", line).Some? }
  ghost predicate IsChunkHead(line: string) { !IsOldFile(line) && !IsNewFile(line) && HeaderOf(line).Some? }

  ghost predicate SomeOldFile(lines: seq<string>) { exists j :: 0 <= j < |lines| && IsOldFile(lines[j]) }
  ghost predicate SomeChunkHead(lines: seq<string>) { exists j :: 0 <= j < |lines| && IsChunkHead(lines[j]) }

  /** Line i has one of the six forms and comes after what it needs: a "+++" line or
      a chunk header after a "---" line, a content line after a chunk header. */
  ghost predicate Fits(lines: seq<string>, i: nat)
    requires i < |lines|
  {
    || IsOldFile(lines[i])
    || ((IsNewFile(lines[i]) || IsChunkHead(lines[i])) && SomeOldFile(lines[..i]))
    || (IsContent(lines[i]) && SomeChunkHead(lines[..i]))
  }

  ghost predicate AllFit(lines: seq<string>) { forall i :: 0 <= i < |lines| ==> Fits(lines, i) }

  /** What one line does to the two things that later lines need. */
  lemma LineOutcome(st: State, line: string)
    requires Valid(st)
    ensures var r := ReadLine(st, line);
      && (r.Ok? <==> || IsOldFile(line)
                     || ((IsNewFile(line) || IsChunkHead(line)) && st.patches != [])
                     || (IsContent(line) && st.chunk.Some?))
      && (r.Ok? ==> && (r.state.patches != [] <==> st.patches != [] || IsOldFile(line))
                    && (r.state.chunk.Some? <==> st.chunk.Some? || IsChunkHead(line)))
      && (r.Raised? ==> r.failure == if IsContent(line) then UnboundLocalError
                                     else if IsNewFile(line) || IsChunkHead(line) then AttributeError
                                     else NoMatch)
  {
    hide Rest, HeaderOf, AddLine;
    forall l
      ensures if st.chunk.None? then AddLine(st, l) == Raised(UnboundLocalError)
              else var r := AddLine(st, l);
                   r.Ok? && r.state.chunk == st.chunk && |r.state.patches| == |st.patches|
    {
      if st.chunk.Some? { AddLineShows(st, l); } else { NowhereToAdd(st, l); }
    }
  }

  lemma {:induction false} ReadMatches(lines: seq<string>)
    ensures var r := ReadLines(START, lines);
      && (r.Ok? <==> AllFit(lines))
      && (r.Ok? ==> (r.state.patches != [] <==> SomeOldFile(lines)) && (r.state.chunk.Some? <==> SomeChunkHead(lines)))
  {
    hide ReadLine, IsOldFile, IsNewFile, IsChunkHead, IsContent, Fits, SomeOldFile, SomeChunkHead;
    if lines == [] {
      NothingBefore();
    } else {
      var front, line := lines[..|lines| - 1], lines[|lines| - 1];
      ReadMatches(front);
      FitsStep(lines);
      var r := ReadLines(START, front);
      if r.Ok? { LineOutcome(r.state, line); }
    }
  }

  lemma NothingBefore()
    ensures !SomeOldFile([]) && !SomeChunkHead([])
  {
  }

  lemma FitsStep(lines: seq<string>)
    requires lines != []
    ensures var front, line := lines[..|lines| - 1], lines[|lines| - 1];
      && (SomeOldFile(lines) <==> SomeOldFile(front) || IsOldFile(line))
      && (SomeChunkHead(lines) <==> SomeChunkHead(front) || IsChunkHead(line))
      && (AllFit(lines) <==> && AllFit(front)
                             && (|| IsOldFile(line)
                                 || ((IsNewFile(line) || IsChunkHead(line)) && SomeOldFile(front))
                                 || (IsContent(line) && SomeChunkHead(front))))
  {
    hide IsOldFile, IsNewFile, IsChunkHead, IsContent;
    var front := lines[..|lines| - 1];
    assert forall j :: 0 <= j < |front| ==> front[j] == lines[j];
    forall i | 0 <= i < |front| ensures Fits(front, i) <==> Fits(lines, i) { assert front[..i] == lines[..i]; }
    assert Fits(lines, |front|) <==>
      || IsOldFile(lines[|front|])
      || ((IsNewFile(lines[|front|]) || IsChunkHead(lines[|front|])) && SomeOldFile(front))
      || (IsContent(lines[|front|]) && SomeChunkHead(front));
  }

  /** Exactly these inputs parse. */
  lemma ParsesIff(lines: seq<string>)
    ensures ReadLines(START, lines).Ok? <==> AllFit(lines)
  {
    ReadMatches(lines);
  }

  /** The first line that does not fit decides which exception is raised. */
  lemma FirstMisfitDecides(lines: seq<string>, n: nat)
    requires n < |lines| && AllFit(lines[..n]) && !Fits(lines, n)
    ensures ReadLines(START, lines) ==
            Raised(if IsContent(lines[n]) then UnboundLocalError
                   else if IsNewFile(lines[n]) || IsChunkHead(lines[n]) then AttributeError
                   else NoMatch)
  {
    hide ReadLine, ReadLines, IsOldFile, IsNewFile, IsChunkHead, IsContent, SomeOldFile, SomeChunkHead, AllFit;
    ReadMatches(lines[..n]);
    LineOutcome(ReadLines(START, lines[..n]).state, lines[n]);
    ReadSnoc(START, lines[..n], lines[n]);
    ReadAppend(START, lines[..n] + [lines[n]], lines[n + 1..]);
    assert lines == lines[..n] + [lines[n]] + lines[n + 1..];
  }

  // ---------- Reading what was written ----------

  lemma ReadSnoc(st: State, lines: seq<string>, line: string)
    requires Valid(st)
    ensures ReadLines(st, lines + [line]) ==
            var r := ReadLines(st, lines); if r.Ok? then ReadLine(r.state, line) else r
  {
    hide ReadLine;
    assert (lines + [line])[..|lines|] == lines;
  }

  lemma ReadAppend(st: State, a: seq<string>, b: seq<string>)
    requires Valid(st)
    ensures ReadLines(st, a + b) ==
            var r := ReadLines(st, a); if r.Ok? then ReadLines(r.state, b) else r
  {
    hide ReadLine, ReadLines, Valid;
    if b == [] {
      assert a + b == a;
      ReadNothing(st, a);
    } else {
      var front, line := b[..|b| - 1], b[|b| - 1];
      ReadAppend(st, a, front);
      assert a + b == (a + front) + [line] && b == front + [line];
      ReadSnoc(st, a + front, line);
      if ReadLines(st, a).Ok? { ReadSnoc(ReadLines(st, a).state, front, line); }
    }
  }

  lemma ReadNothing(st: State, a: seq<string>)
    requires Valid(st)
    ensures ReadLines(st, a).Ok? ==> ReadLines(ReadLines(st, a).state, []) == ReadLines(st, a)
  {
    hide ReadLine;
  }

  lemma RestOfWritten(prefix: string, text: string)
    requires CleanText(text)
    ensures Rest(prefix, prefix + text + "\n") == Some(text)
  {
    var line := prefix + text + "\n";
    assert line[|prefix|..] == text + "\n";
    assert (text + "\n")[..|text|] == text;
  }

  ghost function Chosen(lines: seq<Line>, p: Line -> bool): set<int> {
    set k | 0 <= k < |lines| && p(lines[k])
  }

  lemma {:induction false} CountIsSize(lines: seq<Line>, p: Line -> bool)
    ensures Count(lines, p) == |Chosen(lines, p)|
  {
    if lines == [] {
      assert Chosen(lines, p) == {};
    } else {
      var n := |lines| - 1;
      CountIsSize(lines[..n], p);
      assert Chosen(lines, p) == Chosen(lines[..n], p) + if p(lines[n]) then {n} else {};
    }
  }

  /** A written header: the source position, the number of lines that are not added,
      the destination position, and the number of lines that are not removed. */
  lemma WrittenHeader(c: Chunk) returns (a: string, b: string, d: string, e: string)
    ensures IsHeader(WriteHeader(c), a, b, d, e, "\n")
    ensures Value(a) == c.srcPos && Value(b) == |(set k | 0 <= k < |c.lines| && c.lines[k].kind != Dst)|
    ensures Value(d) == c.dstPos && Value(e) == |(set k | 0 <= k < |c.lines| && c.lines[k].kind != Src)|
  {
    hide Decimal, Value, Count;
    a, b, d, e := Decimal(c.srcPos), Decimal(Count(c.lines, IsSrc)), Decimal(c.dstPos), Decimal(Count(c.lines, IsDst));
    ValueOfDecimal(c.srcPos);
    ValueOfDecimal(Count(c.lines, IsSrc));
    ValueOfDecimal(c.dstPos);
    ValueOfDecimal(Count(c.lines, IsDst));
    CountIsSize(c.lines, IsSrc);
    CountIsSize(c.lines, IsDst);
    assert Chosen(c.lines, IsSrc) == (set k | 0 <= k < |c.lines| && c.lines[k].kind != Dst);
    assert Chosen(c.lines, IsDst) == (set k | 0 <= k < |c.lines| && c.lines[k].kind != Src);
    assert " @@\n" == " @@" + "\n";
  }

  lemma HeaderOfWritten(c: Chunk)
    ensures HeaderOf(WriteHeader(c)) == Some((c.srcPos, c.dstPos))
  {
    hide WriteHeader, HeaderOf, Value, IsHeader;
    var a, b, d, e := WrittenHeader(c);
    HeaderRead(WriteHeader(c), a, b, d, e, "\n");
  }

  lemma ReadWrittenLine(st: State, l: Line)
    requires Valid(st) && CleanLine(l)
    ensures ReadLine(st, WriteLine(l)) == AddLine(st, l)
  {
    hide AddLine, HeaderOf, Rest, Valid, CleanLine;
    var line := WriteLine(l);
    WrittenMark(l);
    NotAHeader(line);
    match l.kind {
      case Src => OtherMark("+++ ", line);
      case Dst => OtherMark("--- ", line); OtherMark("-", line);
      case Both => OtherMark("--- ", line); OtherMark("+++ ", line); OtherMark("-", line); OtherMark("+", line);
    }
  }

  /** A written line starts with its mark and does not read as a file header. */
  lemma WrittenMark(l: Line)
    requires CleanLine(l)
    ensures WriteLine(l)[0] == Mark(l.kind) && Rest([Mark(l.kind)], WriteLine(l)) == Some(l.text)
    ensures l.kind == Src ==> Rest("--- ", WriteLine(l)).None?
    ensures l.kind == Dst ==> Rest("+++ ", WriteLine(l)).None?
  {
    hide Rest;
    RestOfWritten([Mark(l.kind)], l.text);
    if l.kind == Src { NotTwiceMarked("-", "-- ", l.text); assert "-" + "-- " == "--- "; }
    if l.kind == Dst { NotTwiceMarked("+", "++ ", l.text); assert "+" + "++ " == "+++ "; }
  }

  lemma OtherMark(prefix: string, line: string)
    requires prefix != "" && line != "" && prefix[0] != line[0]
    ensures Rest(prefix, line).None?
  {
  }

  lemma NotAHeader(line: string)
    requires line != "" && line[0] != '@'
    ensures HeaderOf(line).None?
  {
  }

  lemma NotTwiceMarked(mark: string, more: string, text: string)
    requires |more| == 3 && more[2] == ' ' && !(more <= text)
    ensures Rest(mark + more, mark + text + "\n").None?
  {
    var line := mark + text + "\n";
    assert line == mark + (text + "\n");
    if mark + more <= line { PrefixTail(mark, more, text + "\n"); TextPrefix(more, text); }
  }

  lemma PrefixTail(mark: string, more: string, rest: string)
    requires mark + more <= mark + rest
    ensures more <= rest
  {
    assert (mark + more)[|mark|..] == more && (mark + rest)[|mark|..] == rest;
  }

  lemma TextPrefix(more: string, text: string)
    requires |more| == 3 && more[2] == ' ' && more <= text + "\n"
    ensures more <= text
  {
    assert (text + "\n")[2] == ' ';
  }

  /** The state with the last patch's chunks as given, the last of them current. */
  ghost function Reading(ps: seq<Patch>, p: Patch, chunks: seq<Chunk>, before: Option<(nat, nat)>): State {
    State(ps + [p.(chunks := chunks)], if chunks == [] then before else Some((|ps|, |chunks| - 1)))
  }

  lemma ReadWrittenLines(ps: seq<Patch>, p: Patch, chunks: seq<Chunk>, c: Chunk, k: nat, before: Option<(nat, nat)>)
    requires CleanChunk(c) && k <= |c.lines|
    ensures ReadLines(Reading(ps, p, chunks + [c.(lines := [])], before), WriteLines(c.lines)[..k]) ==
            Ok(Reading(ps, p, chunks + [c.(lines := c.lines[..k])], before))
  {
    hide CleanLine, ReadLine, WriteLine;
    var st := Reading(ps, p, chunks + [c.(lines := [])], before);
    var written := WriteLines(c.lines);
    if k == 0 {
      assert c.lines[..0] == [];
    } else {
      ReadWrittenLines(ps, p, chunks, c, k - 1, before);
      assert written[..k][..k - 1] == written[..k - 1];
      var mid := Reading(ps, p, chunks + [c.(lines := c.lines[..k - 1])], before);
      ReadWrittenLine(mid, c.lines[k - 1]);
      assert c.lines[..k] == c.lines[..k - 1] + [c.lines[k - 1]];
      AddToLastChunk(ps, p, chunks, c.(lines := c.lines[..k - 1]), c.lines[k - 1], before);
    }
  }

  lemma AddToLastChunk(ps: seq<Patch>, p: Patch, chunks: seq<Chunk>, c: Chunk, l: Line, before: Option<(nat, nat)>)
    ensures AddLine(Reading(ps, p, chunks + [c], before), l) ==
            Ok(Reading(ps, p, chunks + [c.(lines := c.lines + [l])], before))
  {
    var st := Reading(ps, p, chunks + [c], before);
    assert (chunks + [c])[|chunks| := c.(lines := c.lines + [l])] == chunks + [c.(lines := c.lines + [l])];
    assert st.patches[|ps| := p.(chunks := chunks + [c.(lines := c.lines + [l])])]
        == ps + [p.(chunks := chunks + [c.(lines := c.lines + [l])])];
  }

  lemma ReadWrittenHeader(ps: seq<Patch>, p: Patch, chunks: seq<Chunk>, c: Chunk, before: Option<(nat, nat)>)
    requires chunks == [] ==> before.None? || (before.value.0 < |ps| && before.value.1 < |ps[before.value.0].chunks|)
    ensures ReadLine(Reading(ps, p, chunks, before), WriteHeader(c)) ==
            Ok(Reading(ps, p, chunks + [c.(lines := [])], before))
  {
    hide HeaderOf, Decimal, AddLine;
    HeaderOfWritten(c);
    var line := WriteHeader(c);
    assert line[0] == '@';
    var st := Reading(ps, p, chunks, before);
    assert st.patches[|ps| := p.(chunks := chunks + [c.(lines := [])])] == ps + [p.(chunks := chunks + [c.(lines := [])])];
  }

  lemma ReadWrittenChunks(ps: seq<Patch>, p: Patch, k: nat, before: Option<(nat, nat)>)
    requires CleanPatch(p) && k <= |p.chunks|
    requires before.None? || (before.value.0 < |ps| && before.value.1 < |ps[before.value.0].chunks|)
    ensures ReadLines(Reading(ps, p, [], before), WriteChunks(p.chunks[..k])) ==
            Ok(Reading(ps, p, p.chunks[..k], before))
  {
    hide CleanChunk, ReadLine, WriteHeader, WriteLines;
    var st := Reading(ps, p, [], before);
    if k == 0 {
      assert p.chunks[..0] == [];
    } else {
      var c := p.chunks[k - 1];
      ReadWrittenChunks(ps, p, k - 1, before);
      assert p.chunks[..k][..k - 1] == p.chunks[..k - 1] && p.chunks[..k] == p.chunks[..k - 1] + [c];
      ReadAppend(st, WriteChunks(p.chunks[..k - 1]), WriteChunk(c));
      var mid := Reading(ps, p, p.chunks[..k - 1], before);
      ReadWrittenHeader(ps, p, p.chunks[..k - 1], c, before);
      ReadOne(mid, WriteHeader(c));
      ReadAppend(mid, [WriteHeader(c)], WriteLines(c.lines));
      ReadWrittenLines(ps, p, p.chunks[..k - 1], c, |c.lines|, before);
      WholeChunk(c);
    }
  }

  lemma WholeChunk(c: Chunk)
    ensures WriteLines(c.lines)[..|c.lines|] == WriteLines(c.lines) && c.(lines := c.lines[..|c.lines|]) == c
  {
  }

  lemma ReadOne(st: State, line: string)
    requires Valid(st)
    ensures ReadLines(st, [line]) == ReadLine(st, line)
  {
    hide ReadLine;
    assert [line][..0] == [];
    assert ReadLines(st, []) == Ok(st);
  }

  lemma ReadWrittenPatch(st: State, p: Patch)
    requires Valid(st) && CleanPatch(p)
    ensures var r := ReadLines(st, WritePatch(p)); r.Ok? && r.state.patches == st.patches + [p]
  {
    hide ReadLine, CleanChunk, Rest;
    var a, b := "--- " + p.src + "\n", "+++ " + p.dst + "\n";
    RestOfWritten("--- ", p.src);
    RestOfWritten("+++ ", p.dst);
    FileLines(st, p, a, b);
    var st1 := Reading(st.patches, p.(dst := ""), [], st.chunk);
    var st2 := Reading(st.patches, p, [], st.chunk);
    ReadOne(st, a);
    ReadOne(st1, b);
    ReadAppend(st, [a], [b]);
    assert [a] + [b] == [a, b];
    ReadAppend(st, [a, b], WriteChunks(p.chunks));
    ReadWrittenChunks(st.patches, p, |p.chunks|, st.chunk);
    assert p.chunks[..|p.chunks|] == p.chunks;
  }

  lemma FileLines(st: State, p: Patch, a: string, b: string)
    requires Valid(st) && Rest("--- ", a) == Some(p.src) && Rest("+++ ", b) == Some(p.dst) && b[0] == '+'
    ensures ReadLine(st, a) == Ok(Reading(st.patches, p.(dst := ""), [], st.chunk))
    ensures ReadLine(Reading(st.patches, p.(dst := ""), [], st.chunk), b) == Ok(Reading(st.patches, p, [], st.chunk))
  {
    hide HeaderOf, AddLine;
  }

  lemma ReadWrittenSet(ps: seq<Patch>)
    requires Clean(ps)
    ensures var r := ReadLines(START, WriteSet(ps)); r.Ok? && r.state.patches == ps
  {
    hide CleanPatch, ReadLine, WritePatch;
    if ps != [] {
      var front := ps[..|ps| - 1];
      ReadWrittenSet(front);
      ReadAppend(START, WriteSet(front), WritePatch(ps[|ps| - 1]));
      ReadWrittenPatch(ReadLines(START, WriteSet(front)).state, ps[|ps| - 1]);
    }
  }

  /** A removed line of the second patch that ends up in the first one. */
  lemma LineIsMisfiled()
    ensures ReadLines(START, ["--- a\n", "+++ b\n", "@@ -1,0 +1,0 @@\n", "--- c\n", "+++ d\n", "-x\n"]) ==
            Ok(State([Patch("a", "b", [Chunk(1, 1, [Line(Src, "x")])]), Patch("c", "d", [])], Some((0, 0))))
  {
    hide ReadLines, ReadLine;
    var c, l := Chunk(1, 1, []), Line(Src, "x");
    var first, second := Patch("a", "b", [c]), Patch("c", "d", []);
    var lines := ["--- a\n", "+++ b\n", "@@ -1,0 +1,0 @@\n", "--- c\n", "+++ d\n"];
    WrittenExample(c, first, second);
    assert lines == WriteSet([first, second]);
    ReadWrittenSet([first, second]);
    CurrentChunkIsLast(lines);
    ReadSnoc(START, lines, "-x\n");
    var st := ReadLines(START, lines).state;
    assert st.chunk == Some((0, 0));
    ReadWrittenLine(st, l);
    assert WriteLine(l) == "-x\n";
    assert lines + ["-x\n"] == ["--- a\n", "+++ b\n", "@@ -1,0 +1,0 @@\n", "--- c\n", "+++ d\n", "-x\n"];
    var c' := c.(lines := [l]);
    assert [] + [l] == [l] && [c][0 := c'] == [c'];
    assert [first, second][0 := first.(chunks := [c'])] == [first.(chunks := [c']), second];
  }

  lemma WrittenExample(c: Chunk, first: Patch, second: Patch)
    requires c == Chunk(1, 1, []) && first == Patch("a", "b", [c]) && second == Patch("c", "d", [])
    ensures WriteSet([first, second]) == ["--- a\n", "+++ b\n", "@@ -1,0 +1,0 @@\n", "--- c\n", "+++ d\n"]
  {
    assert Decimal(1) == "1" && Decimal(0) == "0";
    assert WriteHeader(c) == "@@ -1,0 +1,0 @@\n";
    assert WriteLines([]) == [];
    assert WriteChunks([c]) == WriteChunks([]) + WriteChunk(c);
    assert "--- " + "a" + "\n" == "--- a\n" && "+++ " + "b" + "\n" == "+++ b\n";
    assert "--- " + "c" + "\n" == "--- c\n" && "+++ " + "d" + "\n" == "+++ d\n";
    assert WritePatch(first) == ["--- a\n", "+++ b\n", "@@ -1,0 +1,0 @@\n"];
    assert WritePatch(second) == ["--- c\n", "+++ d\n"];
    assert WriteSet([first]) == WriteSet([]) + WritePatch(first);
    assert [first, second][..1] == [first];
  }

  /** The text of a patch with lines of all three kinds, letter by letter. */
  lemma WrittenLiteral()
    ensures WriteSet([Patch("a/f", "b/f", [Chunk(12, 345, [Line(Both, "k"), Line(Src, "old"), Line(Src, "x"), Line(Dst, "new")])])])
         == ["--- a/f\n", "+++ b/f\n", "@@ -12,3 +345,2 @@\n", " k\n", "-old\n", "-x\n", "+new\n"]
  {
    var lines := [Line(Both, "k"), Line(Src, "old"), Line(Src, "x"), Line(Dst, "new")];
    LiteralHeader(lines);
    LiteralLines(lines);
    hide WriteHeader, WriteLines;
    var c := Chunk(12, 345, lines);
    var p := Patch("a/f", "b/f", [c]);
    assert WriteChunks([c]) == WriteChunks([]) + WriteChunk(c);
    assert "--- " + "a/f" + "\n" == "--- a/f\n" && "+++ " + "b/f" + "\n" == "+++ b/f\n";
    assert WriteSet([p]) == WriteSet([]) + WritePatch(p);
  }

  lemma LiteralHeader(lines: seq<Line>)
    requires |lines| == 4 && lines[0].kind == Both && lines[1].kind == lines[2].kind == Src && lines[3].kind == Dst
    ensures WriteHeader(Chunk(12, 345, lines)) == "@@ -12,3 +345,2 @@\n"
  {
    hide Count;
    FourCounts(lines);
    assert Decimal(1) == "1" && Decimal(12) == "12";
    assert Decimal(3) == "3" && Decimal(34) == "34" && Decimal(345) == "345" && Decimal(2) == "2";
  }

  lemma FourCounts(lines: seq<Line>)
    requires |lines| == 4 && lines[0].kind == Both && lines[1].kind == lines[2].kind == Src && lines[3].kind == Dst
    ensures Count(lines, IsSrc) == 3 && Count(lines, IsDst) == 2
  {
    hide Count;
    CountIsSize(lines, IsSrc);
    CountIsSize(lines, IsDst);
    assert Chosen(lines, IsSrc) == {0, 1, 2};
    assert Chosen(lines, IsDst) == {0, 3};
  }

  lemma LiteralLines(lines: seq<Line>)
    requires lines == [Line(Both, "k"), Line(Src, "old"), Line(Src, "x"), Line(Dst, "new")]
    ensures WriteLines(lines) == [" k\n", "-old\n", "-x\n", "+new\n"]
  {
    assert [' '] + "k" + "\n" == " k\n" && ['-'] + "old" + "\n" == "-old\n";
    assert ['-'] + "x" + "\n" == "-x\n" && ['+'] + "new" + "\n" == "+new\n";
  }

  // ---------- From text to text ----------

  /** A line that ends in its only newline. */
  ghost predicate FullLine(s: string) { s != "" && s[|s| - 1] == '\n' && '\n' !in s[..|s| - 1] }

  ghost predicate FullLines(lines: seq<string>) {
    forall i :: 0 <= i < |lines| ==> FullLine(lines[i])
  }

  lemma LineLengthOf(s: string, rest: string)
    requires FullLine(s)
    ensures LineLength(s + rest) == |s|
  {
    if |s| > 1 {
      assert (s + rest)[1..] == s[1..] + rest;
      assert s[0] in s[..|s| - 1] && s[1..][..|s| - 2] == s[..|s| - 1][1..];
      LineLengthOf(s[1..], rest);
    }
  }

  lemma SplitJoin(lines: seq<string>)
    requires FullLines(lines)
    ensures SplitLines(Join(lines)) == lines
  {
    if lines != [] {
      var rest := Join(lines[1..]);
      LineLengthOf(lines[0], rest);
      assert (lines[0] + rest)[..|lines[0]|] == lines[0] && (lines[0] + rest)[|lines[0]|..] == rest;
      SplitJoin(lines[1..]);
    }
  }

  /** The lines of a file: each but perhaps the last ends in its only newline. */
  ghost predicate FileShape(lines: seq<string>) {
    forall i :: 0 <= i < |lines| ==>
      lines[i] != "" && '\n' !in lines[i][..|lines[i]| - 1] && (i < |lines| - 1 ==> lines[i][|lines[i]| - 1] == '\n')
  }

  lemma FileShapeCons(line: string, rest: seq<string>)
    requires line != "" && '\n' !in line[..|line| - 1] && (rest != [] ==> line[|line| - 1] == '\n') && FileShape(rest)
    ensures FileShape([line] + rest) && Join([line] + rest) == line + Join(rest)
  {
    hide Join;
    var lines := [line] + rest;
    forall i | 0 <= i < |lines|
      ensures lines[i] != "" && '\n' !in lines[i][..|lines[i]| - 1]
      ensures i < |lines| - 1 ==> lines[i][|lines[i]| - 1] == '\n'
    {
      if i > 0 { assert lines[i] == rest[i - 1]; }
    }
    JoinCons(line, rest);
  }

  lemma JoinCons(line: string, rest: seq<string>)
    ensures Join([line] + rest) == line + Join(rest)
  {
    assert ([line] + rest)[1..] == rest;
  }

  /** Reading a file line by line loses nothing. */
  lemma {:induction false} JoinSplit(text: string)
    ensures Join(SplitLines(text)) == text && FileShape(SplitLines(text))
    decreases |text|
  {
    hide FileShape, LineLength;
    if text == "" {
      NoLines();
    } else {
      var k := LineLength(text);
      JoinSplit(text[k..]);
      assert text[..k][..k - 1] == text[..k - 1];
      FileShapeCons(text[..k], SplitLines(text[k..]));
      assert text == text[..k] + text[k..];
    }
  }

  lemma NoLines()
    ensures FileShape([]) && Join([]) == ""
  {
  }

  lemma FullText(prefix: string, text: string)
    requires CleanText(prefix) && CleanText(text)
    ensures FullLine(prefix + text + "\n")
  {
    var s := prefix + text + "\n";
    assert s[..|s| - 1] == prefix + text;
  }

  lemma HeaderIsFull(c: Chunk)
    ensures FullLine(WriteHeader(c))
  {
    hide Decimal;
    var body := "@@ -" + Decimal(c.srcPos) + "," + Decimal(Count(c.lines, IsSrc))
                + " +" + Decimal(c.dstPos) + "," + Decimal(Count(c.lines, IsDst)) + " @@";
    assert WriteHeader(c) == "" + body + "\n";
    DecimalIsClean(c.srcPos);
    DecimalIsClean(Count(c.lines, IsSrc));
    DecimalIsClean(c.dstPos);
    DecimalIsClean(Count(c.lines, IsDst));
    FullText("", body);
  }

  lemma DecimalIsClean(n: nat)
    ensures CleanText(Decimal(n))
  {
  }

  lemma LinesAreFull(lines: seq<Line>)
    requires forall i :: 0 <= i < |lines| ==> CleanLine(lines[i])
    ensures FullLines(WriteLines(lines))
  {
    hide FullLine;
    forall i | 0 <= i < |lines| ensures FullLine(WriteLines(lines)[i]) {
      assert CleanLine(lines[i]);
      FullText([Mark(lines[i].kind)], lines[i].text);
    }
  }

  lemma ChunksAreFull(cs: seq<Chunk>)
    requires forall i :: 0 <= i < |cs| ==> CleanChunk(cs[i])
    ensures FullLines(WriteChunks(cs))
  {
    hide FullLines, CleanChunk, WriteChunk;
    if cs == [] {
      EmptyIsFull();
    } else {
      var c := cs[|cs| - 1];
      ChunksAreFull(cs[..|cs| - 1]);
      ChunkIsFull(c);
      FullAppend(WriteChunks(cs[..|cs| - 1]), WriteChunk(c));
    }
  }

  lemma ChunkIsFull(c: Chunk)
    requires CleanChunk(c)
    ensures FullLines(WriteChunk(c))
  {
    hide WriteHeader, WriteLines, FullLine, CleanLine;
    HeaderIsFull(c);
    LinesAreFull(c.lines);
  }

  lemma EmptyIsFull()
    ensures FullLines([])
  {
  }

  lemma FullAppend(a: seq<string>, b: seq<string>)
    requires FullLines(a) && FullLines(b)
    ensures FullLines(a + b)
  {
    hide FullLine;
  }

  lemma WrittenIsFull(ps: seq<Patch>)
    requires Clean(ps)
    ensures FullLines(WriteSet(ps))
  {
    hide FullLines, WritePatch, CleanPatch;
    if ps == [] {
      EmptyIsFull();
    } else {
      var p := ps[|ps| - 1];
      WrittenIsFull(ps[..|ps| - 1]);
      PatchIsFull(p);
      FullAppend(WriteSet(ps[..|ps| - 1]), WritePatch(p));
    }
  }

  lemma PatchIsFull(p: Patch)
    requires CleanPatch(p)
    ensures FullLines(WritePatch(p))
  {
    hide FullLine, WriteChunks, CleanChunk;
    FullText("--- ", p.src);
    FullText("+++ ", p.dst);
    ChunksAreFull(p.chunks);
  }

  /** What parse_patchset makes of a file's text. */
  function ParseText(text: string): Parsed {
    ReadLines(START, SplitLines(text))
  }

  /** A patch set survives being written to a file and parsed again exactly when
      no text in it holds a newline, no removed line starts with "-- " and no
      added line starts with "++ ". */
  lemma RoundTripIff(ps: seq<Patch>)
    ensures (var r := ParseText(Join(WriteSet(ps))); r.Ok? && r.state.patches == ps) <==> Clean(ps)
  {
    hide Clean, WriteSet, FullLine;
    if Clean(ps) {
      WrittenIsFull(ps);
      SplitJoin(WriteSet(ps));
      ReadWrittenSet(ps);
    } else {
      ParsedIsClean(SplitLines(Join(WriteSet(ps))));
    }
  }

  /** Writing what was parsed and parsing it again changes nothing. */
  lemma ReparseIsStable(text: string)
    requires ParseText(text).Ok?
    ensures var ps := ParseText(text).state.patches;
            var r := ParseText(Join(WriteSet(ps)));
            r.Ok? && r.state.patches == ps
  {
    ParsedIsClean(SplitLines(text));
    RoundTripIff(ParseText(text).state.patches);
  }
}
