/** remove_trailing_whitespace_changes of utils/check-style.py, first on the values
    of the lines of a chunk and then on the line objects, which the source view
    and the destination view of a chunk share. */
module WhitespacePass {
  import opened PatchText
  import opened PatchObjects

  // ---------- The two views of a chunk ----------

  /** The positions of the lines that satisfy p, in order. */
  ghost function Positions(lines: seq<Line>, p: Line -> bool): (r: seq<nat>)
    ensures forall i :: 0 <= i < |r| ==> r[i] < |lines| && p(lines[r[i]])
    ensures forall i, j :: 0 <= i < j < |r| ==> r[i] < r[j]
  {
    if lines == [] then []
    else
      var n := |lines| - 1;
      Positions(lines[..n], p) + if p(lines[n]) then [n] else []
  }

  lemma PositionsComplete(lines: seq<Line>, p: Line -> bool, k: nat)
    requires k < |lines| && p(lines[k])
    ensures k in Positions(lines, p)
  {
    if k < |lines| - 1 {
      assert lines[..|lines| - 1][k] == lines[k];
      PositionsComplete(lines[..|lines| - 1], p, k);
    }
  }

  ghost function SrcAt(lines: seq<Line>): seq<nat> { Positions(lines, IsSrc) }
  ghost function DstAt(lines: seq<Line>): seq<nat> { Positions(lines, IsDst) }

  ghost predicate SameKinds(a: seq<Line>, b: seq<Line>) {
    |a| == |b| && forall k :: 0 <= k < |a| ==> a[k].kind == b[k].kind
  }

  lemma SameKindsSameViews(a: seq<Line>, b: seq<Line>)
    requires SameKinds(a, b)
    ensures SrcAt(a) == SrcAt(b) && DstAt(a) == DstAt(b)
  {
    if a != [] {
      var n := |a| - 1;
      assert forall k :: 0 <= k < n ==> a[..n][k] == a[k] && b[..n][k] == b[k];
      SameKindsSameViews(a[..n], b[..n]);
    }
  }

  ghost function Pairs(lines: seq<Line>): nat {
    if |SrcAt(lines)| < |DstAt(lines)| then |SrcAt(lines)| else |DstAt(lines)|
  }

  // ---------- The pass over one chunk ----------

  predicate Blank(c: char) { c == ' ' || c == '\t' }

  /** '^(.*)([ \t]+)$' is greedy on the left, so its second group is one blank:
      s is d and one blank more. (Python's '$' also matches before a final newline;
      the parser puts no newline into a text, so that case does not arise.) */
  predicate Trails(s: string, d: string) {
    s != "" && Blank(s[|s| - 1]) && s[..|s| - 1] == d
  }

  /** The expression can split s at k: the rest is a nonempty run of blanks. */
  ghost predicate CanSplit(s: string, k: int) {
    0 <= k < |s| && forall i :: k <= i < |s| ==> s[i] == ' ' || s[i] == '\t'
  }

  /** The greedy split is the one with the longest first group. */
  ghost predicate SplitsAt(s: string, k: int) {
    CanSplit(s, k) && forall j :: CanSplit(s, j) ==> j <= k
  }

  lemma TrailsIsGreedyMatch(s: string, d: string)
    ensures Trails(s, d) <==> exists k :: SplitsAt(s, k) && s[..k] == d
  {
    if Trails(s, d) {
      assert CanSplit(s, |s| - 1);
      assert SplitsAt(s, |s| - 1);
    } else if k :| SplitsAt(s, k) && s[..k] == d {
      assert CanSplit(s, |s| - 1);
    }
  }

  /** The lines after the first n pairs have been looked at. */
  ghost function Pass(lines: seq<Line>, n: nat): (r: seq<Line>)
    requires n <= Pairs(lines)
    ensures SameKinds(lines, r)
  {
    if n == 0 then lines
    else
      var before := Pass(lines, n - 1);
      var s, d := SrcAt(lines)[n - 1], DstAt(lines)[n - 1];
      if Trails(before[s].text, before[d].text)
      then before[d := before[d].(text := before[d].text + [before[s].text[|before[s].text| - 1]])]
      else before
  }

  ghost function Stripped(lines: seq<Line>): seq<Line> { Pass(lines, Pairs(lines)) }

  /** Pair i would lengthen a context line, which is also a source line. */
  ghost predicate Offends(lines: seq<Line>, i: nat)
    requires i < Pairs(lines)
  {
    var s, d := lines[SrcAt(lines)[i]], lines[DstAt(lines)[i]];
    d.kind == Both && Trails(s.text, d.text)
  }

  /** What the pass should do to pair i: the destination line becomes the source line. */
  ghost function Mended(lines: seq<Line>, i: nat): Line
    requires i < Pairs(lines)
  {
    var s, d := lines[SrcAt(lines)[i]], lines[DstAt(lines)[i]];
    if Trails(s.text, d.text) then d.(text := s.text) else d
  }

  ghost predicate Untouched(lines: seq<Line>, n: nat, k: nat)
    requires n <= Pairs(lines)
  {
    forall i :: 0 <= i < n ==> DstAt(lines)[i] != k
  }

  /** The first n pairs have been mended and nothing else has changed. */
  ghost predicate MendedUpTo(lines: seq<Line>, n: nat, r: seq<Line>)
    requires n <= Pairs(lines) && |r| == |lines|
  {
    && (forall i :: 0 <= i < n ==> r[DstAt(lines)[i]] == Mended(lines, i))
    && (forall k :: 0 <= k < |lines| && Untouched(lines, n, k) ==> r[k] == lines[k])
  }

  ghost predicate SameSource(lines: seq<Line>, r: seq<Line>)
    requires |r| == |lines|
  {
    forall k :: 0 <= k < |lines| && IsSrc(lines[k]) ==> r[k] == lines[k]
  }

  /** Mending without offence leaves the source lines alone. */
  lemma MendingKeepsSource(lines: seq<Line>, n: nat, r: seq<Line>)
    requires n <= Pairs(lines) && |r| == |lines| && MendedUpTo(lines, n, r)
    requires forall i :: 0 <= i < n ==> !Offends(lines, i)
    ensures SameSource(lines, r)
  {
    hide Positions;
    forall k | 0 <= k < |lines| && IsSrc(lines[k]) ensures r[k] == lines[k] {
      if !Untouched(lines, n, k) {
        var i :| 0 <= i < n && DstAt(lines)[i] == k;
        assert !Offends(lines, i) && IsDst(lines[k]);
        assert r[DstAt(lines)[i]] == Mended(lines, i);
      }
    }
  }

  /** A destination line is looked at only once. */
  lemma PassSettles(lines: seq<Line>, i: nat, n: nat)
    requires i < n <= Pairs(lines)
    ensures Pass(lines, n)[DstAt(lines)[i]] == Pass(lines, i + 1)[DstAt(lines)[i]]
  {
    hide Positions, Pass;
    if n > i + 1 {
      PassSettles(lines, i, n - 1);
      PassElsewhere(lines, n, DstAt(lines)[i]);
    }
  }

  lemma PassElsewhere(lines: seq<Line>, n: nat, k: nat)
    requires 0 < n <= Pairs(lines) && k < |lines| && k != DstAt(lines)[n - 1]
    ensures Pass(lines, n)[k] == Pass(lines, n - 1)[k]
  {
    hide Positions, Trails;
  }

  // ---------- The pass in closed form ----------

  /** The text that pair i has on its source side when it is looked at, worked out
      from the chunk as it was: the line's own text, or, if the line is a context
      line that an earlier pair has lengthened, the text it got from there. */
  ghost function SourceText(lines: seq<Line>, i: nat): string
    requires i < Pairs(lines)
    decreases i, 0
  {
    var s := SrcAt(lines)[i];
    if exists j :: 0 <= j < i && DstAt(lines)[j] == s then
      var j :| 0 <= j < i && DstAt(lines)[j] == s;
      MendedText(lines, j)
    else lines[s].text
  }

  /** The text that pair i leaves on its destination side. */
  ghost function MendedText(lines: seq<Line>, i: nat): string
    requires i < Pairs(lines)
    decreases i, 1
  {
    var own := lines[DstAt(lines)[i]].text;
    if Trails(SourceText(lines, i), own) then SourceText(lines, i) else own
  }

  lemma PassUntouched(lines: seq<Line>, n: nat, k: nat)
    requires n <= Pairs(lines) && k < |lines| && Untouched(lines, n, k)
    ensures Pass(lines, n)[k] == lines[k]
  {
    hide Positions;
    if n > 0 {
      assert DstAt(lines)[n - 1] != k;
      assert Untouched(lines, n - 1, k);
      PassUntouched(lines, n - 1, k);
      PassElsewhere(lines, n, k);
    }
  }

  /** What one pair does, given the text on its source side. */
  lemma PairText(lines: seq<Line>, i: nat)
    requires i < Pairs(lines)
    ensures var s, own := Pass(lines, i)[SrcAt(lines)[i]].text, lines[DstAt(lines)[i]].text;
            Pass(lines, i + 1)[DstAt(lines)[i]].text == if Trails(s, own) then s else own
  {
    hide Positions;
    var d := DstAt(lines)[i];
    assert Untouched(lines, i, d);
    PassUntouched(lines, i, d);
    var s, own := Pass(lines, i)[SrcAt(lines)[i]].text, lines[d].text;
    assert Trails(s, own) ==> own + [s[|s| - 1]] == s;
  }

  lemma {:induction false} SourceTextIsPassed(lines: seq<Line>, i: nat)
    requires i < Pairs(lines)
    ensures Pass(lines, i)[SrcAt(lines)[i]].text == SourceText(lines, i)
    ensures Pass(lines, i + 1)[DstAt(lines)[i]].text == MendedText(lines, i)
    decreases i
  {
    hide Positions, Pass, Trails;
    var s := SrcAt(lines)[i];
    if exists j :: 0 <= j < i && DstAt(lines)[j] == s {
      var j :| 0 <= j < i && DstAt(lines)[j] == s && SourceText(lines, i) == MendedText(lines, j);
      SourceTextIsPassed(lines, j);
      PassSettles(lines, j, i);
    } else {
      PassUntouched(lines, i, s);
    }
    PairText(lines, i);
  }

  /** Every line after the pass, aligned or not: line k is as it was unless it is
      the destination side of some pair, and then it has that pair's text. */
  lemma StrippedLines(lines: seq<Line>, k: nat)
    requires k < |lines|
    ensures Stripped(lines)[k].kind == lines[k].kind
    ensures Untouched(lines, Pairs(lines), k) ==> Stripped(lines)[k] == lines[k]
    ensures forall i :: 0 <= i < Pairs(lines) && DstAt(lines)[i] == k ==> Stripped(lines)[k].text == MendedText(lines, i)
  {
    hide Positions, Pass, MendedText;
    if Untouched(lines, Pairs(lines), k) { PassUntouched(lines, Pairs(lines), k); }
    forall i | 0 <= i < Pairs(lines) && DstAt(lines)[i] == k ensures Stripped(lines)[k].text == MendedText(lines, i) {
      SourceTextIsPassed(lines, i);
      PassSettles(lines, i, Pairs(lines));
    }
  }

  // ---------- What the pass changes ----------

  /** Without an offence before it, pair i finds its source line as it was. */
  lemma {:induction false} PlainText(lines: seq<Line>, i: nat)
    requires i < Pairs(lines) && forall j :: 0 <= j < i ==> !Offends(lines, j)
    ensures SourceText(lines, i) == lines[SrcAt(lines)[i]].text
  {
    hide Positions, Trails;
    var s := SrcAt(lines)[i];
    if exists j :: 0 <= j < i && DstAt(lines)[j] == s {
      var j :| 0 <= j < i && DstAt(lines)[j] == s && SourceText(lines, i) == MendedText(lines, j);
      PlainText(lines, j);
      assert !Offends(lines, j) && lines[s].kind == Both;
    }
  }

  /** As long as no context line has been hit, the pass mends. */
  lemma PassMends(lines: seq<Line>, n: nat)
    requires n <= Pairs(lines) && forall i :: 0 <= i < n ==> !Offends(lines, i)
    ensures MendedUpTo(lines, n, Pass(lines, n))
  {
    hide Positions, Pass, SourceText, Offends, Trails;
    forall i | 0 <= i < n ensures Pass(lines, n)[DstAt(lines)[i]] == Mended(lines, i) {
      SourceTextIsPassed(lines, i);
      PlainText(lines, i);
      PassSettles(lines, i, n);
    }
    forall k | 0 <= k < |lines| && Untouched(lines, n, k) ensures Pass(lines, n)[k] == lines[k] {
      PassUntouched(lines, n, k);
    }
  }

  lemma FirstOffence(lines: seq<Line>, n: nat) returns (i: nat)
    requires n <= Pairs(lines) && exists j :: 0 <= j < n && Offends(lines, j)
    ensures i < n && Offends(lines, i) && forall j :: 0 <= j < i ==> !Offends(lines, j)
  {
    hide Offends;
    i := 0;
    while !Offends(lines, i)
      invariant i < n && forall j :: 0 <= j < i ==> !Offends(lines, j)
      decreases n - i
    {
      i := i + 1;
    }
  }

  /** A first offence lengthens a context line, for good. */
  lemma OffenceShows(lines: seq<Line>, i: nat)
    requires i < Pairs(lines) && Offends(lines, i) && forall j :: 0 <= j < i ==> !Offends(lines, j)
    ensures !SameSource(lines, Stripped(lines))
  {
    hide Positions;
    var s, d := SrcAt(lines)[i], DstAt(lines)[i];
    PassMends(lines, i);
    MendingKeepsSource(lines, i, Pass(lines, i));
    assert Untouched(lines, i, d);
    assert Pass(lines, i + 1)[d].text == lines[d].text + [lines[s].text[|lines[s].text| - 1]];
    PassSettles(lines, i, Pairs(lines));
    assert |Stripped(lines)[d].text| != |lines[d].text|;
  }

  /** The pass leaves the source side of a chunk alone exactly when no context
      line trails, by one blank, the source line that it is paired with. */
  lemma SourceKeptIff(lines: seq<Line>)
    ensures SameSource(lines, Stripped(lines)) <==> forall i :: 0 <= i < Pairs(lines) ==> !Offends(lines, i)
  {
    hide SameSource, Offends, Pass;
    if forall i :: 0 <= i < Pairs(lines) ==> !Offends(lines, i) {
      PassMends(lines, Pairs(lines));
      MendingKeepsSource(lines, Pairs(lines), Stripped(lines));
    } else {
      var i := FirstOffence(lines, Pairs(lines));
      OffenceShows(lines, i);
    }
  }

  /** One removed and one added line: a space or a tab that was removed at the end
      comes back, any other character does not. */
  lemma OneBlankIsRestored(text: string, b: char)
    ensures Stripped([Line(Src, text + [b]), Line(Dst, text)]) ==
            [Line(Src, text + [b]), Line(Dst, if b == ' ' || b == '\t' then text + [b] else text)]
  {
    hide Positions;
    var s := text + [b];
    var lines := [Line(Src, s), Line(Dst, text)];
    ViewsOfTwo(lines);
    assert s[..|s| - 1] == text && s[|s| - 1] == b;
    assert Pass(lines, 0) == lines;
    assert Trails(s, text) <==> b == ' ' || b == '\t';
  }

  /** Every context line has the same index in src() and dst(). */
  ghost predicate Aligned(lines: seq<Line>) {
    forall i, j :: 0 <= i < |SrcAt(lines)| && 0 <= j < |DstAt(lines)| && SrcAt(lines)[i] == DstAt(lines)[j] ==> i == j
  }

  /** The kinds and the source side are the same, and every line that differs is a
      destination line that has become equal to the source line it is paired with. */
  ghost predicate ChunkMended(lines: seq<Line>, r: seq<Line>) {
    && SameKinds(lines, r) && SameSource(lines, r)
    && forall k :: 0 <= k < |lines| && r[k] != lines[k] ==> MatchesPartner(lines, r, k)
  }

  ghost predicate MatchesPartner(lines: seq<Line>, r: seq<Line>, k: nat)
    requires |r| == |lines| && k < |r|
  {
    exists i :: 0 <= i < Pairs(lines) && DstAt(lines)[i] == k && r[k].text == r[SrcAt(lines)[i]].text
  }

  /** In an aligned chunk the pass changes no source line and no kind, and each
      destination line it changes becomes the source line it is paired with. */
  lemma AlignedChunkIsMended(lines: seq<Line>)
    requires Aligned(lines)
    ensures ChunkMended(lines, Stripped(lines))
  {
    hide Positions, Pass;
    forall i | 0 <= i < Pairs(lines) ensures !Offends(lines, i) {
      var d := DstAt(lines)[i];
      if lines[d].kind == Both {
        PositionsComplete(lines, IsSrc, d);
        var j :| 0 <= j < |SrcAt(lines)| && SrcAt(lines)[j] == d;
        assert j == i;
      }
    }
    PassMends(lines, Pairs(lines));
    MendingKeepsSource(lines, Pairs(lines), Stripped(lines));
    forall k | 0 <= k < |lines| && Stripped(lines)[k] != lines[k]
      ensures MatchesPartner(lines, Stripped(lines), k)
    {
      assert !Untouched(lines, Pairs(lines), k);
      var i :| 0 <= i < Pairs(lines) && DstAt(lines)[i] == k;
      assert Stripped(lines)[k] == Mended(lines, i);
    }
  }

  // ---------- Reading back after the pass ----------

  /** Pair i turns an added line "++" into "++ ", which is written as a file header. */
  ghost predicate MakesHeader(lines: seq<Line>, i: nat)
    requires i < Pairs(lines)
  {
    var d := lines[DstAt(lines)[i]];
    d.kind == Dst && d.text == "++" && SourceText(lines, i) == "++ "
  }

  lemma {:induction false} SourceTextIsClean(c: Chunk, i: nat)
    requires CleanChunk(c) && i < Pairs(c.lines)
    ensures CleanText(SourceText(c.lines, i))
  {
    hide Positions, Trails;
    var lines := c.lines;
    var s := SrcAt(lines)[i];
    assert CleanLine(lines[s]);
    if exists j :: 0 <= j < i && DstAt(lines)[j] == s {
      var j :| 0 <= j < i && DstAt(lines)[j] == s && SourceText(lines, i) == MendedText(lines, j);
      SourceTextIsClean(c, j);
    }
  }

  lemma PairIsCleanIff(c: Chunk, i: nat)
    requires CleanChunk(c) && i < Pairs(c.lines)
    ensures CleanLine(Stripped(c.lines)[DstAt(c.lines)[i]]) <==> !MakesHeader(c.lines, i)
  {
    hide Positions, Pass, SourceText;
    var lines := c.lines;
    var s, d := SourceText(lines, i), lines[DstAt(lines)[i]];
    StrippedLines(lines, DstAt(lines)[i]);
    SourceTextIsClean(c, i);
    assert CleanLine(d);
    if Trails(s, d.text) { BlankMakesPrefix(s, d.text); } else { NotTrailing(s); }
  }

  lemma NotTrailing(s: string)
    ensures s == "++ " ==> Trails(s, "++")
  {
    if s == "++ " { assert s[..2] == "++"; }
  }

  /** A chunk that reads back still does so after the pass exactly when no pair
      turns an added line into a file header. */
  lemma StrippedReadsBackIff(c: Chunk)
    requires CleanChunk(c)
    ensures CleanChunk(StripValue(c)) <==> forall i :: 0 <= i < Pairs(c.lines) ==> !MakesHeader(c.lines, i)
  {
    hide Positions, Pass, MakesHeader, CleanLine, MendedText;
    var lines := c.lines;
    var r := Stripped(lines);
    forall i | 0 <= i < Pairs(lines) ensures CleanLine(r[DstAt(lines)[i]]) <==> !MakesHeader(lines, i) {
      PairIsCleanIff(c, i);
    }
    if forall i :: 0 <= i < Pairs(lines) ==> !MakesHeader(lines, i) {
      forall k | 0 <= k < |r| ensures CleanLine(r[k]) {
        StrippedLines(lines, k);
      }
    }
  }

  /** An added line "++" is paired with "++ ". */
  ghost predicate HeaderPair(lines: seq<Line>, i: nat)
    requires i < Pairs(lines)
  {
    var s, d := lines[SrcAt(lines)[i]], lines[DstAt(lines)[i]];
    d.kind == Dst && d.text == "++" && s.text == "++ "
  }

  /** If the pass rewrites no context line, only the pairs as they stand matter. */
  lemma PlainPairsReadBackIff(c: Chunk)
    requires CleanChunk(c) && forall i :: 0 <= i < Pairs(c.lines) ==> !Offends(c.lines, i)
    ensures CleanChunk(StripValue(c)) <==> forall i :: 0 <= i < Pairs(c.lines) ==> !HeaderPair(c.lines, i)
  {
    hide Positions, Pass, SourceText, CleanChunk, Offends;
    var lines := c.lines;
    StrippedReadsBackIff(c);
    forall i | 0 <= i < Pairs(lines) ensures MakesHeader(lines, i) <==> HeaderPair(lines, i) {
      PlainText(lines, i);
    }
  }

  /** A chunk whose added line becomes a file header. */
  lemma PairMakesHeader()
    ensures var c := Chunk(1, 1, [Line(Src, "++ "), Line(Dst, "++")]);
            CleanChunk(c) && !CleanChunk(StripValue(c))
  {
    hide Positions, SrcAt, DstAt, Pairs, Stripped, CleanLine, SourceText;
    var c := Chunk(1, 1, [Line(Src, "++ "), Line(Dst, "++")]);
    ViewsOfTwo(c.lines);
    PlusesAreClean();
    FirstText(c.lines);
    assert MakesHeader(c.lines, 0);
    StrippedReadsBackIff(c);
  }

  /** A chunk whose added line becomes a file header only because the context line
      it is paired with has been lengthened first. */
  lemma ChainMakesHeader()
    ensures var c := Chunk(1, 1, [Line(Src, "++ "), Line(Both, "++"), Line(Dst, "++")]);
            && CleanChunk(c) && !CleanChunk(StripValue(c))
            && forall i :: 0 <= i < Pairs(c.lines) ==> !HeaderPair(c.lines, i)
  {
    hide Positions, SrcAt, DstAt, Pairs, Stripped, CleanLine, SourceText, Trails;
    var c := Chunk(1, 1, [Line(Src, "++ "), Line(Both, "++"), Line(Dst, "++")]);
    ViewsOfThree(c.lines);
    PlusesAreClean();
    FirstText(c.lines);
    SecondText(c.lines);
    NotTrailing("++ ");
    assert MakesHeader(c.lines, 1);
    StrippedReadsBackIff(c);
  }

  lemma PlusesAreClean()
    ensures CleanLine(Line(Src, "++ ")) && CleanLine(Line(Both, "++")) && CleanLine(Line(Dst, "++"))
  {
    assert "++ "[0] != "-- "[0];
  }

  /** The first pair finds its source line as it was; the second finds what the
      first has left, if that was on the same context line. */
  lemma FirstText(lines: seq<Line>)
    requires Pairs(lines) > 0
    ensures SourceText(lines, 0) == lines[SrcAt(lines)[0]].text
  {
  }

  lemma SecondText(lines: seq<Line>)
    requires Pairs(lines) > 1 && DstAt(lines)[0] == SrcAt(lines)[1]
    ensures SourceText(lines, 1) == MendedText(lines, 0)
  {
    hide Positions, Trails;
  }

  lemma BlankMakesPrefix(s: string, d: string)
    requires Trails(s, d)
    ensures "++ " <= s <==> "++ " <= d || (d == "++" && s == "++ ")
  {
    assert s == d + [s[|s| - 1]];
    if "++ " <= s && !("++ " <= d) {
      assert |d| <= 2;
      assert s == "++ " && d == s[..2];
    }
  }

  /** An unaligned chunk in which the pass rewrites a context line. */
  lemma UnalignedContextIsRewritten()
    ensures var lines := [Line(Src, "x "), Line(Both, "x")];
            !SameSource(lines, Stripped(lines)) && Stripped(lines)[1].text == "x "
  {
    hide Positions;
    var lines := [Line(Src, "x "), Line(Both, "x")];
    ViewsOfTwo(lines);
    assert Trails("x ", "x");
    assert Pass(lines, 1) == Pass(lines, 0)[1 := Line(Both, "x" + [' '])];
    assert Pass(lines, 1)[1].text == "x ";
  }

  /** One line more: it goes to the end of the views it belongs to. */
  lemma ViewsGrow(lines: seq<Line>, l: Line)
    ensures SrcAt(lines + [l]) == SrcAt(lines) + if l.kind != Dst then [|lines|] else []
    ensures DstAt(lines + [l]) == DstAt(lines) + if l.kind != Src then [|lines|] else []
  {
    assert (lines + [l])[..|lines|] == lines;
  }

  lemma ViewsOfOne(lines: seq<Line>)
    requires |lines| == 1 && lines[0].kind == Src
    ensures SrcAt(lines) == [0] && DstAt(lines) == [] && Pairs(lines) == 0
  {
    hide Positions;
    NoViews();
    ViewsGrow([], lines[0]);
    assert [] + [lines[0]] == lines;
  }

  lemma NoViews()
    ensures SrcAt([]) == [] && DstAt([]) == []
  {
  }

  lemma ViewsOfTwo(lines: seq<Line>)
    requires |lines| == 2 && lines[0].kind == Src && lines[1].kind != Src
    ensures SrcAt(lines) == (if lines[1].kind == Both then [0, 1] else [0]) && DstAt(lines) == [1] && Pairs(lines) == 1
  {
    hide Positions;
    ViewsOfOne(lines[..1]);
    ViewsGrow(lines[..1], lines[1]);
    assert lines[..1] + [lines[1]] == lines;
  }

  lemma ViewsOfThree(lines: seq<Line>)
    requires |lines| == 3 && lines[0].kind == Src && lines[1].kind == Both && lines[2].kind == Dst
    ensures SrcAt(lines) == [0, 1] && DstAt(lines) == [1, 2] && Pairs(lines) == 2
  {
    hide Positions;
    ViewsOfTwo(lines[..2]);
    ViewsGrow(lines[..2], lines[2]);
    assert lines[..2] + [lines[2]] == lines;
  }

  // ---------- The pass on the objects ----------

  /** PatchChunk.src(): the line objects that are source lines. */
  method SourceOf(c: PatchChunk, ghost v: seq<Line>) returns (src: seq<PatchChunkLine>)
    requires ShowsLines(c.lines, v)
    ensures |src| == |SrcAt(v)|
    ensures forall i :: 0 <= i < |src| ==> SrcAt(v)[i] < |c.lines| && src[i] == c.lines[SrcAt(v)[i]]
  {
    src := [];
    for n := 0 to |c.lines|
      invariant |src| == |SrcAt(v[..n])| && forall i :: 0 <= i < |src| ==> src[i] == c.lines[SrcAt(v[..n])[i]]
    {
      assert v[..n + 1][..n] == v[..n];
      if c.lines[n].kind != Dst { src := src + [c.lines[n]]; }
    }
    assert v[..|c.lines|] == v;
  }

  /** PatchChunk.dst(): the line objects that are destination lines. */
  method DestinationOf(c: PatchChunk, ghost v: seq<Line>) returns (dst: seq<PatchChunkLine>)
    requires ShowsLines(c.lines, v)
    ensures |dst| == |DstAt(v)|
    ensures forall i :: 0 <= i < |dst| ==> DstAt(v)[i] < |c.lines| && dst[i] == c.lines[DstAt(v)[i]]
  {
    dst := [];
    for n := 0 to |c.lines|
      invariant |dst| == |DstAt(v[..n])| && forall i :: 0 <= i < |dst| ==> dst[i] == c.lines[DstAt(v[..n])[i]]
    {
      assert v[..n + 1][..n] == v[..n];
      if c.lines[n].kind != Src { dst := dst + [c.lines[n]]; }
    }
    assert v[..|c.lines|] == v;
  }

  /** Lines 418-427 for one chunk. The result says whether the loop ran to its
      end; otherwise a source line had no destination line at its index. */
  method StripChunk(c: PatchChunk, ghost v: seq<Line>) returns (completed: bool)
    requires ShowsLines(c.lines, v) && DistinctLines(c)
    modifies c.lines
    ensures ShowsLines(c.lines, Stripped(v))
    ensures completed <==> |SrcAt(v)| <= |DstAt(v)|
  {
    hide Positions, SrcAt, DstAt, Pass, ShowsLines;
    var src := SourceOf(c, v);
    var dst := DestinationOf(c, v);
    PassNone(v);
    for i := 0 to |src|
      invariant i <= Pairs(v) && ShowsLines(c.lines, Pass(v, i))
    {
      if i >= |dst| { return false; }
      StripPair(c, v, i, src[i], dst[i]);
    }
    completed := true;
  }

  lemma PassNone(v: seq<Line>)
    ensures Pass(v, 0) == v
  {
  }

  /** Lines 422-426: one pair of the two views. */
  method StripPair(c: PatchChunk, ghost v: seq<Line>, ghost i: nat, s: PatchChunkLine, d: PatchChunkLine)
    requires i < Pairs(v) && ShowsLines(c.lines, Pass(v, i)) && DistinctLines(c)
    requires SrcAt(v)[i] < |c.lines| && s == c.lines[SrcAt(v)[i]]
    requires DstAt(v)[i] < |c.lines| && d == c.lines[DstAt(v)[i]]
    modifies d`text
    ensures ShowsLines(c.lines, Pass(v, i + 1))
  {
    hide Positions, SrcAt, DstAt;
    if s.text != "" && Blank(s.text[|s.text| - 1]) && s.text[..|s.text| - 1] == d.text {
      d.AppendToLine([s.text[|s.text| - 1]]);
    }
  }

  ghost function StripValue(v: Chunk): Chunk { v.(lines := Stripped(v.lines)) }

  /** The pass over a chunk disturbs no other chunk. */
  method StripOne(c: PatchChunk, ghost view: Showing) returns (completed: bool)
    requires ChunksShow(view) && c in view
    modifies c.lines
    ensures ChunksShow(view[c := StripValue(view[c])])
    ensures completed <==> Complete(view[c])
  {
    hide Positions, SrcAt, DstAt, Pass;
    assert ShowsChunk(c, view[c]) && DistinctLines(c);
    completed := StripChunk(c, view[c].lines);
    ghost var view' := view[c := StripValue(view[c])];
    forall d | d in view' ensures ShowsChunk(d, view'[d]) && DistinctLines(d) {
      assert old(ShowsChunk(d, view[d]) && DistinctLines(d));
      if d != c {
        forall k | 0 <= k < |d.lines|
          ensures d.lines[k].kind == view[d].lines[k].kind && d.lines[k].text == view[d].lines[k].text
        {
          assert d.lines[k] in d.lines && d.lines[k] !in c.lines;
        }
      }
    }
  }

  /** Every source line of the chunk has a destination line at its index. */
  ghost predicate Complete(v: Chunk) { |SrcAt(v.lines)| <= |DstAt(v.lines)| }

  predicate Earlier(a: nat, b: nat, i: nat, j: nat) { a < i || (a == i && b < j) }

  /** The patches once the chunks before chunk j of patch i have been treated. */
  ghost function StripUpTo(vs: seq<Patch>, i: nat, j: nat): (r: seq<Patch>)
    ensures |r| == |vs|
    ensures forall a :: 0 <= a < |vs| ==>
              r[a].src == vs[a].src && r[a].dst == vs[a].dst && |r[a].chunks| == |vs[a].chunks|
    ensures forall a, b :: 0 <= a < |vs| && 0 <= b < |vs[a].chunks| ==>
              r[a].chunks[b] == if Earlier(a, b, i, j) then StripValue(vs[a].chunks[b]) else vs[a].chunks[b]
  {
    seq(|vs|, a requires 0 <= a < |vs| =>
      vs[a].(chunks := seq(|vs[a].chunks|, b requires 0 <= b < |vs[a].chunks| =>
        if Earlier(a, b, i, j) then StripValue(vs[a].chunks[b]) else vs[a].chunks[b])))
  }

  ghost predicate CompleteUpTo(vs: seq<Patch>, i: nat, j: nat) {
    forall a, b :: 0 <= a < |vs| && 0 <= b < |vs[a].chunks| && Earlier(a, b, i, j) ==> Complete(vs[a].chunks[b])
  }

  /** The whole pass: every chunk is treated, up to and including the first one
      that is not complete. */
  ghost predicate StripsSet(vs: seq<Patch>, r: seq<Patch>) {
    || (r == StripUpTo(vs, |vs|, 0) && CompleteUpTo(vs, |vs|, 0))
    || (exists i: nat, j: nat :: i < |vs| && j < |vs[i].chunks| && CompleteUpTo(vs, i, j)
          && !Complete(vs[i].chunks[j]) && r == StripUpTo(vs, i, j + 1))
  }

  lemma StripNext(vs: seq<Patch>, i: nat, j: nat)
    requires i < |vs| && j < |vs[i].chunks|
    ensures StripUpTo(vs, i, j + 1) ==
            var cur := StripUpTo(vs, i, j);
            cur[i := cur[i].(chunks := cur[i].chunks[j := StripValue(cur[i].chunks[j])])]
  {
    hide StripValue;
    var cur, next := StripUpTo(vs, i, j), StripUpTo(vs, i, j + 1);
    var cur' := cur[i := cur[i].(chunks := cur[i].chunks[j := StripValue(cur[i].chunks[j])])];
    forall a | 0 <= a < |vs| ensures next[a] == cur'[a] {
      forall b | 0 <= b < |vs[a].chunks| ensures next[a].chunks[b] == cur'[a].chunks[b] {
        assert Earlier(a, b, i, j + 1) <==> Earlier(a, b, i, j) || (a == i && b == j);
      }
    }
  }

  /** Chunk j of patch i now shows the stripped value; the patches show it too. */
  lemma OneChunkStripped(ps: seq<PatchObject>, vs: seq<Patch>, view: Showing, i: nat, j: nat)
    requires PatchesShow(ps, vs, view) && i < |ps| && j < |ps[i].chunks|
    ensures i < |vs| && j < |vs[i].chunks| && ps[i].chunks[j] in view && view[ps[i].chunks[j]] == vs[i].chunks[j]
    ensures PatchesShow(ps, vs[i := vs[i].(chunks := vs[i].chunks[j := StripValue(vs[i].chunks[j])])],
                        view[ps[i].chunks[j] := StripValue(vs[i].chunks[j])])
  {
    hide StripValue;
    var c := ps[i].chunks[j];
    assert PatchShows(ps[i], vs[i], view);
    var vs' := vs[i := vs[i].(chunks := vs[i].chunks[j := StripValue(vs[i].chunks[j])])];
    var view' := view[c := StripValue(vs[i].chunks[j])];
    forall h | 0 <= h < |ps| ensures PatchShows(ps[h], vs'[h], view') {
      assert PatchShows(ps[h], vs[h], view);
      if h != i { assert c !in ps[h].chunks; }
    }
  }

  lemma CompleteNext(vs: seq<Patch>, i: nat, j: nat)
    requires i < |vs| && j < |vs[i].chunks| && CompleteUpTo(vs, i, j) && Complete(vs[i].chunks[j])
    ensures CompleteUpTo(vs, i, j + 1)
  {
  }

  lemma NextPatch(vs: seq<Patch>, i: nat)
    requires i < |vs| && CompleteUpTo(vs, i, |vs[i].chunks|)
    ensures CompleteUpTo(vs, i + 1, 0) && StripUpTo(vs, i + 1, 0) == StripUpTo(vs, i, |vs[i].chunks|)
  {
    hide StripValue, Complete;
    var a, b := StripUpTo(vs, i + 1, 0), StripUpTo(vs, i, |vs[i].chunks|);
    forall h | 0 <= h < |vs| ensures a[h] == b[h] {
      assert forall k :: 0 <= k < |vs[h].chunks| ==> a[h].chunks[k] == b[h].chunks[k];
    }
  }

  lemma NothingStripped(vs: seq<Patch>)
    ensures StripUpTo(vs, 0, 0) == vs && CompleteUpTo(vs, 0, 0)
  {
    hide StripValue;
    forall h | 0 <= h < |vs| ensures StripUpTo(vs, 0, 0)[h] == vs[h] {
      assert forall k :: 0 <= k < |vs[h].chunks| ==> StripUpTo(vs, 0, 0)[h].chunks[k] == vs[h].chunks[k];
    }
  }

  lemma ShownSizes(ps: seq<PatchObject>, vs: seq<Patch>, view: Showing)
    requires PatchesShow(ps, vs, view)
    ensures |ps| == |vs| && forall i :: 0 <= i < |ps| ==> |ps[i].chunks| == |vs[i].chunks|
  {
    assert forall i :: 0 <= i < |ps| ==> PatchShows(ps[i], vs[i], view);
  }

  /** Lines 416-429: the loops over the patches and their chunks. */
  method StripPatchset(ps: seq<PatchObject>, ghost vs: seq<Patch>, ghost view0: Showing)
    returns (ghost r: seq<Patch>, ghost view: Showing)
    requires Shows(ps, vs, view0)
    modifies LinesOf(view0.Keys)
    ensures StripsSet(vs, r) && Shows(ps, r, view)
  {
    hide PatchesShow, ChunksShow, StripUpTo, Complete, CompleteUpTo, StripValue;
    view, r := view0, vs;
    NothingStripped(vs);
    ShownSizes(ps, vs, view);
    for i := 0 to |ps|
      invariant |ps| == |vs| && view.Keys == view0.Keys && LinesOf(view.Keys) == old(LinesOf(view0.Keys))
      invariant r == StripUpTo(vs, i, 0) && CompleteUpTo(vs, i, 0)
      invariant PatchesShow(ps, r, view) && ChunksShow(view)
    {
      ShownSizes(ps, r, view);
      for j := 0 to |ps[i].chunks|
        invariant |ps[i].chunks| == |vs[i].chunks| && view.Keys == view0.Keys
        invariant LinesOf(view.Keys) == old(LinesOf(view0.Keys))
        invariant r == StripUpTo(vs, i, j) && CompleteUpTo(vs, i, j)
        invariant PatchesShow(ps, r, view) && ChunksShow(view)
      {
        var chunk := ps[i].chunks[j];
        OneChunkStripped(ps, r, view, i, j);
        assert forall l :: l in chunk.lines ==> l in LinesOf(view.Keys);
        var completed := StripOne(chunk, view);
        view := view[chunk := StripValue(view[chunk])];
        StripNext(vs, i, j);
        r := StripUpTo(vs, i, j + 1);
        if !completed { return; }
        CompleteNext(vs, i, j);
      }
      NextPatch(vs, i);
    }
  }

  ghost predicate SetMended(vs: seq<Patch>, r: seq<Patch>) {
    && |r| == |vs|
    && forall a :: 0 <= a < |vs| ==> PatchMended(vs[a], r[a])
  }

  ghost predicate PatchMended(v: Patch, r: Patch) {
    && r.src == v.src && r.dst == v.dst && |r.chunks| == |v.chunks|
    && forall b :: 0 <= b < |v.chunks| ==>
         && r.chunks[b].srcPos == v.chunks[b].srcPos && r.chunks[b].dstPos == v.chunks[b].dstPos
         && ChunkMended(v.chunks[b].lines, r.chunks[b].lines)
  }

  /** The whole patch set: if context lines have the same index in both views of
      every chunk, names, positions, kinds and the source side stay as they are
      and every line that changes becomes its source line. */
  lemma AlignedSetIsMended(vs: seq<Patch>, r: seq<Patch>)
    requires StripsSet(vs, r)
    requires forall a, b :: 0 <= a < |vs| && 0 <= b < |vs[a].chunks| ==> Aligned(vs[a].chunks[b].lines)
    ensures SetMended(vs, r)
  {
    hide Aligned, ChunkMended, Stripped, Earlier, Complete;
    forall a | 0 <= a < |vs| ensures PatchMended(vs[a], r[a]) {
      forall b | 0 <= b < |vs[a].chunks| ensures ChunkMended(vs[a].chunks[b].lines, r[a].chunks[b].lines) {
        AlignedChunkIsMended(vs[a].chunks[b].lines);
        UnchangedIsMended(vs[a].chunks[b].lines);
      }
    }
  }

  lemma UnchangedIsMended(lines: seq<Line>)
    ensures ChunkMended(lines, lines)
  {
  }

  /** Which chunks are treated: those before which every chunk is complete. */
  lemma TreatedChunk(vs: seq<Patch>, r: seq<Patch>, a: nat, b: nat)
    requires StripsSet(vs, r) && a < |vs| && b < |vs[a].chunks|
    ensures |r| == |vs| && r[a].src == vs[a].src && r[a].dst == vs[a].dst && |r[a].chunks| == |vs[a].chunks|
    ensures r[a].chunks[b] == if CompleteUpTo(vs, a, b) then StripValue(vs[a].chunks[b]) else vs[a].chunks[b]
  {
    hide StripValue, Complete;
    if !(r == StripUpTo(vs, |vs|, 0) && CompleteUpTo(vs, |vs|, 0)) {
      var i: nat, j: nat :| i < |vs| && j < |vs[i].chunks| && CompleteUpTo(vs, i, j)
        && !Complete(vs[i].chunks[j]) && r == StripUpTo(vs, i, j + 1);
      assert Earlier(a, b, i, j + 1) || Earlier(i, j, a, b);
    }
  }

  /** A chunk with a removed line and no added one ends the pass: the blank that the
      next chunk removes is not restored, although it would be if that came first. */
  lemma IncompleteChunkEndsThePass(r: seq<Patch>, r': seq<Patch>)
    requires var short, blank := Chunk(1, 1, [Line(Src, "x")]), Chunk(5, 4, [Line(Src, "y "), Line(Dst, "y")]);
      StripsSet([Patch("a", "b", [short, blank])], r) && StripsSet([Patch("a", "b", [blank, short])], r')
    ensures r[0].chunks[1].lines[1].text == "y" && r'[0].chunks[0].lines[1].text == "y "
  {
    hide StripsSet, Positions, Pass;
    var short, blank := Chunk(1, 1, [Line(Src, "x")]), Chunk(5, 4, [Line(Src, "y "), Line(Dst, "y")]);
    var vs, vs' := [Patch("a", "b", [short, blank])], [Patch("a", "b", [blank, short])];
    ViewsOfOne(short.lines);
    assert Earlier(0, 0, 0, 1) && !Complete(vs[0].chunks[0]);
    TreatedChunk(vs, r, 0, 1);
    TreatedChunk(vs', r', 0, 0);
    assert "y" + [' '] == "y ";
    OneBlankIsRestored("y", ' ');
  }

  /** If chunk b of patch a is treated, none of its pairs makes a file header. */
  ghost predicate MakesNoHeader(vs: seq<Patch>, a: nat, b: nat)
    requires a < |vs| && b < |vs[a].chunks|
  {
    var lines := vs[a].chunks[b].lines;
    CompleteUpTo(vs, a, b) ==> forall i :: 0 <= i < Pairs(lines) ==> !MakesHeader(lines, i)
  }

  lemma TreatedIsCleanIff(vs: seq<Patch>, r: seq<Patch>)
    requires Clean(vs) && StripsSet(vs, r) && |r| == |vs|
    ensures Clean(r) <==> forall a, b :: 0 <= a < |vs| && 0 <= b < |vs[a].chunks| ==> MakesNoHeader(vs, a, b)
  {
    hide CleanChunk, StripsSet, MakesNoHeader;
    StrippedShape(vs, r);
    forall a, b | 0 <= a < |vs| && 0 <= b < |vs[a].chunks|
      ensures CleanChunk(r[a].chunks[b]) <==> MakesNoHeader(vs, a, b)
    {
      assert CleanPatch(vs[a]);
      TreatedChunkIsCleanIff(vs, r, a, b);
    }
    forall a | 0 <= a < |vs|
      ensures CleanPatch(r[a]) <==> forall b :: 0 <= b < |vs[a].chunks| ==> MakesNoHeader(vs, a, b)
    {
      assert CleanPatch(vs[a]);
    }
  }

  lemma StrippedShape(vs: seq<Patch>, r: seq<Patch>)
    requires StripsSet(vs, r)
    ensures |r| == |vs|
    ensures forall a :: 0 <= a < |vs| ==>
              r[a].src == vs[a].src && r[a].dst == vs[a].dst && |r[a].chunks| == |vs[a].chunks|
  {
  }

  lemma TreatedChunkIsCleanIff(vs: seq<Patch>, r: seq<Patch>, a: nat, b: nat)
    requires StripsSet(vs, r) && |r| == |vs| && a < |vs| && b < |vs[a].chunks| && b < |r[a].chunks|
    requires CleanChunk(vs[a].chunks[b])
    ensures CleanChunk(r[a].chunks[b]) <==> MakesNoHeader(vs, a, b)
  {
    hide CleanChunk, StripsSet, MakesHeader, StripValue, CompleteUpTo, Pairs;
    TreatedChunk(vs, r, a, b);
    StrippedReadsBackIff(vs[a].chunks[b]);
  }

  /** What the pass makes of a parsed patch set, written and parsed again, is the
      same patch set exactly when no treated chunk makes a file header. */
  lemma SetReadsBackIff(vs: seq<Patch>, r: seq<Patch>)
    requires Clean(vs) && StripsSet(vs, r)
    ensures (var p := ParseText(Join(WriteSet(r))); p.Ok? && p.state.patches == r) <==>
            forall a, b :: 0 <= a < |vs| && 0 <= b < |vs[a].chunks| ==> MakesNoHeader(vs, a, b)
  {
    hide Clean, StripsSet, MakesNoHeader, ParseText, WriteSet;
    StrippedShape(vs, r);
    RoundTripIff(r);
    TreatedIsCleanIff(vs, r);
  }

  /** remove_trailing_whitespace_changes: parse, then strip; a parse error goes through. */
  method RemoveTrailingWhitespaceChanges(lines: seq<string>) returns (out: ParseOutcome)
    ensures match ReadLines(START, lines)
            case Ok(st) => out.Patchset? && exists r :: StripsSet(st.patches, r) && Depict(out.patches, r)
            case Raised(f) => out == Exception(f)
  {
    hide Shows, StripsSet, ReadLines, Depict;
    ghost var r, view;
    out, view := ParsePatchset(lines);
    if out.Patchset? {
      r, view := StripPatchset(out.patches, ReadLines(START, lines).state.patches, view);
      ShowsDepicts(out.patches, r, view);
    }
  }
}
