/** The objects of utils/check-style.py: PatchChunkLine, PatchChunk and Patch, as
    parse_patchset builds them and remove_trailing_whitespace_changes alters them. */
module PatchObjects {
  import opened PatchText

  class PatchChunkLine {
    var kind: Kind
    var text: string

    constructor (kind: Kind, text: string)
      ensures this.kind == kind && this.text == text
    {
      this.kind, this.text := kind, text;
    }

    method AppendToLine(s: string)
      modifies this`text
      ensures text == old(text) + s
    {
      text := text + s;
    }
  }

  class PatchChunk {
    const srcPos: nat
    const dstPos: nat
    var lines: seq<PatchChunkLine>

    constructor (srcPos: nat, dstPos: nat)
      ensures this.srcPos == srcPos && this.dstPos == dstPos && lines == []
    {
      this.srcPos, this.dstPos, lines := srcPos, dstPos, [];
    }
  }

  class PatchObject {
    var src: string
    var dst: string
    var chunks: seq<PatchChunk>

    constructor (src: string)
      ensures this.src == src && dst == "" && chunks == []
    {
      this.src, dst, chunks := src, "", [];
    }
  }

  // ---------- What the objects show ----------

  ghost predicate ShowsLines(ls: seq<PatchChunkLine>, vs: seq<Line>)
    reads ls
  {
    |ls| == |vs| && forall i :: 0 <= i < |ls| ==> ls[i].kind == vs[i].kind && ls[i].text == vs[i].text
  }

  ghost predicate ShowsChunk(c: PatchChunk, v: Chunk)
    reads c, c.lines
  {
    c.srcPos == v.srcPos && c.dstPos == v.dstPos && ShowsLines(c.lines, v.lines)
  }

  ghost predicate DistinctLines(c: PatchChunk)
    reads c
  {
    forall j, k :: 0 <= j < k < |c.lines| ==> c.lines[j] != c.lines[k]
  }

  /** What each chunk object shows. */
  type Showing = map<PatchChunk, Chunk>

  ghost function LinesOf(cs: set<PatchChunk>): set<PatchChunkLine>
    reads cs
  {
    set c, l | c in cs && l in c.lines :: l
  }

  /** The chunks show what the map says, and no line object is in two places. */
  ghost predicate ChunksShow(view: Showing)
    reads view.Keys, LinesOf(view.Keys)
  {
    && (forall c :: c in view.Keys ==>
          assert forall l :: l in c.lines ==> l in LinesOf(view.Keys);
          ShowsChunk(c, view[c]) && DistinctLines(c))
    && (forall c, d, l :: c in view.Keys && d in view.Keys && l in c.lines && l in d.lines ==> c == d)
  }

  /** The patches show vs, given what their chunks show; no object is in two places. */
  ghost predicate PatchesShow(ps: seq<PatchObject>, vs: seq<Patch>, view: Showing)
    reads ps
  {
    && |ps| == |vs|
    && (forall i :: 0 <= i < |ps| ==> PatchShows(ps[i], vs[i], view))
    && (forall i, j :: 0 <= i < j < |ps| ==> ps[i] != ps[j])
    && (forall i, j, c :: 0 <= i < j < |ps| && c in ps[i].chunks ==> c !in ps[j].chunks)
  }

  ghost predicate PatchShows(p: PatchObject, v: Patch, view: Showing)
    reads p
  {
    && p.src == v.src && p.dst == v.dst && |p.chunks| == |v.chunks|
    && (forall j :: 0 <= j < |p.chunks| ==> p.chunks[j] in view && view[p.chunks[j]] == v.chunks[j])
    && (forall j, k :: 0 <= j < k < |p.chunks| ==> p.chunks[j] != p.chunks[k])
  }

  /** The current chunk is the one the state says. */
  ghost predicate AtChunk(ps: seq<PatchObject>, chunk: PatchChunk?, at: Option<(nat, nat)>)
    reads ps
  {
    match at
    case None => chunk == null
    case Some((i, j)) => i < |ps| && j < |ps[i].chunks| && chunk == ps[i].chunks[j]
  }

  method AddPatch(ps: seq<PatchObject>, chunk: PatchChunk?, src: string, ghost vs: seq<Patch>, ghost at: Option<(nat, nat)>,
                  ghost view: Showing)
    returns (p: PatchObject)
    requires PatchesShow(ps, vs, view) && AtChunk(ps, chunk, at) && ChunksShow(view)
    ensures fresh(p) && ChunksShow(view)
    ensures PatchesShow(ps + [p], vs + [Patch(src, "", [])], view) && AtChunk(ps + [p], chunk, at)
  {
    p := new PatchObject(src);
  }

  method SetDst(ps: seq<PatchObject>, last: PatchObject, chunk: PatchChunk?, dst: string,
                ghost vs: seq<Patch>, ghost at: Option<(nat, nat)>, ghost view: Showing)
    requires PatchesShow(ps, vs, view) && AtChunk(ps, chunk, at) && ChunksShow(view)
    requires ps != [] && last == ps[|ps| - 1]
    modifies last`dst
    ensures ChunksShow(view) && AtChunk(ps, chunk, at)
    ensures PatchesShow(ps, vs[|ps| - 1 := vs[|ps| - 1].(dst := dst)], view)
  {
    last.dst := dst;
  }

  method NewChunk(srcPos: nat, dstPos: nat, ghost view: Showing) returns (c: PatchChunk)
    requires ChunksShow(view)
    ensures fresh(c) && c.lines == [] && ChunksShow(view[c := Chunk(srcPos, dstPos, [])])
  {
    c := new PatchChunk(srcPos, dstPos);
  }

  method AddChunk(ps: seq<PatchObject>, last: PatchObject, c: PatchChunk, ghost v: Chunk,
                  ghost vs: seq<Patch>, ghost view: Showing)
    requires PatchesShow(ps, vs, view) && c !in view && ChunksShow(view[c := v])
    requires ps != [] && last == ps[|ps| - 1]
    modifies last`chunks
    ensures ChunksShow(view[c := v])
    ensures var p := vs[|ps| - 1];
      && PatchesShow(ps, vs[|ps| - 1 := p.(chunks := p.chunks + [v])], view[c := v])
      && AtChunk(ps, c, Some((|ps| - 1, |p.chunks|)))
  {
    forall i | 0 <= i < |ps| ensures c !in ps[i].chunks { assert PatchShows(ps[i], vs[i], view); }
    assert PatchShows(last, vs[|ps| - 1], view);
    last.chunks := last.chunks + [c];
    ghost var vs' := vs[|ps| - 1 := vs[|ps| - 1].(chunks := vs[|ps| - 1].chunks + [v])];
    forall i | 0 <= i < |ps| ensures PatchShows(ps[i], vs'[i], view[c := v]) {
      assert i < |ps| - 1 ==> PatchShows(ps[i], vs[i], view);
    }
  }

  method AddLineTo(chunk: PatchChunk, kind: Kind, text: string, ghost view: Showing)
    requires ChunksShow(view) && chunk in view
    modifies chunk`lines
    ensures |chunk.lines| == |old(chunk.lines)| + 1 && fresh(chunk.lines[|chunk.lines| - 1])
    ensures chunk.lines == old(chunk.lines) + [chunk.lines[|chunk.lines| - 1]]
    ensures ChunksShow(view[chunk := view[chunk].(lines := view[chunk].lines + [Line(kind, text)])])
  {
    var l := new PatchChunkLine(kind, text);
    chunk.lines := chunk.lines + [l];
  }

  /** The objects show the patches vs, each object in one place only. */
  ghost predicate Shows(ps: seq<PatchObject>, vs: seq<Patch>, view: Showing)
    reads ps, view.Keys, LinesOf(view.Keys)
  {
    PatchesShow(ps, vs, view) && ChunksShow(view)
  }

  ghost function ChunksOf(ps: seq<PatchObject>): set<PatchChunk>
    reads ps
  {
    set p, c | p in ps && c in p.chunks :: c
  }

  /** The objects, read field by field, are the patch set. */
  ghost predicate Depict(ps: seq<PatchObject>, vs: seq<Patch>)
    reads ps, ChunksOf(ps), LinesOf(ChunksOf(ps))
  {
    |ps| == |vs| && forall i :: 0 <= i < |ps| ==> DepictsPatch(ps, i, vs[i])
  }

  ghost predicate DepictsPatch(ps: seq<PatchObject>, i: nat, v: Patch)
    requires i < |ps|
    reads ps, ChunksOf(ps), LinesOf(ChunksOf(ps))
  {
    && ps[i].src == v.src && ps[i].dst == v.dst && |ps[i].chunks| == |v.chunks|
    && forall j :: 0 <= j < |ps[i].chunks| ==>
         assert ps[i] in ps && ps[i].chunks[j] in ps[i].chunks && ps[i].chunks[j] in ChunksOf(ps);
         assert forall l :: l in ps[i].chunks[j].lines ==> l in LinesOf(ChunksOf(ps));
         ShowsChunk(ps[i].chunks[j], v.chunks[j])
  }

  lemma ShowsDepicts(ps: seq<PatchObject>, vs: seq<Patch>, view: Showing)
    requires Shows(ps, vs, view)
    ensures Depict(ps, vs)
  {
    hide ShowsChunk, DistinctLines;
    forall i | 0 <= i < |ps| ensures DepictsPatch(ps, i, vs[i]) {
      assert PatchShows(ps[i], vs[i], view);
    }
  }

  datatype ParseOutcome = Patchset(patches: seq<PatchObject>) | Exception(failure: Failure)

  lemma StartIsValid()
    ensures Valid(START)
  {
  }

  lemma ReadOneMore(lines: seq<string>, n: nat, st: State)
    requires n < |lines| && Valid(st) && ReadLines(START, lines[..n]) == Ok(st)
    ensures ReadLines(START, lines[..n + 1]) == ReadLine(st, lines[n])
    ensures ReadLine(st, lines[n]).Raised? ==> ReadLines(START, lines) == ReadLine(st, lines[n])
  {
    hide ReadLine, ReadLines, Valid;
    StartIsValid();
    assert lines[..n + 1] == lines[..n] + [lines[n]];
    ReadSnoc(START, lines[..n], lines[n]);
    assert lines == lines[..n + 1] + lines[n + 1..];
    ReadAppend(START, lines[..n + 1], lines[n + 1..]);
  }

  /** A patch-level view is not disturbed by a change to one chunk. */
  lemma OneChunkChanged(ps: seq<PatchObject>, chunk: PatchChunk, st: State, view: Showing, l: Line)
    requires Valid(st) && st.chunk.Some? && PatchesShow(ps, st.patches, view) && AtChunk(ps, chunk, st.chunk)
    ensures chunk in view && AddLine(st, l).Ok? && AtChunk(ps, chunk, AddLine(st, l).state.chunk)
    ensures PatchesShow(ps, AddLine(st, l).state.patches,
                        view[chunk := view[chunk].(lines := view[chunk].lines + [l])])
  {
    var (i, j) := st.chunk.value;
    assert PatchShows(ps[i], st.patches[i], view);
    var view' := view[chunk := view[chunk].(lines := view[chunk].lines + [l])];
    var vs' := AddLine(st, l).state.patches;
    forall h | 0 <= h < |ps| ensures PatchShows(ps[h], vs'[h], view') {
      assert PatchShows(ps[h], st.patches[h], view);
      if h != i { assert chunk !in ps[h].chunks; }
    }
  }

  /** The objects that the parser has allocated show what ReadLines computes. */
  method ParsePatchset(lines: seq<string>) returns (r: ParseOutcome, ghost view: Showing)
    ensures match ReadLines(START, lines)
            case Ok(st) => r.Patchset? && Shows(r.patches, st.patches, view)
            case Raised(f) => r == Exception(f)
    ensures fresh(view.Keys) && forall c, l :: c in view.Keys && l in c.lines ==> fresh(l)
  {
    hide Rest, HeaderOf, PatchesShow, ChunksShow, ReadLines, AtChunk, AddLine;
    var patches: seq<PatchObject> := [];
    var currentChunk: PatchChunk? := null;
    ghost var st := START;
    view := map[];
    NothingParsed(lines);
    for n := 0 to |lines|
      invariant Valid(st) && ReadLines(START, lines[..n]) == Ok(st)
      invariant PatchesShow(patches, st.patches, view) && ChunksShow(view) && AtChunk(patches, currentChunk, st.chunk)
      invariant |patches| == |st.patches| && (currentChunk == null <==> st.chunk.None?)
      invariant fresh(patches) && (currentChunk != null ==> currentChunk in view)
      invariant fresh(view.Keys) && forall c, l :: c in view.Keys && l in c.lines ==> fresh(l)
    {
      var line := lines[n];
      ReadOneMore(lines, n, st);
      ghost var next := ReadLine(st, line);
      if Rest("--- ", line).Some? {
        var p := AddPatch(patches, currentChunk, Rest("--- ", line).value, st.patches, st.chunk, view);
        patches := patches + [p];
      } else if Rest("+++ ", line).Some? {
        if patches == [] { r := Exception(AttributeError); return; }
        SetDst(patches, patches[|patches| - 1], currentChunk, Rest("+++ ", line).value, st.patches, st.chunk, view);
      } else if HeaderOf(line).Some? {
        if patches == [] { r := Exception(AttributeError); return; }
        var (srcPos, dstPos) := HeaderOf(line).value;
        var c := NewChunk(srcPos, dstPos, view);
        AddChunk(patches, patches[|patches| - 1], c, Chunk(srcPos, dstPos, []), st.patches, view);
        currentChunk, view := c, view[c := Chunk(srcPos, dstPos, [])];
      } else {
        var l: Line;
        if Rest("-", line).Some? { l := Line(Src, Rest("-", line).value); }
        else if Rest("+", line).Some? { l := Line(Dst, Rest("+", line).value); }
        else if Rest(" ", line).Some? { l := Line(Both, Rest(" ", line).value); }
        else { r := Exception(NoMatch); return; }
        if currentChunk == null { NowhereToAdd(st, l); r := Exception(UnboundLocalError); return; }
        OneChunkChanged(patches, currentChunk, st, view, l);
        AddLineTo(currentChunk, l.kind, l.text, view);
        view := view[currentChunk := view[currentChunk].(lines := view[currentChunk].lines + [l])];
      }
      st := next.state;
    }
    assert lines[..|lines|] == lines;
    r := Patchset(patches);
  }

  lemma NothingParsed(lines: seq<string>)
    ensures ReadLines(START, lines[..0]) == Ok(START)
    ensures PatchesShow([], [], map[]) && ChunksShow(map[]) && AtChunk([], null, None)
  {
  }
}
