/** The write methods of utils/check-style.py, on the objects. */
module PatchWriter {
  import opened PatchText
  import opened PatchObjects

  /** Lines 263-294: the lengths of the two views of a chunk. */
  method ViewLengths(c: PatchChunk, ghost v: Chunk) returns (src: nat, dst: nat)
    requires ShowsChunk(c, v)
    ensures src == Count(v.lines, IsSrc) && dst == Count(v.lines, IsDst)
  {
    src, dst := 0, 0;
    for i := 0 to |c.lines|
      invariant src == Count(v.lines[..i], IsSrc) && dst == Count(v.lines[..i], IsDst)
    {
      assert v.lines[..i + 1][..i] == v.lines[..i];
      if c.lines[i].kind != Dst { src := src + 1; }
      if c.lines[i].kind != Src { dst := dst + 1; }
    }
    assert v.lines[..|v.lines|] == v.lines;
  }

  /** Lines 295-304. */
  method WriteChunkTo(c: PatchChunk, ghost v: Chunk) returns (out: seq<string>)
    requires ShowsChunk(c, v)
    ensures out == WriteChunk(v)
  {
    hide WriteLine, Count;
    var src, dst := ViewLengths(c, v);
    var header := "@@ -" + Decimal(c.srcPos) + "," + Decimal(src) + " +" + Decimal(c.dstPos) + "," + Decimal(dst) + " @@\n";
    assert header == WriteHeader(v);
    var lines: seq<string> := [];
    for i := 0 to |c.lines|
      invariant |lines| == i && forall k :: 0 <= k < i ==> lines[k] == WriteLine(v.lines[k])
    {
      assert Line(c.lines[i].kind, c.lines[i].text) == v.lines[i];
      lines := lines + [WriteLine(Line(c.lines[i].kind, c.lines[i].text))];
    }
    assert lines == WriteLines(v.lines);
    out := [header] + lines;
  }

  /** Lines 356-365. */
  method WritePatchTo(p: PatchObject, ghost v: Patch, ghost view: Showing) returns (out: seq<string>)
    requires PatchShows(p, v, view) && ChunksShow(view)
    ensures out == WritePatch(v)
  {
    hide WriteChunk, ShowsChunk, DistinctLines;
    var chunks: seq<string> := [];
    for j := 0 to |p.chunks|
      invariant chunks == WriteChunks(v.chunks[..j])
    {
      assert v.chunks[..j + 1][..j] == v.chunks[..j];
      var more := WriteChunkTo(p.chunks[j], v.chunks[j]);
      chunks := chunks + more;
    }
    assert v.chunks[..|v.chunks|] == v.chunks;
    out := ["--- " + p.src + "\n", "+++ " + p.dst + "\n"] + chunks;
  }

  method WritePatchset(ps: seq<PatchObject>, ghost vs: seq<Patch>, ghost view: Showing) returns (out: seq<string>)
    requires Shows(ps, vs, view)
    ensures out == WriteSet(vs)
  {
    hide WritePatch, PatchShows, ShowsChunk, DistinctLines;
    out := [];
    for i := 0 to |ps|
      invariant out == WriteSet(vs[..i])
    {
      assert vs[..i + 1][..i] == vs[..i];
      var more := WritePatchTo(ps[i], vs[i], view);
      out := out + more;
    }
    assert vs[..|vs|] == vs;
  }

  /** Parse a file, write the objects to another and parse that: the new objects
      are the same patch set, for every file that parses at all. */
  method ParseWriteParse(text: string) returns (first: ParseOutcome, second: ParseOutcome)
    ensures match ParseText(text)
            case Ok(st) => first.Patchset? && second.Patchset? && Depict(second.patches, st.patches)
            case Raised(f) => first == Exception(f) == second
  {
    hide ReadLines, Shows, Depict;
    ghost var view;
    first, view := ParsePatchset(SplitLines(text));
    second := first;
    if first.Patchset? {
      ghost var vs := ParseText(text).state.patches;
      var written := WritePatchset(first.patches, vs, view);
      ReparseIsStable(text);
      second, view := ParsePatchset(SplitLines(Join(written)));
      ShowsDepicts(second.patches, vs, view);
    }
  }
}
