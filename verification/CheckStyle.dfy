/** The patch classes and the patch parser of check-style.py. */
module CheckStyle {
  import opened Lists
  import opened PatchText
  import opened PatchForms

  // A file opened for writing: the strings written to it so far.
  class Writer {
    var writes: seq<string>

    constructor ()
      ensures writes == []
    {
      writes := [];
    }

    method Write(s: string)
      modifies this
      ensures writes == old(writes) + [s]
    {
      writes := writes + [s];
    }
  }

  // False stands for the exception raised at a line without a kind.
  method WriteLine(l: Line, f: Writer) returns (ok: bool)
    modifies f
    ensures ok <==> l.kind != Unset
    ensures f.writes == if ok then old(f.writes) + [LineText(l)] else old(f.writes)
  {
    ok := true;
    match l.kind
    case Src => f.Write("-" + l.text + "\n");
    case Dst => f.Write("+" + l.text + "\n");
    case Both => f.Write(" " + l.text + "\n");
    case Unset => ok := false;
  }

  class PatchChunk {
    var lines: seq<Line>
    const srcPos: int
    const dstPos: int

    constructor (srcPos: int, dstPos: int)
      ensures Value() == Chunk([], srcPos, dstPos)
    {
      lines := [];
      this.srcPos, this.dstPos := srcPos, dstPos;
    }

    ghost function Value(): Chunk
      reads this
    {
      Chunk(lines, srcPos, dstPos)
    }

    method AddLine(l: Line)
      modifies this
      ensures Value() == old(Value()).(lines := old(lines) + [l])
    {
      lines := lines + [l];
    }

    // The lines that belong to one side, which is Src or Dst.
    method SideLines(side: Kind) returns (r: seq<Line>)
      ensures r == Side(lines, side) && |r| == |SidePlaces(lines, side)|
      ensures Picks(lines, side, r)
    {
      SidePicks(lines, side);
      hide Picks, SidePlaces;
      r := [];
      for i := 0 to |lines|
        invariant r == Side(lines[..i], side)
      {
        assert lines[..i + 1][..i] == lines[..i];
        if lines[i].kind == side || lines[i].kind == Both {
          r := r + [lines[i]];
        }
      }
      assert lines[..|lines|] == lines;
    }

    method Write(f: Writer) returns (ok: bool)
      modifies f
      ensures ok <==> Settled(Value())
      ensures ok ==> f.writes == old(f.writes) + [HeaderText(Value())] + LineWrites(lines)
      ensures !ok ==> StopsAtUnset(old(f.writes) + [HeaderText(Value())], f.writes, lines)
      ensures HeaderBehind(old(f.writes), f.writes, Value())
    {
      hide LineText, Decimal, Signed, Side, SidePlaces, Picks;
      HeaderNumbers(Value());
      var src := SideLines(Src);
      var dst := SideLines(Dst);
      var header := "@@ -" + Signed(srcPos) + "," + Decimal(|src|)
        + " +" + Signed(dstPos) + "," + Decimal(|dst|) + " @@\n";
      assert header == HeaderText(Value());
      hide LineWrites, HeaderText, StopsAtUnset;
      f.Write(header);
      ok := WriteLines(lines, f);
    }
  }

  // What was written first is a header with the two positions and the numbers of lines of the sides.
  ghost predicate HeaderBehind(before: seq<string>, after: seq<string>, c: Chunk) {
    && |before| < |after|
    && after[|before|] == "@@ -" + Signed(c.srcPos) + "," + Decimal(|SidePlaces(c.lines, Src)|)
                        + " +" + Signed(c.dstPos) + "," + Decimal(|SidePlaces(c.lines, Dst)|) + " @@\n"
  }

  // After what was there before, the lines up to the first one without a kind have been written.
  ghost predicate StopsAtUnset(before: seq<string>, after: seq<string>, lines: seq<Line>) {
    exists k :: 0 <= k < |lines| && IsFirstUnset(lines, k) && after == before + LineWrites(lines[..k])
  }

  ghost predicate IsFirstUnset(lines: seq<Line>, k: nat)
    requires k < |lines|
  {
    lines[k].kind == Unset && forall i :: 0 <= i < k ==> lines[i].kind != Unset
  }

  // The chunks before the one with that line have been written, and its header.
  ghost predicate StopsInChunk(before: seq<string>, after: seq<string>, chunks: seq<Chunk>) {
    exists i :: 0 <= i < |chunks| && StopsIn(before, after, chunks, i)
  }

  ghost predicate StopsIn(before: seq<string>, after: seq<string>, chunks: seq<Chunk>, i: nat)
    requires i < |chunks|
  {
    && AllSettled(chunks[..i])
    && StopsAtUnset(before + ChunkWrites(chunks[..i]) + [HeaderText(chunks[i])], after, chunks[i].lines)
  }

  method WriteLines(lines: seq<Line>, f: Writer) returns (ok: bool)
    modifies f
    ensures ok <==> forall k :: 0 <= k < |lines| ==> lines[k].kind != Unset
    ensures ok ==> f.writes == old(f.writes) + LineWrites(lines)
    ensures !ok ==> StopsAtUnset(old(f.writes), f.writes, lines)
  {
    hide LineWrites, LineText;
    ghost var done: seq<Line> := [];
    NothingWritten();
    ok := true;
    for i := 0 to |lines|
      invariant ok && done == lines[..i]
      invariant forall k :: 0 <= k < i ==> lines[k].kind != Unset
      invariant f.writes == old(f.writes) + LineWrites(done)
    {
      ok := WriteLine(lines[i], f);
      if !ok {
        assert IsFirstUnset(lines, i);
        return;
      }
      UnfoldLines(done, lines[i]);
      done := done + [lines[i]];
    }
    assert done == lines;
  }

  ghost function ChunkValues(chunks: seq<PatchChunk>): (values: seq<Chunk>)
    reads chunks
    ensures |values| == |chunks|
  {
    seq(|chunks|, i requires 0 <= i < |chunks| reads chunks => chunks[i].Value())
  }

  class Patch {
    var src: string
    var dst: string
    var chunks: seq<PatchChunk>

    constructor ()
      ensures src == "" && dst == "" && chunks == []
    {
      src, dst, chunks := "", "", [];
    }

    ghost function Value(): PatchText.Patch
      reads this, chunks
    {
      PatchText.Patch(src, dst, ChunkValues(chunks))
    }

    method AddChunk(chunk: PatchChunk)
      modifies this
      ensures src == old(src) && dst == old(dst) && chunks == old(chunks) + [chunk]
    {
      chunks := chunks + [chunk];
    }

    method SetSrc(src: string)
      modifies this
      ensures this.src == src && dst == old(dst) && chunks == old(chunks)
    {
      this.src := src;
    }

    method SetDst(dst: string)
      modifies this
      ensures this.dst == dst && src == old(src) && chunks == old(chunks)
    {
      this.dst := dst;
    }

    method Write(f: Writer) returns (ok: bool)
      modifies f
      ensures ok <==> Writable(Value())
      ensures ok ==> f.writes == old(f.writes) + PatchWrites(Value())
      ensures !ok ==> StopsInChunk(old(f.writes) + [SrcText(src), DstText(dst)], f.writes, ChunkValues(chunks))
    {
      hide ChunkWrites, SrcText, DstText, AllSettled, StopsInChunk;
      f.Write(SrcText(src));
      f.Write(DstText(dst));
      assert f.writes == old(f.writes) + [SrcText(src), DstText(dst)];
      ok := WriteChunks(chunks, f);
    }
  }

  // The first i chunks have been written.
  ghost predicate Written(start: seq<string>, now: seq<string>, values: seq<Chunk>, i: nat) {
    i <= |values| && AllSettled(values[..i]) && now == start + ChunkWrites(values[..i])
  }

  method WriteChunks(chunks: seq<PatchChunk>, f: Writer) returns (ok: bool)
    modifies f
    ensures ok <==> AllSettled(ChunkValues(chunks))
    ensures ok ==> f.writes == old(f.writes) + ChunkWrites(ChunkValues(chunks))
    ensures !ok ==> StopsInChunk(old(f.writes), f.writes, ChunkValues(chunks))
  {
    ghost var start, values := f.writes, ChunkValues(chunks);
    NothingWrittenYet(start, values);
    assert forall i :: 0 <= i < |chunks| ==> values[i] == chunks[i].Value();
    hide *;
    ok := true;
    for i := 0 to |chunks|
      invariant ok && Written(start, f.writes, values, i)
    {
      ok := WriteNext(chunks[i], f, start, values, i);
      if !ok {
        return;
      }
    }
    AllWritten(start, f.writes, values);
  }

  method WriteNext(chunk: PatchChunk, f: Writer, ghost start: seq<string>, ghost values: seq<Chunk>, ghost i: nat)
    returns (ok: bool)
    requires Written(start, f.writes, values, i) && i < |values| && values[i] == chunk.Value()
    modifies f
    ensures ok ==> Written(start, f.writes, values, i + 1)
    ensures !ok ==> StopsInChunk(start, f.writes, values) && !AllSettled(values)
  {
    hide LineWrites, HeaderText, Settled, AllSettled, StopsAtUnset, StopsInChunk, HeaderBehind, ChunkWrites;
    ghost var done := values[..i];
    ok := chunk.Write(f);
    SettledStep(done, values[i]);
    assert values[..i + 1] == done + [values[i]];
    if ok {
      UnfoldChunks(done, values[i]);
      assert start + (ChunkWrites(done) + [HeaderText(values[i])] + LineWrites(values[i].lines))
          == start + ChunkWrites(done) + [HeaderText(values[i])] + LineWrites(values[i].lines);
    } else {
      StopsHere(start, f.writes, values, done, i);
    }
  }

  lemma NothingWrittenYet(start: seq<string>, values: seq<Chunk>)
    ensures Written(start, start, values, 0)
  {
    assert values[..0] == [];
    NothingWritten();
  }

  lemma AllWritten(start: seq<string>, now: seq<string>, values: seq<Chunk>)
    requires Written(start, now, values, |values|)
    ensures AllSettled(values) && now == start + ChunkWrites(values)
  {
    assert values[..|values|] == values;
  }

  lemma SettledStep(done: seq<Chunk>, c: Chunk)
    ensures AllSettled(done + [c]) <==> AllSettled(done) && Settled(c)
  {
    hide Settled;
    assert forall i :: 0 <= i < |done| ==> (done + [c])[i] == done[i];
    assert (done + [c])[|done|] == c;
  }

  lemma StopsHere(start: seq<string>, now: seq<string>, values: seq<Chunk>, done: seq<Chunk>, i: nat)
    requires i < |values| && done == values[..i] && AllSettled(done) && !Settled(values[i])
    requires StopsAtUnset(start + ChunkWrites(done) + [HeaderText(values[i])], now, values[i].lines)
    ensures StopsInChunk(start, now, values) && !AllSettled(values)
  {
    hide Settled, StopsAtUnset, HeaderText, ChunkWrites;
    assert StopsIn(start, now, values, i);
  }

  // How the parser's variables stand: q is the place of the most recent patch that has chunks,
  // and the current chunk is its last one and occurs nowhere else.
  ghost predicate Tracks(patchset: seq<Patch>, currentPatch: Patch?, currentChunk: PatchChunk?, q: int)
    reads patchset
  {
    && NoDup(patchset)
    && currentPatch == (if patchset == [] then null else patchset[|patchset| - 1])
    && -1 <= q < |patchset|
    && (forall j :: q < j < |patchset| ==> patchset[j].chunks == [])
    && (q == -1 <==> currentChunk == null)
    && (q >= 0 ==>
          && patchset[q].chunks != []
          && forall i, a :: 0 <= i < |patchset| && 0 <= a < |patchset[i].chunks| ==>
               (patchset[i].chunks[a] == currentChunk <==> i == q && a == |patchset[q].chunks| - 1))
  }

  // Either the patches that were read or the exception that was raised.
  datatype Outcome = Patchset(patchset: seq<Patch>) | Raised(error: Parse)

  lemma {:induction false} AddLineAt(ps: seq<PatchText.Patch>, q: nat, l: Line)
    requires q < |ps| && ps[q].chunks != []
    requires forall j :: q < j < |ps| ==> ps[j].chunks == []
    ensures HasChunk(ps)
    ensures var k := |ps[q].chunks| - 1;
      var c := ps[q].chunks[k].(lines := ps[q].chunks[k].lines + [l]);
      AddLine(ps, l) == ps[q := ps[q].(chunks := ps[q].chunks[k := c])]
    decreases |ps|
  {
    var n := |ps| - 1;
    if q < n {
      AddLineAt(ps[..n], q, l);
    } else {
      var k := |ps[q].chunks| - 1;
      var c := ps[q].chunks[k].(lines := ps[q].chunks[k].lines + [l]);
      assert ps[q].chunks[..k] + [c] == ps[q].chunks[k := c];
    }
  }

  // The objects have the given values.
  ghost predicate Shows(patchset: seq<Patch>, values: seq<PatchText.Patch>)
    reads patchset, set i, a | 0 <= i < |patchset| && 0 <= a < |patchset[i].chunks| :: patchset[i].chunks[a]
  {
    && |patchset| == |values|
    && (forall i :: 0 <= i < |patchset| ==> Heads(patchset[i], values[i]))
    && (forall i, a :: 0 <= i < |patchset| && 0 <= a < |patchset[i].chunks| ==>
          patchset[i].chunks[a].Value() == values[i].chunks[a])
  }

  ghost predicate Heads(p: Patch, value: PatchText.Patch)
    reads p
  {
    p.src == value.src && p.dst == value.dst && |p.chunks| == |value.chunks|
  }

  // ---- the four ways in which a line changes the patches

  method StartPatch(patchset: seq<Patch>, currentPatch: Patch?, currentChunk: PatchChunk?, name: string,
                    ghost q: int, ghost values: seq<PatchText.Patch>)
    returns (patch: Patch)
    requires Tracks(patchset, currentPatch, currentChunk, q) && Shows(patchset, values)
    ensures fresh(patch) && patch.chunks == []
    ensures Tracks(patchset + [patch], patch, currentChunk, q)
    ensures Shows(patchset + [patch], values + [PatchText.Patch(name, "", [])])
  {
    patch := new Patch();
    patch.SetSrc(name);
  }

  method NameTarget(patchset: seq<Patch>, currentPatch: Patch, currentChunk: PatchChunk?, name: string,
                    ghost q: int, ghost values: seq<PatchText.Patch>)
    requires Tracks(patchset, currentPatch, currentChunk, q) && Shows(patchset, values)
    modifies currentPatch
    ensures Tracks(patchset, currentPatch, currentChunk, q)
    ensures values != [] && Shows(patchset, values[..|values| - 1] + [values[|values| - 1].(dst := name)])
  {
    currentPatch.SetDst(name);
  }

  method StartChunk(patchset: seq<Patch>, currentPatch: Patch, currentChunk: PatchChunk?, srcPos: int, dstPos: int,
                    ghost q: int, ghost values: seq<PatchText.Patch>)
    returns (chunk: PatchChunk)
    requires Tracks(patchset, currentPatch, currentChunk, q) && Shows(patchset, values)
    modifies currentPatch
    ensures fresh(chunk)
    ensures Tracks(patchset, currentPatch, chunk, |patchset| - 1)
    ensures values != []
    ensures var p := values[|values| - 1];
      Shows(patchset, values[..|values| - 1] + [p.(chunks := p.chunks + [Chunk([], srcPos, dstPos)])])
  {
    chunk := new PatchChunk(srcPos, dstPos);
    ghost var n := |patchset| - 1;
    assert forall i, a :: 0 <= i <= n && 0 <= a < |patchset[i].chunks| ==> patchset[i].chunks[a] != chunk;
    assert Heads(patchset[n], values[n]);
    ghost var p := values[n].(chunks := values[n].chunks + [Chunk([], srcPos, dstPos)]);
    ghost var values' := values[..n] + [p];
    currentPatch.AddChunk(chunk);
    assert Heads(patchset[n], values'[n]);
    assert forall i :: 0 <= i < n ==> values'[i] == values[i];
  }

  method ExtendChunk(patchset: seq<Patch>, currentPatch: Patch?, currentChunk: PatchChunk, l: Line,
                     ghost q: int, ghost values: seq<PatchText.Patch>)
    requires Tracks(patchset, currentPatch, currentChunk, q) && Shows(patchset, values)
    modifies currentChunk
    ensures HasChunk(values)
    ensures Tracks(patchset, currentPatch, currentChunk, q) && Shows(patchset, AddLine(values, l))
  {
    hide AddLine;
    currentChunk.AddLine(l);
    AddLineAt(values, q, l);
  }

  // The work of the parser on one line.
  method TakeLine(patchset: seq<Patch>, currentPatch: Patch?, currentChunk: PatchChunk?, item: Item,
                  ghost q: int, ghost values: seq<PatchText.Patch>)
    returns (error: Option<Parse>, patchset': seq<Patch>, currentPatch': Patch?, currentChunk': PatchChunk?,
             ghost q': int, ghost values': seq<PatchText.Patch>)
    requires Tracks(patchset, currentPatch, currentChunk, q) && Shows(patchset, values)
    modifies if currentPatch == null then {} else {currentPatch}, if currentChunk == null then {} else {currentChunk}
    ensures error.Some? ==> Take(values, item) == error.value && !error.value.Parsed?
    ensures error.None? ==> Take(values, item) == Parsed(values')
    ensures error.None? ==> Tracks(patchset', currentPatch', currentChunk', q') && Shows(patchset', values')
    ensures currentPatch' == currentPatch || fresh(currentPatch')
    ensures currentChunk' == currentChunk || fresh(currentChunk')
  {
    hide AddLine, Shows, HasChunk, Tracks;
    error, patchset', currentPatch', currentChunk' := None, patchset, currentPatch, currentChunk;
    q', values' := q, values;
    match item
    case SrcFile(name) =>
      currentPatch' := StartPatch(patchset, currentPatch, currentChunk, name, q, values);
      patchset' := patchset + [currentPatch'];
      values' := values + [PatchText.Patch(name, "", [])];
    case DstFile(name) =>
      HasCurrentPatch(patchset, currentPatch, currentChunk, q, values);
      if currentPatch == null {
        error := Some(AttributeError);
      } else {
        NameTarget(patchset, currentPatch, currentChunk, name, q, values);
        values' := values[..|values| - 1] + [values[|values| - 1].(dst := name)];
      }
    case ChunkStart(srcPos, dstPos) =>
      HasCurrentPatch(patchset, currentPatch, currentChunk, q, values);
      if currentPatch == null {
        error := Some(AttributeError);
      } else {
        currentChunk' := StartChunk(patchset, currentPatch, currentChunk, srcPos, dstPos, q, values);
        q' := |patchset| - 1;
        values' := values[..|values| - 1]
          + [values[|values| - 1].(chunks := values[|values| - 1].chunks + [Chunk([], srcPos, dstPos)])];
      }
    case Body(l) =>
      if currentChunk == null {
        NoChunkYet(patchset, currentPatch, q, values);
        error := Some(UnboundLocalError);
      } else {
        ExtendChunk(patchset, currentPatch, currentChunk, l, q, values);
        values' := AddLine(values, l);
      }
    case Nothing => error := Some(Unrecognized);
  }

  method ParsePatchset(lines: seq<string>) returns (r: Outcome)
    ensures match ParseLines(lines)
      case Parsed(ps) => r.Patchset? && Shows(r.patchset, ps)
      case error => r == Raised(error)
  {
    var patchset: seq<Patch> := [];
    var currentPatch: Patch? := null;
    var currentChunk: PatchChunk? := null;
    ghost var q, values := -1, [];
    assert Tracks(patchset, currentPatch, currentChunk, q) && Shows(patchset, values);
    assert ParseLines(lines[..0]) == Parsed([]);
    hide Classify, Take, Shows, Tracks, ParseLines;
    for i := 0 to |lines|
      invariant currentPatch != null ==> fresh(currentPatch)
      invariant currentChunk != null ==> fresh(currentChunk)
      invariant Tracks(patchset, currentPatch, currentChunk, q)
      invariant ParseLines(lines[..i]) == Parsed(values) && Shows(patchset, values)
    {
      ParsedSoFar(lines, i, values);
      var error;
      error, patchset, currentPatch, currentChunk, q, values :=
        TakeLine(patchset, currentPatch, currentChunk, Classify(lines[i]), q, values);
      if error.Some? {
        ParseStops(lines, i, error.value);
        return Raised(error.value);
      }
    }
    assert lines[..|lines|] == lines;
    r := Patchset(patchset);
  }

  lemma HasCurrentPatch(patchset: seq<Patch>, currentPatch: Patch?, currentChunk: PatchChunk?, q: int,
                        values: seq<PatchText.Patch>)
    requires Tracks(patchset, currentPatch, currentChunk, q) && Shows(patchset, values)
    ensures currentPatch == null <==> values == []
  {
  }

  lemma NoChunkYet(patchset: seq<Patch>, currentPatch: Patch?, q: int, values: seq<PatchText.Patch>)
    requires Tracks(patchset, currentPatch, null, q) && Shows(patchset, values)
    ensures !HasChunk(values)
  {
    forall i | 0 <= i < |values| ensures values[i].chunks == [] {
      assert Heads(patchset[i], values[i]);
    }
  }

  lemma ParsedSoFar(lines: seq<string>, i: nat, values: seq<PatchText.Patch>)
    requires i < |lines| && ParseLines(lines[..i]) == Parsed(values)
    ensures ParseLines(lines[..i + 1]) == Take(values, Classify(lines[i]))
  {
    assert lines[..i + 1][..i] == lines[..i];
  }

  // An exception ends the parse, whatever lines follow.
  lemma {:induction false} ParseStops(lines: seq<string>, i: nat, error: Parse)
    requires i < |lines| && ParseLines(lines[..i + 1]) == error && !error.Parsed?
    ensures ParseLines(lines) == error
  {
    if i + 1 == |lines| {
      assert lines[..i + 1] == lines;
    } else {
      var n := |lines| - 1;
      assert lines[..n][..i + 1] == lines[..i + 1];
      ParseStops(lines[..n], i, error);
    }
  }
}
