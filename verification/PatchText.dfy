/**
  Patches as values, the text that the patch classes of check-style.py write for them, and the
  patches that parse_patchset reads from lines. Reading back what was written gives the same
  patches exactly when they are clean.
 */
module PatchText {
  import opened Lists

  datatype Kind = Unset | Src | Dst | Both

  datatype Line = Line(kind: Kind, text: string)

  datatype Chunk = Chunk(lines: seq<Line>, srcPos: int, dstPos: int)

  datatype Patch = Patch(src: string, dst: string, chunks: seq<Chunk>)

  // ---- writing

  function Digit(d: nat): char
    requires d < 10
  {
    "0123456789"[d]
  }

  function Decimal(n: nat): string {
    if n < 10 then [Digit(n)] else Decimal(n / 10) + [Digit(n % 10)]
  }

  function Signed(i: int): string {
    if i < 0 then "-" + Decimal(-i) else Decimal(i)
  }

  // The lines of the source, or of the destination: lines of both sides belong to either.
  function Side(lines: seq<Line>, kind: Kind): seq<Line> {
    if lines == [] then []
    else
      var n := |lines| - 1;
      Side(lines[..n], kind) + if lines[n].kind == kind || lines[n].kind == Both then [lines[n]] else []
  }

  function LineText(l: Line): string {
    (match l.kind case Src => "-" case Dst => "+" case Both => " " case Unset => "") + l.text + "\n"
  }

  function HeaderText(c: Chunk): string {
    "@@ -" + Signed(c.srcPos) + "," + Decimal(|Side(c.lines, Src)|)
    + " +" + Signed(c.dstPos) + "," + Decimal(|Side(c.lines, Dst)|) + " @@\n"
  }

  // The strings written one after the other.
  function LineWrites(lines: seq<Line>): seq<string> {
    if lines == [] then [] else LineWrites(lines[..|lines| - 1]) + [LineText(lines[|lines| - 1])]
  }

  function ChunkWrites(chunks: seq<Chunk>): seq<string> {
    if chunks == [] then []
    else
      var c := chunks[|chunks| - 1];
      ChunkWrites(chunks[..|chunks| - 1]) + [HeaderText(c)] + LineWrites(c.lines)
  }

  function SrcText(name: string): string {
    "--- " + name + "\n"
  }

  function DstText(name: string): string {
    "+++ " + name + "\n"
  }

  function PatchWrites(p: Patch): seq<string> {
    [SrcText(p.src), DstText(p.dst)] + ChunkWrites(p.chunks)
  }

  function Writes(ps: seq<Patch>): seq<string> {
    if ps == [] then [] else Writes(ps[..|ps| - 1]) + PatchWrites(ps[|ps| - 1])
  }

  function Concat(writes: seq<string>): string {
    if writes == [] then "" else writes[0] + Concat(writes[1..])
  }

  // ---- reading

  // The lines of a text, each with its newline.
  function SplitLines(text: string): seq<string> {
    if text == "" then [] else
      var rest := SplitLines(text[1..]);
      if text[0] == '\n' || rest == [] then [[text[0]]] + rest
      else [[text[0]] + rest[0]] + rest[1..]
  }

  // The pattern ^prefix(.*)$ : the rest of a line without its newline, if it has no other.
  function MatchRest(prefix: string, line: string): Option<string> {
    if !(prefix <= line) then None
    else
      var rest := line[|prefix|..];
      var body := if rest != "" && rest[|rest| - 1] == '\n' then rest[..|rest| - 1] else rest;
      if '\n' in body then None else Some(body)
  }

  predicate IsDigit(c: char) {
    '0' <= c <= '9'
  }

  function Digits(s: string): (d: string)
    ensures |d| <= |s| && forall i :: 0 <= i < |d| ==> IsDigit(d[i])
  {
    if s != "" && IsDigit(s[0]) then [s[0]] + Digits(s[1..]) else ""
  }

  function Number(d: string): nat
    requires forall i :: 0 <= i < |d| ==> IsDigit(d[i])
  {
    if d == "" then 0 else
      assert IsDigit(d[|d| - 1]);
      10 * Number(d[..|d| - 1]) + (d[|d| - 1] as int - '0' as int)
  }

  // A run of digits, at least one, followed by the given text: the number and what comes after.
  function MatchNumber(s: string, next: string): Option<(nat, string)> {
    var d := Digits(s);
    if d != "" && next <= s[|d|..] then Some((Number(d), s[|d| + |next|..])) else None
  }

  // The pattern ^@@ -n,n +n,n @@ : the first and the third number.
  function MatchChunk(line: string): Option<(nat, nat)> {
    if !("@@ -" <= line) then None
    else
      match MatchNumber(line[4..], ",")
      case None => None
      case Some((a, rest1)) =>
        match MatchNumber(rest1, " +")
        case None => None
        case Some((_, rest2)) =>
          match MatchNumber(rest2, ",")
          case None => None
          case Some((c, rest3)) =>
            match MatchNumber(rest3, " @@")
            case None => None
            case Some((_, _)) => Some((a, c))
  }

  // What a line says, by the patterns in the order in which they are tried.
  datatype Item =
    | SrcFile(name: string)
    | DstFile(name: string)
    | ChunkStart(srcPos: int, dstPos: int)
    | Body(line: Line)
    | Nothing

  function Classify(line: string): Item {
    var srcFile := MatchRest("--- ", line);
    if srcFile.Some? then SrcFile(srcFile.value) else
    var dstFile := MatchRest("+++ ", line);
    if dstFile.Some? then DstFile(dstFile.value) else
    var chunkStart := MatchChunk(line);
    if chunkStart.Some? then ChunkStart(chunkStart.value.0, chunkStart.value.1) else
    var src := MatchRest("-", line);
    if src.Some? then Body(Line(Src, src.value)) else
    var dst := MatchRest("+", line);
    if dst.Some? then Body(Line(Dst, dst.value)) else
    var both := MatchRest(" ", line);
    if both.Some? then Body(Line(Both, both.value)) else
    Nothing
  }

  // AttributeError: there is no current patch; UnboundLocalError: there is no current chunk.
  datatype Parse = Parsed(patches: seq<Patch>) | AttributeError | UnboundLocalError | Unrecognized

  ghost predicate HasChunk(ps: seq<Patch>) {
    exists i :: 0 <= i < |ps| && ps[i].chunks != []
  }

  // Adds a line to the most recent chunk, which need not be in the most recent patch.
  ghost function AddLine(ps: seq<Patch>, l: Line): seq<Patch> {
    if ps == [] then []
    else
      var n := |ps| - 1;
      var p := ps[n];
      var k := |p.chunks| - 1;
      if k >= 0 then ps[..n] + [p.(chunks := p.chunks[..k] + [p.chunks[k].(lines := p.chunks[k].lines + [l])])]
      else AddLine(ps[..n], l) + [p]
  }

  ghost function Take(ps: seq<Patch>, item: Item): Parse {
    match item
    case SrcFile(name) => Parsed(ps + [Patch(name, "", [])])
    case DstFile(name) =>
      if ps == [] then AttributeError
      else Parsed(ps[..|ps| - 1] + [ps[|ps| - 1].(dst := name)])
    case ChunkStart(srcPos, dstPos) =>
      if ps == [] then AttributeError
      else
        var p := ps[|ps| - 1];
        Parsed(ps[..|ps| - 1] + [p.(chunks := p.chunks + [Chunk([], srcPos, dstPos)])])
    case Body(l) => if HasChunk(ps) then Parsed(AddLine(ps, l)) else UnboundLocalError
    case Nothing => Unrecognized
  }

  ghost function ParseLines(lines: seq<string>): Parse {
    if lines == [] then Parsed([])
    else
      match ParseLines(lines[..|lines| - 1])
      case Parsed(ps) => Take(ps, Classify(lines[|lines| - 1]))
      case error => error
  }

  // ---- what survives the round trip

  predicate CleanLine(l: Line) {
    && l.kind != Unset && '\n' !in l.text
    && (l.kind == Src ==> !("-- " <= l.text))
    && (l.kind == Dst ==> !("++ " <= l.text))
  }

  predicate CleanChunk(c: Chunk) {
    c.srcPos >= 0 && c.dstPos >= 0 && forall i :: 0 <= i < |c.lines| ==> CleanLine(c.lines[i])
  }

  predicate CleanPatch(p: Patch) {
    && '\n' !in p.src && '\n' !in p.dst
    && forall i :: 0 <= i < |p.chunks| ==> CleanChunk(p.chunks[i])
  }

  predicate Clean(ps: seq<Patch>) {
    forall i :: 0 <= i < |ps| ==> CleanPatch(ps[i])
  }

  // Writing raises an exception at a line whose kind has not been set.
  ghost predicate Settled(c: Chunk) {
    forall k :: 0 <= k < |c.lines| ==> c.lines[k].kind != Unset
  }

  ghost predicate AllSettled(chunks: seq<Chunk>) {
    forall i :: 0 <= i < |chunks| ==> Settled(chunks[i])
  }

  ghost predicate Writable(p: Patch) {
    AllSettled(p.chunks)
  }

  // ---- splitting what was written

  ghost predicate IsTextLine(w: string) {
    w != "" && w[|w| - 1] == '\n' && '\n' !in w[..|w| - 1]
  }

  lemma {:induction false} SplitOne(w: string, rest: string)
    requires IsTextLine(w)
    ensures SplitLines(w + rest) == [w] + SplitLines(rest)
  {
    assert (w + rest)[1..] == w[1..] + rest;
    if |w| == 1 {
      assert w == ['\n'] && w[1..] + rest == rest;
    }
    if |w| > 1 {
      assert w[0] == w[..|w| - 1][0];
      assert w[1..][..|w| - 2] == w[..|w| - 1][1..];
      SplitOne(w[1..], rest);
      assert w == [w[0]] + w[1..];
    }
  }

  lemma {:induction false} SplitConcat(writes: seq<string>)
    requires forall i :: 0 <= i < |writes| ==> IsTextLine(writes[i])
    ensures SplitLines(Concat(writes)) == writes
  {
    if writes != [] {
      SplitConcat(writes[1..]);
      SplitOne(writes[0], Concat(writes[1..]));
    }
  }

  // ---- numbers

  lemma {:induction false} DecimalNumber(n: nat)
    ensures Decimal(n) != "" && (forall i :: 0 <= i < |Decimal(n)| ==> IsDigit(Decimal(n)[i]))
    ensures Number(Decimal(n)) == n
  {
    if n < 10 {
      NumberStep("", n);
      assert "" + [Digit(n)] == [Digit(n)];
    } else {
      DecimalNumber(n / 10);
      NumberStep(Decimal(n / 10), n % 10);
    }
  }

  lemma NumberStep(d: string, k: nat)
    requires k < 10 && forall i :: 0 <= i < |d| ==> IsDigit(d[i])
    ensures IsDigit(Digit(k)) && (forall i :: 0 <= i < |d + [Digit(k)]| ==> IsDigit((d + [Digit(k)])[i]))
    ensures Number(d + [Digit(k)]) == 10 * Number(d) + k
  {
    assert (d + [Digit(k)])[..|d|] == d;
  }

  lemma {:induction false} DigitsOf(d: string, rest: string)
    requires forall i :: 0 <= i < |d| ==> IsDigit(d[i])
    requires rest != "" && !IsDigit(rest[0])
    ensures Digits(d + rest) == d
  {
    if d == "" {
      assert d + rest == rest;
    } else {
      DigitsOf(d[1..], rest);
      assert (d + rest)[1..] == d[1..] + rest;
    }
  }

  lemma MatchDecimal(n: nat, next: string, rest: string)
    requires next != "" && !IsDigit(next[0])
    ensures MatchNumber(Decimal(n) + next + rest, next) == Some((n, rest))
  {
    DecimalNumber(n);
    DigitsOf(Decimal(n), next + rest);
    assert Decimal(n) + next + rest == Decimal(n) + (next + rest);
    assert (Decimal(n) + next + rest)[|Decimal(n)|..] == next + rest;
  }

  lemma MatchHeader(a: nat, b: nat, c: nat, d: nat)
    ensures MatchChunk("@@ -" + Decimal(a) + "," + Decimal(b) + " +" + Decimal(c) + "," + Decimal(d) + " @@\n")
         == Some((a, c))
  {
    hide Decimal, Digits, Number;
    var rest3 := Decimal(d) + " @@" + "\n";
    var rest2 := Decimal(c) + "," + rest3;
    var rest1 := Decimal(b) + " +" + rest2;
    var rest0 := Decimal(a) + "," + rest1;
    var line := "@@ -" + Decimal(a) + "," + Decimal(b) + " +" + Decimal(c) + "," + Decimal(d) + " @@\n";
    assert line == "@@ -" + rest0;
    assert line[4..] == rest0;
    MatchDecimal(a, ",", rest1);
    MatchDecimal(b, " +", rest2);
    MatchDecimal(c, ",", rest3);
    MatchDecimal(d, " @@", "\n");
  }

  // ---- classifying what was written

  lemma MatchOwn(prefix: string, body: string)
    requires '\n' !in body
    ensures MatchRest(prefix, prefix + body + "\n") == Some(body)
  {
    var line := prefix + body + "\n";
    assert line[|prefix|..] == body + "\n";
    assert (body + "\n")[..|body|] == body;
  }

  lemma ClassifySrcFile(name: string)
    requires '\n' !in name
    ensures Classify(SrcText(name)) == SrcFile(name)
  {
    MatchOwn("--- ", name);
  }

  lemma ClassifyDstFile(name: string)
    requires '\n' !in name
    ensures Classify(DstText(name)) == DstFile(name)
  {
    MatchOwn("+++ ", name);
    var line := DstText(name);
    assert line[0] == '+';
  }

  lemma ClassifyHeader(c: Chunk)
    requires c.srcPos >= 0 && c.dstPos >= 0
    ensures Classify(HeaderText(c)) == ChunkStart(c.srcPos, c.dstPos)
  {
    hide Classify, MatchChunk, Decimal, Side;
    MatchHeader(c.srcPos, |Side(c.lines, Src)|, c.dstPos, |Side(c.lines, Dst)|);
    assert HeaderText(c)[0] == '@';
    ClassifyMatched(HeaderText(c));
  }

  lemma ClassifyMatched(line: string)
    requires line != "" && line[0] == '@' && MatchChunk(line).Some?
    ensures Classify(line) == ChunkStart(MatchChunk(line).value.0, MatchChunk(line).value.1)
  {
    hide MatchChunk;
    assert !("--- " <= line) && !("+++ " <= line);
  }

  // A line of a chunk is read as itself, or, when its text looks like a file name, as that.
  lemma ClassifyLine(l: Line)
    requires l.kind != Unset && '\n' !in l.text
    ensures CleanLine(l) ==> Classify(LineText(l)) == Body(l)
    ensures !CleanLine(l) ==> !Classify(LineText(l)).Body?
  {
    hide MatchChunk, MatchRest;
    var line := LineText(l);
    match l.kind {
      case Src => ClassifyRemoved(l);
      case Dst => ClassifyAdded(l);
      case Both => ClassifyContext(l);
    }
  }

  lemma ClassifyRemoved(l: Line)
    requires l.kind == Src && '\n' !in l.text
    ensures Classify(LineText(l)) == if "-- " <= l.text then SrcFile(l.text[3..]) else Body(l)
  {
    var line := LineText(l);
    assert line == "-" + l.text + "\n" && line[0] == '-';
    assert !("+++ " <= line) && !("@@ -" <= line);
    if "-- " <= l.text {
      assert line == SrcText(l.text[3..]);
      MatchOwn("--- ", l.text[3..]);
    } else {
      assert forall i :: 0 <= i < |l.text| ==> line[i + 1] == l.text[i];
      MatchOwn("-", l.text);
    }
  }

  lemma ClassifyAdded(l: Line)
    requires l.kind == Dst && '\n' !in l.text
    ensures Classify(LineText(l)) == if "++ " <= l.text then DstFile(l.text[3..]) else Body(l)
  {
    var line := LineText(l);
    assert line == "+" + l.text + "\n" && line[0] == '+';
    assert !("--- " <= line) && !("@@ -" <= line) && !("-" <= line);
    if "++ " <= l.text {
      assert line == DstText(l.text[3..]);
      MatchOwn("+++ ", l.text[3..]);
    } else {
      assert forall i :: 0 <= i < |l.text| ==> line[i + 1] == l.text[i];
      MatchOwn("+", l.text);
    }
  }

  lemma ClassifyContext(l: Line)
    requires l.kind == Both && '\n' !in l.text
    ensures Classify(LineText(l)) == Body(l)
  {
    var line := LineText(l);
    assert line == " " + l.text + "\n" && line[0] == ' ';
    assert !("--- " <= line) && !("+++ " <= line) && !("@@ -" <= line) && !("-" <= line) && !("+" <= line);
    MatchOwn(" ", l.text);
  }

  // ---- clean patches come back

  ghost predicate Reads(lines: seq<string>, ps: seq<Patch>) {
    ParseLines(lines) == Parsed(ps)
  }

  lemma ReadsMore(lines: seq<string>, ps: seq<Patch>, w: string)
    requires Reads(lines, ps)
    ensures ParseLines(lines + [w]) == Take(ps, Classify(w))
  {
    assert (lines + [w])[..|lines|] == lines;
  }

  lemma {:induction false} ReadsLines(lines: seq<string>, ps: seq<Patch>, p: Patch, c: Chunk)
    requires forall i :: 0 <= i < |c.lines| ==> CleanLine(c.lines[i])
    requires Reads(lines, ps + [p.(chunks := p.chunks + [c.(lines := [])])])
    ensures Reads(lines + LineWrites(c.lines), ps + [p.(chunks := p.chunks + [c])])
    decreases |c.lines|
  {
    NothingWritten();
    hide *;
    if c.lines == [] {
      assert lines + LineWrites(c.lines) == lines;
    } else {
      var n := |c.lines| - 1;
      var c0, l := c.(lines := c.lines[..n]), c.lines[n];
      assert c.lines == c0.lines + [l];
      ReadsLines(lines, ps, p, c0);
      UnfoldLines(c0.lines, l);
      assert lines + LineWrites(c.lines) == lines + LineWrites(c0.lines) + [LineText(l)];
      ReadsLine(lines + LineWrites(c0.lines), ps, p, c0, l);
    }
  }

  lemma ReadsLine(lines: seq<string>, ps: seq<Patch>, p: Patch, c: Chunk, l: Line)
    requires CleanLine(l) && Reads(lines, ps + [p.(chunks := p.chunks + [c])])
    ensures Reads(lines + [LineText(l)], ps + [p.(chunks := p.chunks + [c.(lines := c.lines + [l])])])
  {
    ReadsMore(lines, ps + [p.(chunks := p.chunks + [c])], LineText(l));
    ClassifyLine(l);
    hide Classify, LineText, AddLine, ParseLines;
    AddToLast(ps, p, c, l);
  }

  lemma AddToLast(ps: seq<Patch>, p: Patch, c: Chunk, l: Line)
    ensures var all := ps + [p.(chunks := p.chunks + [c])];
      HasChunk(all) && AddLine(all, l) == ps + [p.(chunks := p.chunks + [c.(lines := c.lines + [l])])]
  {
    var all := ps + [p.(chunks := p.chunks + [c])];
    assert all[|ps|].chunks != [];
    assert all[..|ps|] == ps;
    assert (p.chunks + [c])[..|p.chunks|] == p.chunks;
  }

  lemma StartedChunk(lines: seq<string>, ps: seq<Patch>, p: Patch, c: Chunk)
    requires ParseLines(lines) == Take(ps + [p], ChunkStart(c.srcPos, c.dstPos))
    ensures Reads(lines, ps + [p.(chunks := p.chunks + [c.(lines := [])])])
  {
    assert (ps + [p])[..|ps|] == ps;
  }

  lemma NamedFiles(lines: seq<string>, ps: seq<Patch>, src: string, dst: string)
    requires Reads(lines, ps) && '\n' !in src && '\n' !in dst
    ensures Reads(lines + [SrcText(src)] + [DstText(dst)], ps + [Patch(src, dst, [])])
  {
    ClassifySrcFile(src);
    ClassifyDstFile(dst);
    hide Classify;
    var ps1 := ps + [Patch(src, "", [])];
    ReadsMore(lines, ps, SrcText(src));
    ReadsMore(lines + [SrcText(src)], ps1, DstText(dst));
    assert ps1[..|ps|] == ps;
  }

  lemma NothingWritten()
    ensures LineWrites([]) == [] && ChunkWrites([]) == [] && Writes([]) == []
    ensures TotalOfChunks([]) == 0 && Total([]) == 0 && Bodies([]) == 0
  {
  }

  lemma UnfoldLines(front: seq<Line>, l: Line)
    ensures LineWrites(front + [l]) == LineWrites(front) + [LineText(l)]
  {
    assert (front + [l])[..|front|] == front;
  }

  lemma UnfoldChunks(front: seq<Chunk>, c: Chunk)
    ensures ChunkWrites(front + [c]) == ChunkWrites(front) + [HeaderText(c)] + LineWrites(c.lines)
    ensures TotalOfChunks(front + [c]) == TotalOfChunks(front) + |c.lines|
  {
    assert (front + [c])[..|front|] == front;
  }

  lemma UnfoldPatches(front: seq<Patch>, p: Patch)
    ensures Writes(front + [p]) == Writes(front) + [SrcText(p.src)] + [DstText(p.dst)] + ChunkWrites(p.chunks)
    ensures Total(front + [p]) == Total(front) + TotalOfChunks(p.chunks)
  {
    hide ChunkWrites, TotalOfChunks, SrcText, DstText;
    assert (front + [p])[..|front|] == front;
    assert PatchWrites(p) == [SrcText(p.src)] + [DstText(p.dst)] + ChunkWrites(p.chunks);
  }

  // Reading on with the header and the lines of one more chunk.
  lemma ReadsChunk(lines: seq<string>, ps: seq<Patch>, p: Patch, c: Chunk)
    requires CleanChunk(c) && Reads(lines, ps + [p])
    ensures Reads(lines + [HeaderText(c)] + LineWrites(c.lines), ps + [p.(chunks := p.chunks + [c])])
  {
    ReadsMore(lines, ps + [p], HeaderText(c));
    ClassifyHeader(c);
    hide Classify, HeaderText, Reads, LineWrites, Take;
    StartedChunk(lines + [HeaderText(c)], ps, p, c);
    ReadsLines(lines + [HeaderText(c)], ps, p, c);
  }

  lemma {:induction false} ReadsChunks(lines: seq<string>, ps: seq<Patch>, p: Patch)
    requires forall i :: 0 <= i < |p.chunks| ==> CleanChunk(p.chunks[i])
    requires Reads(lines, ps + [p.(chunks := [])])
    ensures Reads(lines + ChunkWrites(p.chunks), ps + [p])
    decreases |p.chunks|
  {
    NothingWritten();
    hide *;
    if p.chunks == [] {
      assert lines + ChunkWrites(p.chunks) == lines;
    } else {
      var n := |p.chunks| - 1;
      var p0, c := p.(chunks := p.chunks[..n]), p.chunks[n];
      ReadsChunks(lines, ps, p0);
      ReadsChunk(lines + ChunkWrites(p0.chunks), ps, p0, c);
      assert p0.chunks + [c] == p.chunks;
      UnfoldChunks(p0.chunks, c);
      assert lines + ChunkWrites(p.chunks) == lines + ChunkWrites(p0.chunks) + [HeaderText(c)] + LineWrites(c.lines);
    }
  }

  lemma {:induction false} CleanComesBack(ps: seq<Patch>)
    requires forall i :: 0 <= i < |ps| ==> CleanPatch(ps[i])
    ensures Reads(Writes(ps), ps)
  {
    hide Reads, CleanPatch, Writes;
    assert Reads(Writes([]), []) by { NothingRead(); }
    if ps != [] {
      var n := |ps| - 1;
      CleanComesBack(ps[..n]);
      NextPatchComesBack(ps[..n], ps[n]);
      assert ps == ps[..n] + [ps[n]];
    }
  }

  lemma NothingRead()
    ensures Reads(Writes([]), [])
  {
  }

  lemma NextPatchComesBack(ps: seq<Patch>, p: Patch)
    requires Reads(Writes(ps), ps) && CleanPatch(p)
    ensures Reads(Writes(ps + [p]), ps + [p])
  {
    hide *;
    CleanParts(p);
    NamedFiles(Writes(ps), ps, p.src, p.dst);
    ReadsChunks(Writes(ps) + [SrcText(p.src)] + [DstText(p.dst)], ps, p);
    UnfoldPatches(ps, p);
  }

  lemma CleanParts(p: Patch)
    requires CleanPatch(p)
    ensures '\n' !in p.src && '\n' !in p.dst
    ensures forall i :: 0 <= i < |p.chunks| ==> CleanChunk(p.chunks[i])
  {
  }

  lemma {:induction false} WritesAreLines(ps: seq<Patch>)
    requires forall i :: 0 <= i < |ps| ==> Speakable(ps[i])
    ensures forall w :: w in Writes(ps) ==> IsTextLine(w)
  {
    if ps != [] {
      var p := ps[|ps| - 1];
      WritesAreLines(ps[..|ps| - 1]);
      ChunkWritesAreLines(p.chunks);
      forall name | '\n' !in name
        ensures IsTextLine(SrcText(name)) && IsTextLine(DstText(name))
      {
        assert (SrcText(name))[..|name| + 4] == "--- " + name;
        assert (DstText(name))[..|name| + 4] == "+++ " + name;
      }
    }
  }

  // No text holds a newline and every line has a kind.
  ghost predicate Speakable(p: Patch) {
    '\n' !in p.src && '\n' !in p.dst && forall i :: 0 <= i < |p.chunks| ==> SpeakableChunk(p.chunks[i])
  }

  ghost predicate SpeakableChunk(c: Chunk) {
    c.srcPos >= 0 && c.dstPos >= 0 &&
    forall k :: 0 <= k < |c.lines| ==> c.lines[k].kind != Unset && '\n' !in c.lines[k].text
  }

  lemma {:induction false} ChunkWritesAreLines(chunks: seq<Chunk>)
    requires forall i :: 0 <= i < |chunks| ==> SpeakableChunk(chunks[i])
    ensures forall w :: w in ChunkWrites(chunks) ==> IsTextLine(w)
  {
    if chunks != [] {
      var c := chunks[|chunks| - 1];
      ChunkWritesAreLines(chunks[..|chunks| - 1]);
      LineWritesAreLines(c.lines);
      HeaderIsLine(c);
    }
  }

  lemma HeaderIsLine(c: Chunk)
    requires c.srcPos >= 0 && c.dstPos >= 0
    ensures IsTextLine(HeaderText(c))
  {
    var a, b, d, e := c.srcPos, |Side(c.lines, Src)|, c.dstPos, |Side(c.lines, Dst)|;
    DecimalNumber(a);
    DecimalNumber(b);
    DecimalNumber(d);
    DecimalNumber(e);
    assert forall i :: IsDigit(i) ==> i != '\n';
    var front := "@@ -" + Decimal(a) + "," + Decimal(b) + " +" + Decimal(d) + "," + Decimal(e) + " @@";
    assert HeaderText(c) == front + "\n" && HeaderText(c)[..|front|] == front;
  }

  lemma {:induction false} LineWritesAreLines(lines: seq<Line>)
    requires forall k :: 0 <= k < |lines| ==> lines[k].kind != Unset && '\n' !in lines[k].text
    ensures forall w :: w in LineWrites(lines) ==> IsTextLine(w)
  {
    if lines != [] {
      var l := lines[|lines| - 1];
      LineWritesAreLines(lines[..|lines| - 1]);
      var mark := match l.kind case Src => "-" case Dst => "+" case _ => " ";
      assert LineText(l) == mark + l.text + "\n" && LineText(l)[..|l.text| + 1] == mark + l.text;
    }
  }

  // ---- only clean patches come back

  ghost function TotalOfChunks(chunks: seq<Chunk>): nat {
    if chunks == [] then 0 else TotalOfChunks(chunks[..|chunks| - 1]) + |chunks[|chunks| - 1].lines|
  }

  ghost function Total(ps: seq<Patch>): nat {
    if ps == [] then 0 else Total(ps[..|ps| - 1]) + TotalOfChunks(ps[|ps| - 1].chunks)
  }

  // The number of lines that are read as lines of a chunk.
  ghost function Bodies(lines: seq<string>): nat {
    if lines == [] then 0
    else Bodies(lines[..|lines| - 1]) + if Classify(lines[|lines| - 1]).Body? then 1 else 0
  }

  lemma {:induction false} BodiesConcat(a: seq<string>, b: seq<string>)
    ensures Bodies(a + b) == Bodies(a) + Bodies(b)
  {
    hide Classify;
    if b == [] {
      assert a + b == a;
    } else {
      BodiesConcat(a, b[..|b| - 1]);
      assert (a + b)[..|a + b| - 1] == a + b[..|b| - 1];
    }
  }

  lemma BodiesOfOne(w: string)
    ensures Bodies([w]) == if Classify(w).Body? then 1 else 0
  {
    assert [w][..0] == [];
  }

  lemma ClassifyIsSpeakable(w: string)
    ensures match Classify(w)
      case SrcFile(name) => '\n' !in name
      case DstFile(name) => '\n' !in name
      case ChunkStart(srcPos, dstPos) => srcPos >= 0 && dstPos >= 0
      case Body(l) => l.kind != Unset && '\n' !in l.text
      case Nothing => true
  {
    hide MatchChunk;
  }

  ghost predicate AllSpeakable(ps: seq<Patch>) {
    forall i :: 0 <= i < |ps| ==> Speakable(ps[i])
  }

  lemma {:induction false} AddLineTotal(ps: seq<Patch>, l: Line)
    requires AllSpeakable(ps) && HasChunk(ps) && l.kind != Unset && '\n' !in l.text
    ensures AllSpeakable(AddLine(ps, l)) && Total(AddLine(ps, l)) == Total(ps) + 1
  {
    var n := |ps| - 1;
    var p := ps[n];
    var k := |p.chunks| - 1;
    if k >= 0 {
      var c := p.chunks[k].(lines := p.chunks[k].lines + [l]);
      var p' := p.(chunks := p.chunks[..k] + [c]);
      ExtendedPatch(p, l);
      assert (ps[..n] + [p'])[..n] == ps[..n];
    } else {
      AddLineTotal(ps[..n], l);
      assert (AddLine(ps[..n], l) + [p])[..|AddLine(ps[..n], l)|] == AddLine(ps[..n], l);
    }
  }

  lemma ExtendedPatch(p: Patch, l: Line)
    requires Speakable(p) && p.chunks != [] && l.kind != Unset && '\n' !in l.text
    ensures var k := |p.chunks| - 1;
      var p' := p.(chunks := p.chunks[..k] + [p.chunks[k].(lines := p.chunks[k].lines + [l])]);
      Speakable(p') && TotalOfChunks(p'.chunks) == TotalOfChunks(p.chunks) + 1
  {
    var k := |p.chunks| - 1;
    var c := p.chunks[k].(lines := p.chunks[k].lines + [l]);
    assert (p.chunks[..k] + [c])[..k] == p.chunks[..k];
    assert SpeakableChunk(p.chunks[k]) && SpeakableChunk(c);
  }

  lemma TakeTotal(ps: seq<Patch>, w: string)
    requires AllSpeakable(ps) && Take(ps, Classify(w)).Parsed?
    ensures var ps' := Take(ps, Classify(w)).patches;
      AllSpeakable(ps') && Total(ps') == Total(ps) + if Classify(w).Body? then 1 else 0
  {
    ClassifyIsSpeakable(w);
    hide Classify, AddLine, Total, Speakable, HasChunk;
    match Classify(w) {
      case Body(l) => AddLineTotal(ps, l);
      case SrcFile(name) => AppendTotal(ps, Patch(name, "", []));
      case DstFile(name) => ReplaceTotal(ps, ps[|ps| - 1].(dst := name));
      case ChunkStart(srcPos, dstPos) =>
        var p := ps[|ps| - 1];
        ReplaceTotal(ps, p.(chunks := p.chunks + [Chunk([], srcPos, dstPos)]));
      case Nothing =>
    }
  }

  lemma AppendTotal(ps: seq<Patch>, p: Patch)
    requires AllSpeakable(ps) && '\n' !in p.src && '\n' !in p.dst && p.chunks == []
    ensures AllSpeakable(ps + [p]) && Total(ps + [p]) == Total(ps)
  {
    assert (ps + [p])[..|ps|] == ps;
  }

  // Another target name or one more empty chunk for the last patch.
  lemma ReplaceTotal(ps: seq<Patch>, p: Patch)
    requires ps != [] && AllSpeakable(ps) && p.src == ps[|ps| - 1].src && (p.dst == ps[|ps| - 1].dst || '\n' !in p.dst)
    requires var chunks := ps[|ps| - 1].chunks;
      p.chunks == chunks || exists a: nat, c: nat :: p.chunks == chunks + [Chunk([], a, c)]
    ensures var ps' := ps[..|ps| - 1] + [p]; AllSpeakable(ps') && Total(ps') == Total(ps)
  {
    var n := |ps| - 1;
    var chunks := ps[n].chunks;
    assert Speakable(ps[n]);
    assert (ps[..n] + [p])[..n] == ps[..n];
    if a: nat, c: nat :| p.chunks == chunks + [Chunk([], a, c)] {
      assert p.chunks[..|chunks|] == chunks;
      assert SpeakableChunk(Chunk([], a, c));
    }
    assert Speakable(p);
  }

  lemma {:induction false} ParsedTotal(lines: seq<string>)
    requires ParseLines(lines).Parsed?
    ensures AllSpeakable(ParseLines(lines).patches) && Total(ParseLines(lines).patches) == Bodies(lines)
  {
    if lines != [] {
      ParsedTotal(lines[..|lines| - 1]);
      hide Classify, Take;
      TakeTotal(ParseLines(lines[..|lines| - 1]).patches, lines[|lines| - 1]);
    }
  }

  lemma {:induction false} LineBodies(lines: seq<Line>)
    requires forall k :: 0 <= k < |lines| ==> lines[k].kind != Unset && '\n' !in lines[k].text
    ensures Bodies(LineWrites(lines)) <= |lines|
    ensures Bodies(LineWrites(lines)) == |lines| ==> forall k :: 0 <= k < |lines| ==> CleanLine(lines[k])
  {
    NothingWritten();
    hide *;
    if lines != [] {
      var n := |lines| - 1;
      var l := lines[n];
      LineBodies(lines[..n]);
      ClassifyLine(l);
      UnfoldLines(lines[..n], l);
      assert lines == lines[..n] + [l];
      BodiesConcat(LineWrites(lines[..n]), [LineText(l)]);
      BodiesOfOne(LineText(l));
      assert forall k :: 0 <= k < n ==> lines[..n][k] == lines[k];
    }
  }

  lemma ChunkBody(c: Chunk)
    requires SpeakableChunk(c)
    ensures Bodies([HeaderText(c)] + LineWrites(c.lines)) <= |c.lines|
    ensures Bodies([HeaderText(c)] + LineWrites(c.lines)) == |c.lines| ==> CleanChunk(c)
  {
    LineBodies(c.lines);
    ClassifyHeader(c);
    hide Classify, LineText, CleanLine, Bodies, LineWrites, HeaderText;
    BodiesOfOne(HeaderText(c));
    BodiesConcat([HeaderText(c)], LineWrites(c.lines));
  }

  lemma {:induction false} ChunkBodies(chunks: seq<Chunk>)
    requires forall i :: 0 <= i < |chunks| ==> SpeakableChunk(chunks[i])
    ensures Bodies(ChunkWrites(chunks)) <= TotalOfChunks(chunks)
    ensures Bodies(ChunkWrites(chunks)) == TotalOfChunks(chunks) ==>
              forall i :: 0 <= i < |chunks| ==> CleanChunk(chunks[i])
  {
    NothingWritten();
    hide *;
    if chunks != [] {
      var n := |chunks| - 1;
      var front, c := chunks[..n], chunks[n];
      ChunkBodies(front);
      ChunkBody(c);
      UnfoldChunks(front, c);
      assert chunks == front + [c];
      assert ChunkWrites(chunks) == ChunkWrites(front) + ([HeaderText(c)] + LineWrites(c.lines));
      BodiesConcat(ChunkWrites(front), [HeaderText(c)] + LineWrites(c.lines));
      assert forall k :: 0 <= k < n ==> front[k] == chunks[k];
    }
  }

  lemma PatchBody(p: Patch)
    requires Speakable(p)
    ensures var writes := [SrcText(p.src)] + [DstText(p.dst)] + ChunkWrites(p.chunks);
      Bodies(writes) <= TotalOfChunks(p.chunks) && (Bodies(writes) == TotalOfChunks(p.chunks) ==> CleanPatch(p))
  {
    var src, dst := SrcText(p.src), DstText(p.dst);
    ChunkBodies(p.chunks);
    ClassifySrcFile(p.src);
    ClassifyDstFile(p.dst);
    hide Classify, Bodies, ChunkWrites, CleanChunk, SpeakableChunk, TotalOfChunks;
    BodiesOfOne(src);
    BodiesOfOne(dst);
    BodiesConcat([src] + [dst], ChunkWrites(p.chunks));
    BodiesConcat([src], [dst]);
  }

  lemma {:induction false} WriteBodies(ps: seq<Patch>)
    requires forall i :: 0 <= i < |ps| ==> Speakable(ps[i])
    ensures Bodies(Writes(ps)) <= Total(ps)
    ensures Bodies(Writes(ps)) == Total(ps) ==> forall i :: 0 <= i < |ps| ==> CleanPatch(ps[i])
  {
    NothingWritten();
    hide *;
    if ps != [] {
      var n := |ps| - 1;
      var front, p := ps[..n], ps[n];
      WriteBodies(front);
      PatchBody(p);
      UnfoldPatches(front, p);
      assert ps == front + [p];
      var writes := [SrcText(p.src)] + [DstText(p.dst)] + ChunkWrites(p.chunks);
      assert Writes(ps) == Writes(front) + writes;
      BodiesConcat(Writes(front), writes);
      assert forall k :: 0 <= k < n ==> front[k] == ps[k];
    }
  }

  lemma CleanIsSpeakable(ps: seq<Patch>)
    requires Clean(ps)
    ensures AllSpeakable(ps)
  {
    forall i | 0 <= i < |ps| ensures Speakable(ps[i]) {
      forall j | 0 <= j < |ps[i].chunks| ensures SpeakableChunk(ps[i].chunks[j]) {
        assert CleanPatch(ps[i]) && CleanChunk(ps[i].chunks[j]);
      }
    }
  }

  // Reading the lines of what was written gives the patches back if and only if they are clean.
  lemma RoundTrip(ps: seq<Patch>)
    ensures ParseLines(SplitLines(Concat(Writes(ps)))) == Parsed(ps) <==> Clean(ps)
  {
    var lines := SplitLines(Concat(Writes(ps)));
    if ParseLines(lines) == Parsed(ps) {
      ParsedTotal(lines);
    }
    if Clean(ps) {
      CleanIsSpeakable(ps);
    }
    if AllSpeakable(ps) {
      WritesAreLines(ps);
      SplitConcat(Writes(ps));
      WriteBodies(ps);
    }
    if Clean(ps) {
      CleanComesBack(ps);
    }
  }
}
