/**
  What the patch texts and the patch parser come to, line by line: which lines say what, which
  numbers stand in a header, what a parse collects and which lines stop it.
 */
module PatchForms {
  import opened Lists
  import opened PatchText

  // ---- lines

  // The prefix and a body without newlines, with or without a newline at the end.
  ghost predicate IsLineOf(prefix: string, body: string, line: string) {
    '\n' !in body && (line == prefix + body || line == prefix + body + "\n")
  }

  lemma MatchRestIff(prefix: string, line: string, body: string)
    ensures MatchRest(prefix, line) == Some(body) <==> IsLineOf(prefix, body, line)
  {
    if prefix <= line {
      var rest := line[|prefix|..];
      assert line == prefix + rest;
      AppendCancels(prefix, rest, body);
      AppendCancels(prefix, rest, body + "\n");
      assert prefix + (body + "\n") == prefix + body + "\n";
      if rest != "" && rest[|rest| - 1] == '\n' {
        assert rest == rest[..|rest| - 1] + "\n";
        if rest == body + "\n" {
          assert rest[..|rest| - 1] == body;
        }
      }
    } else {
      assert prefix <= prefix + body && prefix <= prefix + body + "\n";
    }
  }

  lemma AppendCancels(a: string, b: string, c: string)
    ensures a + b == a + c <==> b == c
  {
    assert (a + b)[|a|..] == b && (a + c)[|a|..] == c;
  }

  ghost predicate IsNumeral(d: string) {
    d != "" && forall i :: 0 <= i < |d| ==> IsDigit(d[i])
  }

  // Two pairs of numbers between the marks of a header, and anything behind them.
  ghost predicate IsHeader(line: string, a: nat, c: nat) {
    exists d1, d2, d3, d4, rest :: IsHeaderOf(line, d1, d2, d3, d4, rest) && Number(d1) == a && Number(d3) == c
  }

  ghost predicate IsHeaderOf(line: string, d1: string, d2: string, d3: string, d4: string, rest: string)
    ensures IsHeaderOf(line, d1, d2, d3, d4, rest) ==> IsNumeral(d1) && IsNumeral(d3)
  {
    && IsNumeral(d1) && IsNumeral(d2) && IsNumeral(d3) && IsNumeral(d4)
    && line == "@@ -" + (d1 + "," + (d2 + " +" + (d3 + "," + (d4 + " @@" + rest))))
  }

  lemma {:induction false} DigitsSplit(s: string) returns (rest: string)
    ensures s == Digits(s) + rest && (rest == "" || !IsDigit(rest[0]))
  {
    if s != "" && IsDigit(s[0]) {
      rest := DigitsSplit(s[1..]);
    } else {
      rest := s;
      assert "" + s == s;
    }
  }

  lemma MatchNumberIff(s: string, next: string, d: string, rest: string)
    requires next != "" && !IsDigit(next[0])
    ensures IsNumeral(d) && s == d + next + rest ==> MatchNumber(s, next) == Some((Number(d), rest))
    ensures MatchNumber(s, next).Some? ==>
      IsNumeral(Digits(s)) && s == Digits(s) + next + MatchNumber(s, next).value.1
      && MatchNumber(s, next).value.0 == Number(Digits(s))
  {
    hide Digits, Number;
    if IsNumeral(d) && s == d + next + rest {
      assert d + next + rest == d + (next + rest);
      DigitsOf(d, next + rest);
      assert s[|d|..] == next + rest && (next + rest)[|next|..] == rest;
      assert s[|d| + |next|..] == rest;
    }
    var tail := DigitsSplit(s);
    if MatchNumber(s, next).Some? {
      assert s[|Digits(s)|..] == tail;
      assert tail == next + tail[|next|..];
    }
  }

  lemma MatchChunkIff(line: string, a: nat, c: nat)
    ensures MatchChunk(line) == Some((a, c)) <==> IsHeader(line, a, c)
  {
    if IsHeader(line, a, c) {
      var d1, d2, d3, d4, rest :| IsHeaderOf(line, d1, d2, d3, d4, rest) && Number(d1) == a && Number(d3) == c;
      HeaderMatches(line, d1, d2, d3, d4, rest);
    }
    if MatchChunk(line) == Some((a, c)) {
      MatchedHeader(line, a, c);
    }
  }

  lemma HeaderMatches(line: string, d1: string, d2: string, d3: string, d4: string, rest: string)
    requires IsHeaderOf(line, d1, d2, d3, d4, rest)
    ensures MatchChunk(line) == Some((Number(d1), Number(d3)))
  {
    hide Digits, Number, MatchNumber, IsNumeral;
    var rest3 := d4 + " @@" + rest;
    var rest2 := d3 + "," + rest3;
    var rest1 := d2 + " +" + rest2;
    assert line[4..] == d1 + "," + rest1;
    MatchNumberIff(line[4..], ",", d1, rest1);
    MatchNumberIff(rest1, " +", d2, rest2);
    MatchNumberIff(rest2, ",", d3, rest3);
    MatchNumberIff(rest3, " @@", d4, rest);
  }

  lemma MatchedHeader(line: string, a: nat, c: nat)
    requires MatchChunk(line) == Some((a, c))
    ensures IsHeader(line, a, c)
  {
    hide Digits, Number, MatchNumber, IsNumeral, IsHeader;
    var s0 := line[4..];
    MatchNumberIff(s0, ",", "", "");
    var s1 := MatchNumber(s0, ",").value.1;
    MatchNumberIff(s1, " +", "", "");
    var s2 := MatchNumber(s1, " +").value.1;
    MatchNumberIff(s2, ",", "", "");
    var s3 := MatchNumber(s2, ",").value.1;
    MatchNumberIff(s3, " @@", "", "");
    var rest := MatchNumber(s3, " @@").value.1;
    assert line == "@@ -" + s0;
    assert IsHeaderOf(line, Digits(s0), Digits(s1), Digits(s2), Digits(s3), rest);
    HeaderFound(line, Digits(s0), Digits(s1), Digits(s2), Digits(s3), rest);
  }

  lemma HeaderFound(line: string, d1: string, d2: string, d3: string, d4: string, rest: string)
    requires IsHeaderOf(line, d1, d2, d3, d4, rest)
    ensures IsHeader(line, Number(d1), Number(d3))
  {
  }

  // Which lines say what. A line that says none of these is not recognized.
  lemma ClassifyIff(line: string, text: string, a: nat, c: nat)
    ensures Classify(line) == SrcFile(text) <==> IsLineOf("--- ", text, line)
    ensures Classify(line) == DstFile(text) <==> IsLineOf("+++ ", text, line)
    ensures Classify(line) == ChunkStart(a, c) <==> IsHeader(line, a, c)
    ensures Classify(line) == Body(Line(Src, text)) <==> IsLineOf("-", text, line) && !("-- " <= text)
    ensures Classify(line) == Body(Line(Dst, text)) <==> IsLineOf("+", text, line) && !("++ " <= text)
    ensures Classify(line) == Body(Line(Both, text)) <==> IsLineOf(" ", text, line)
  {
    MatchRestIff("--- ", line, text);
    MatchRestIff("+++ ", line, text);
    MatchRestIff("-", line, text);
    MatchRestIff("+", line, text);
    MatchRestIff(" ", line, text);
    MatchChunkIff(line, a, c);
    FirstMark(line);
    LongerMark("--- ", "-", "-- ", line, text);
    LongerMark("+++ ", "+", "++ ", line, text);
    hide MatchRest, MatchChunk, IsLineOf, IsHeader;
  }

  lemma FirstMark(line: string)
    ensures MatchRest("--- ", line).Some? || MatchRest("-", line).Some? ==> line != "" && line[0] == '-'
    ensures MatchRest("+++ ", line).Some? || MatchRest("+", line).Some? ==> line != "" && line[0] == '+'
    ensures MatchRest(" ", line).Some? ==> line != "" && line[0] == ' '
    ensures MatchChunk(line).Some? ==> line != "" && line[0] == '@'
  {
    hide MatchNumber;
  }

  // Only a line that begins with the longer mark can have a body that begins with the rest of it.
  lemma LongerMark(long: string, short: string, more: string, line: string, text: string)
    requires long == short + more && '\n' !in long
    ensures IsLineOf(short, text, line) ==> (more <= text <==> MatchRest(long, line).Some?)
  {
    if IsLineOf(short, text, line) {
      if more <= text {
        var body := text[|more|..];
        assert text == more + body;
        assert line == long + body || line == long + body + "\n";
        MatchRestIff(long, line, body);
      }
      if MatchRest(long, line).Some? {
        var body := MatchRest(long, line).value;
        MatchRestIff(long, line, body);
        LongBody(long, short, more, line, text, body);
      }
    }
  }

  lemma LongBody(long: string, short: string, more: string, line: string, text: string, body: string)
    requires long == short + more && '\n' !in long && IsLineOf(short, text, line) && IsLineOf(long, body, line)
    ensures more <= text
  {
    var rest := line[|short|..];
    assert rest == text || rest == text + "\n";
    assert rest == more + body || rest == more + body + "\n";
    assert rest[..|more|] == more;
    assert forall i :: 0 <= i < |more| ==> long[|short| + i] == more[i];
    assert |rest| > |text| ==> rest[|text|] == '\n';
  }

  // ---- a last line without its newline

  lemma SameWithNewline(line: string)
    requires '\n' !in line
    ensures Classify(line + "\n") == Classify(line)
  {
    var withNewline := line + "\n";
    RestWithNewline("--- ", line);
    RestWithNewline("+++ ", line);
    RestWithNewline("-", line);
    RestWithNewline("+", line);
    RestWithNewline(" ", line);
    ChunkWithNewline(line);
    hide MatchRest, MatchChunk;
  }

  lemma RestWithNewline(prefix: string, line: string)
    requires '\n' !in line && '\n' !in prefix
    ensures MatchRest(prefix, line + "\n") == MatchRest(prefix, line)
  {
    PrefixBeforeNewline(prefix, line);
    if prefix <= line {
      var body := line[|prefix|..];
      assert line == prefix + body;
      MatchRestIff(prefix, line, body);
      MatchRestIff(prefix, line + "\n", body);
    }
  }

  lemma PrefixBeforeNewline(prefix: string, line: string)
    requires '\n' !in prefix
    ensures prefix <= line + "\n" <==> prefix <= line
  {
    if prefix <= line + "\n" {
      assert forall i :: 0 <= i < |prefix| ==> (line + "\n")[i] != '\n';
      assert (line + "\n")[|line|] == '\n';
    }
  }

  lemma ChunkWithNewline(line: string)
    requires '\n' !in line
    ensures MatchChunk(line + "\n") == MatchChunk(line)
  {
    hide MatchChunk, IsHeader;
    if MatchChunk(line).Some? {
      var (a, c) := MatchChunk(line).value;
      MatchChunkIff(line, a, c);
      MoreBehindHeader(line, a, c);
      MatchChunkIff(line + "\n", a, c);
    }
    if MatchChunk(line + "\n").Some? {
      var (a, c) := MatchChunk(line + "\n").value;
      MatchChunkIff(line + "\n", a, c);
      LessBehindHeader(line, a, c);
      MatchChunkIff(line, a, c);
    }
  }

  lemma MoreBehindHeader(line: string, a: nat, c: nat)
    requires IsHeader(line, a, c)
    ensures IsHeader(line + "\n", a, c)
  {
    var d1, d2, d3, d4, rest :| IsHeaderOf(line, d1, d2, d3, d4, rest) && Number(d1) == a && Number(d3) == c;
    hide Number, IsNumeral;
    assert "@@ -" + (d1 + "," + (d2 + " +" + (d3 + "," + (d4 + " @@" + rest)))) + "\n"
        == "@@ -" + (d1 + "," + (d2 + " +" + (d3 + "," + (d4 + " @@" + (rest + "\n")))));
    assert IsHeaderOf(line + "\n", d1, d2, d3, d4, rest + "\n");
  }

  lemma LessBehindHeader(line: string, a: nat, c: nat)
    requires IsHeader(line + "\n", a, c)
    ensures IsHeader(line, a, c)
  {
    var d1, d2, d3, d4, rest :|
      IsHeaderOf(line + "\n", d1, d2, d3, d4, rest) && Number(d1) == a && Number(d3) == c;
    hide Number, IsNumeral;
    var front := "@@ -" + (d1 + "," + (d2 + " +" + (d3 + "," + (d4 + " @@"))));
    assert line + "\n" == front + rest;
    assert front[|front| - 1] == '@';
    assert (line + "\n")[|line|] == '\n';
    assert rest != "" && rest[|rest| - 1] == '\n';
    assert (front + rest)[..|line|] == front + rest[..|rest| - 1] && (line + "\n")[..|line|] == line;
    assert IsHeaderOf(line, d1, d2, d3, d4, rest[..|rest| - 1]);
  }

  lemma {:induction false} SplitLast(writes: seq<string>, last: string)
    requires forall i :: 0 <= i < |writes| ==> IsTextLine(writes[i])
    requires last != "" && '\n' !in last
    ensures SplitLines(Concat(writes) + last) == writes + [last]
  {
    if writes == [] {
      SplitUnended(last);
      assert Concat(writes) + last == last;
    } else {
      SplitLast(writes[1..], last);
      SplitOne(writes[0], Concat(writes[1..]) + last);
      assert Concat(writes) + last == writes[0] + (Concat(writes[1..]) + last);
    }
  }

  lemma {:induction false} SplitUnended(last: string)
    requires last != "" && '\n' !in last
    ensures SplitLines(last) == [last]
  {
    if |last| > 1 {
      SplitUnended(last[1..]);
      assert [last[0]] + last[1..] == last;
    } else {
      assert last == [last[0]] && last[1..] == "";
    }
  }

  lemma {:induction false} ConcatLast(writes: seq<string>, w: string)
    ensures Concat(writes + [w]) == Concat(writes) + w
  {
    if writes == [] {
      assert [w][1..] == [] && writes + [w] == [w];
    } else {
      ConcatLast(writes[1..], w);
      assert (writes + [w])[1..] == writes[1..] + [w];
    }
  }

  // A text without its last character.
  ghost function Unended(text: string): string {
    if text == "" then "" else text[..|text| - 1]
  }

  lemma UnendedLines(front: seq<string>, last: string, w: string)
    requires forall i :: 0 <= i < |front| ==> IsTextLine(front[i])
    requires '\n' !in last && last != "" && w == last + "\n"
    ensures ParseLines(SplitLines(Unended(Concat(front + [w])))) == ParseLines(front + [w])
  {
    SameWithNewline(last);
    DropLast(front, last, w);
    hide *;
    SplitLast(front, last);
    SameLastLine(front, last, w);
  }

  lemma DropLast(front: seq<string>, last: string, w: string)
    requires w == last + "\n"
    ensures Unended(Concat(front + [w])) == Concat(front) + last
  {
    hide Concat;
    ConcatLast(front, w);
  }

  lemma SameLastLine(front: seq<string>, x: string, y: string)
    requires Classify(x) == Classify(y)
    ensures ParseLines(front + [x]) == ParseLines(front + [y])
  {
    hide Classify, Take;
    assert (front + [x])[..|front|] == front == (front + [y])[..|front|];
  }

  // Clean patches are read back as well when the text lacks its last newline.
  lemma UnendedTextComesBack(ps: seq<Patch>)
    requires Clean(ps) && ps != []
    ensures ParseLines(SplitLines(Unended(Concat(Writes(ps))))) == Parsed(ps)
  {
    hide Writes, Reads, ParseLines, Concat, SplitLines, CleanPatch, Speakable, IsTextLine;
    CleanIsSpeakable(ps);
    WritesAreLines(ps);
    CleanComesBack(ps);
    SomethingWritten(ps);
    UnendedWrites(Writes(ps), ps);
  }

  lemma UnendedWrites(writes: seq<string>, ps: seq<Patch>)
    requires writes != [] && (forall w :: w in writes ==> IsTextLine(w)) && Reads(writes, ps)
    ensures ParseLines(SplitLines(Unended(Concat(writes)))) == Parsed(ps)
  {
    hide *;
    var n := |writes| - 1;
    var front, w := writes[..n], writes[n];
    var last := ChopLine(w);
    ReadsMeans(writes, ps);
    NoEmptyLine(writes, n, last);
    forall i | 0 <= i < |front| ensures IsTextLine(front[i]) {
      assert front[i] == writes[i];
    }
    UnendedLines(front, last, w);
    assert writes == front + [w];
  }

  lemma ChopLine(w: string) returns (last: string)
    requires IsTextLine(w)
    ensures w == last + "\n" && '\n' !in last
  {
    last := w[..|w| - 1];
  }

  lemma ReadsMeans(writes: seq<string>, ps: seq<Patch>)
    requires Reads(writes, ps)
    ensures ParseLines(writes) == Parsed(ps)
  {
  }

  lemma SomethingWritten(ps: seq<Patch>)
    requires ps != []
    ensures Writes(ps) != []
  {
  }

  // An empty line would not have been read.
  lemma NoEmptyLine(lines: seq<string>, n: nat, last: string)
    requires n + 1 == |lines| && lines[n] == last + "\n" && ParseLines(lines).Parsed?
    ensures last != ""
  {
    FirstMark("\n");
    hide MatchRest, MatchChunk;
    assert Classify("\n") == Nothing;
    assert last == "" ==> last + "\n" == "\n";
  }

  // ---- headers

  // The places of the lines that belong to a side.
  ghost function SidePlaces(lines: seq<Line>, side: Kind): set<nat> {
    set k | 0 <= k < |lines| && (lines[k].kind == side || lines[k].kind == Both)
  }

  ghost predicate PicksAt(lines: seq<Line>, idx: seq<nat>, r: seq<Line>) {
    |r| == |idx| && forall j :: 0 <= j < |r| ==> idx[j] < |lines| && r[j] == lines[idx[j]]
  }

  // The lines of a side are those at its places, in order.
  ghost predicate Picks(lines: seq<Line>, side: Kind, r: seq<Line>) {
    exists idx :: Ascends(idx, SidePlaces(lines, side)) && PicksAt(lines, idx, r)
  }

  lemma {:induction false} SideInOrder(lines: seq<Line>, side: Kind) returns (idx: seq<nat>)
    ensures Ascends(idx, SidePlaces(lines, side)) && PicksAt(lines, idx, Side(lines, side))
  {
    if lines == [] {
      idx := [];
    } else {
      var n := |lines| - 1;
      idx := SideInOrder(lines[..n], side);
      idx := OneMoreOfSide(lines, side, idx);
    }
  }

  lemma OneMoreOfSide(lines: seq<Line>, side: Kind, idx0: seq<nat>) returns (idx: seq<nat>)
    requires lines != [] && Ascends(idx0, SidePlaces(lines[..|lines| - 1], side))
    requires PicksAt(lines[..|lines| - 1], idx0, Side(lines[..|lines| - 1], side))
    ensures Ascends(idx, SidePlaces(lines, side)) && PicksAt(lines, idx, Side(lines, side))
  {
    hide SidePlaces, Ascends, Side;
    var n := |lines| - 1;
    idx := idx0;
    SidePlacesStep(lines, side);
    SideStep(lines, side);
    if lines[n].kind == side || lines[n].kind == Both {
      AscendsTo(idx, SidePlaces(lines[..n], side), n);
      idx := idx + [n];
    } else {
      assert SidePlaces(lines, side) == SidePlaces(lines[..n], side);
    }
  }

  lemma SidePlacesStep(lines: seq<Line>, side: Kind)
    requires lines != []
    ensures var n := |lines| - 1;
      && (forall i :: i in SidePlaces(lines[..n], side) ==> i < n)
      && SidePlaces(lines, side)
           == SidePlaces(lines[..n], side) + (if lines[n].kind == side || lines[n].kind == Both then {n} else {})
  {
    var n := |lines| - 1;
    assert forall k :: 0 <= k < n ==> lines[..n][k] == lines[k];
  }

  lemma SideStep(lines: seq<Line>, side: Kind)
    requires lines != []
    ensures var n := |lines| - 1;
      Side(lines, side)
        == Side(lines[..n], side) + (if lines[n].kind == side || lines[n].kind == Both then [lines[n]] else [])
  {
  }

  lemma SidePicks(lines: seq<Line>, side: Kind)
    ensures Picks(lines, side, Side(lines, side)) && |Side(lines, side)| == |SidePlaces(lines, side)|
  {
    hide SidePlaces, Side;
    var idx := SideInOrder(lines, side);
    AscendsCount(idx, SidePlaces(lines, side));
  }

  // A header holds the two positions, and behind each the number of lines of its side.
  lemma HeaderNumbers(c: Chunk)
    ensures HeaderText(c) == "@@ -" + Signed(c.srcPos) + "," + Decimal(|SidePlaces(c.lines, Src)|)
                           + " +" + Signed(c.dstPos) + "," + Decimal(|SidePlaces(c.lines, Dst)|) + " @@\n"
  {
    hide SidePlaces, Side, Signed, Decimal;
    SidePicks(c.lines, Src);
    SidePicks(c.lines, Dst);
  }

  // ---- what a parse collects

  ghost function Srcs(ps: seq<Patch>): seq<string> {
    if ps == [] then [] else Srcs(ps[..|ps| - 1]) + [ps[|ps| - 1].src]
  }

  ghost function Dsts(ps: seq<Patch>): seq<string> {
    if ps == [] then [] else Dsts(ps[..|ps| - 1]) + [ps[|ps| - 1].dst]
  }

  ghost function ChunkCounts(ps: seq<Patch>): seq<nat> {
    if ps == [] then [] else ChunkCounts(ps[..|ps| - 1]) + [|ps[|ps| - 1].chunks|]
  }

  ghost function AllChunks(ps: seq<Patch>): seq<Chunk> {
    if ps == [] then [] else AllChunks(ps[..|ps| - 1]) + ps[|ps| - 1].chunks
  }

  // The source names that are read.
  ghost function ReadSrcs(lines: seq<string>): seq<string> {
    if lines == [] then []
    else
      var before := ReadSrcs(lines[..|lines| - 1]);
      match Classify(lines[|lines| - 1])
      case SrcFile(name) => before + [name]
      case _ => before
  }

  // For each source name, the last target name that is read before the next source name.
  ghost function ReadDsts(lines: seq<string>): seq<string> {
    if lines == [] then []
    else
      var before := ReadDsts(lines[..|lines| - 1]);
      match Classify(lines[|lines| - 1])
      case SrcFile(_) => before + [""]
      case DstFile(name) => if before == [] then [] else before[|before| - 1 := name]
      case _ => before
  }

  // For each source name, the number of headers before the next source name.
  ghost function ReadCounts(lines: seq<string>): seq<nat> {
    if lines == [] then []
    else
      var before := ReadCounts(lines[..|lines| - 1]);
      match Classify(lines[|lines| - 1])
      case SrcFile(_) => before + [0]
      case ChunkStart(_, _) => if before == [] then [] else before[|before| - 1 := before[|before| - 1] + 1]
      case _ => before
  }

  // For each header, the chunk lines before the next header, whatever names come between.
  ghost function ReadChunks(lines: seq<string>): seq<Chunk> {
    if lines == [] then []
    else
      var before := ReadChunks(lines[..|lines| - 1]);
      match Classify(lines[|lines| - 1])
      case ChunkStart(a, c) => before + [Chunk([], a, c)]
      case Body(l) =>
        if before == [] then []
        else
          var last := before[|before| - 1];
          before[|before| - 1 := last.(lines := last.lines + [l])]
      case _ => before
  }

  ghost predicate Collects(lines: seq<string>, ps: seq<Patch>) {
    && Srcs(ps) == ReadSrcs(lines) && Dsts(ps) == ReadDsts(lines)
    && ChunkCounts(ps) == ReadCounts(lines) && AllChunks(ps) == ReadChunks(lines)
  }

  lemma ParseStep(lines: seq<string>)
    requires lines != []
    ensures match ParseLines(lines[..|lines| - 1])
      case Parsed(ps) => ParseLines(lines) == Take(ps, Classify(lines[|lines| - 1]))
      case error => ParseLines(lines) == error
  {
    hide Take, Classify;
  }

  lemma NothingParsed()
    ensures ParseLines([]) == Parsed([]) && Collects([], [])
  {
  }

  // The parsed patches have the names, the numbers of chunks and the chunks that the lines give.
  lemma {:induction false} ParseCollects(lines: seq<string>)
    requires ParseLines(lines).Parsed?
    ensures Collects(lines, ParseLines(lines).patches)
  {
    NothingParsed();
    hide *;
    if lines != [] {
      var n := |lines| - 1;
      ParseStep(lines);
      ParseCollects(lines[..n]);
      TakeCollects(lines[..n], ParseLines(lines[..n]).patches, lines[n]);
      assert lines[..n] + [lines[n]] == lines;
    }
  }

  lemma TakeCollects(lines: seq<string>, ps: seq<Patch>, w: string)
    requires Collects(lines, ps) && Take(ps, Classify(w)).Parsed?
    ensures Collects(lines + [w], Take(ps, Classify(w)).patches)
  {
    hide Classify, AddLine, Srcs, Dsts, ChunkCounts, AllChunks, HasChunk;
    assert (lines + [w])[..|lines|] == lines;
    match Classify(w) {
      case SrcFile(name) => InventoryAppend(ps, Patch(name, "", []));
        assert AllChunks(ps) + [] == AllChunks(ps);
      case DstFile(name) =>
        InventoryLast(ps);
        InventoryAppend(ps[..|ps| - 1], ps[|ps| - 1].(dst := name));
      case ChunkStart(a, c) =>
        var p := ps[|ps| - 1];
        InventoryLast(ps);
        InventoryAppend(ps[..|ps| - 1], p.(chunks := p.chunks + [Chunk([], a, c)]));
        assert AllChunks(ps[..|ps| - 1]) + (p.chunks + [Chunk([], a, c)])
            == AllChunks(ps[..|ps| - 1]) + p.chunks + [Chunk([], a, c)];
      case Body(l) => InventoryAddLine(ps, l);
      case Nothing =>
    }
  }

  lemma InventoryAppend(ps: seq<Patch>, p: Patch)
    ensures Srcs(ps + [p]) == Srcs(ps) + [p.src] && Dsts(ps + [p]) == Dsts(ps) + [p.dst]
    ensures ChunkCounts(ps + [p]) == ChunkCounts(ps) + [|p.chunks|] && AllChunks(ps + [p]) == AllChunks(ps) + p.chunks
  {
    assert (ps + [p])[..|ps|] == ps;
  }

  lemma InventoryLast(ps: seq<Patch>)
    requires ps != []
    ensures var front, p := ps[..|ps| - 1], ps[|ps| - 1];
      && Srcs(ps) == Srcs(front) + [p.src] && Dsts(ps) == Dsts(front) + [p.dst]
      && ChunkCounts(ps) == ChunkCounts(front) + [|p.chunks|] && AllChunks(ps) == AllChunks(front) + p.chunks
  {
  }

  lemma {:induction false} InventoryAddLine(ps: seq<Patch>, l: Line)
    requires HasChunk(ps)
    ensures Srcs(AddLine(ps, l)) == Srcs(ps) && Dsts(AddLine(ps, l)) == Dsts(ps)
    ensures ChunkCounts(AddLine(ps, l)) == ChunkCounts(ps) && AllChunks(ps) != []
    ensures var n := |AllChunks(ps)| - 1;
      AllChunks(AddLine(ps, l)) == AllChunks(ps)[n := AllChunks(ps)[n].(lines := AllChunks(ps)[n].lines + [l])]
  {
    var n := |ps| - 1;
    var front, p := ps[..n], ps[n];
    var k := |p.chunks| - 1;
    InventoryLast(ps);
    if k >= 0 {
      var c := p.chunks[k].(lines := p.chunks[k].lines + [l]);
      InventoryAppend(front, p.(chunks := p.chunks[..k] + [c]));
      hide Srcs, Dsts, ChunkCounts, AllChunks, HasChunk;
      assert AllChunks(ps)[|AllChunks(ps)| - 1] == p.chunks[k];
      assert AllChunks(front) + (p.chunks[..k] + [c]) == (AllChunks(front) + p.chunks)[|AllChunks(ps)| - 1 := c];
    } else {
      InventoryAddLine(front, l);
      InventoryAppend(AddLine(front, l), p);
    }
  }

  // ---- which lines stop a parse

  ghost predicate SrcBefore(lines: seq<string>, i: nat) {
    exists j :: 0 <= j < i && j < |lines| && Classify(lines[j]).SrcFile?
  }

  ghost predicate HeaderBefore(lines: seq<string>, i: nat) {
    exists j :: 0 <= j < i && j < |lines| && Classify(lines[j]).ChunkStart?
  }

  // A name of a target or a header needs an earlier source name, a chunk line an earlier header.
  ghost predicate Fits(lines: seq<string>, i: nat)
    requires i < |lines|
  {
    match Classify(lines[i])
    case SrcFile(_) => true
    case DstFile(_) => SrcBefore(lines, i)
    case ChunkStart(_, _) => SrcBefore(lines, i)
    case Body(_) => HeaderBefore(lines, i)
    case Nothing => false
  }

  ghost function Failure(line: string): (p: Parse)
    ensures !p.Parsed?
  {
    match Classify(line)
    case Body(_) => UnboundLocalError
    case Nothing => Unrecognized
    case _ => AttributeError
  }

  lemma SeenBefore(lines: seq<string>, i: nat)
    requires i < |lines|
    ensures SrcBefore(lines, i + 1) <==> SrcBefore(lines, i) || Classify(lines[i]).SrcFile?
    ensures HeaderBefore(lines, i + 1) <==> HeaderBefore(lines, i) || Classify(lines[i]).ChunkStart?
    ensures i < |lines| - 1 ==> Classify(lines[..|lines| - 1][i]) == Classify(lines[i])
  {
    hide Classify;
  }

  lemma SameBefore(lines: seq<string>, i: nat)
    requires i < |lines|
    ensures SrcBefore(lines[..|lines| - 1], i) <==> SrcBefore(lines, i)
    ensures HeaderBefore(lines[..|lines| - 1], i) <==> HeaderBefore(lines, i)
  {
    hide Classify;
    var front := lines[..|lines| - 1];
    assert forall j :: 0 <= j < |front| ==> front[j] == lines[j];
  }

  lemma NothingSeen()
    ensures ParseLines([]) == Parsed([]) && !SrcBefore([], 0) && !HeaderBefore([], 0) && !HasChunk([])
  {
  }

  lemma {:induction false} ParsedHas(lines: seq<string>)
    requires ParseLines(lines).Parsed?
    ensures ParseLines(lines).patches != [] <==> SrcBefore(lines, |lines|)
    ensures HasChunk(ParseLines(lines).patches) <==> HeaderBefore(lines, |lines|)
  {
    NothingSeen();
    hide *;
    if lines != [] {
      var n := |lines| - 1;
      ParseStep(lines);
      ParsedHas(lines[..n]);
      TakeHas(ParseLines(lines[..n]).patches, Classify(lines[n]));
      SameBefore(lines, n);
      SeenBefore(lines, n);
    }
  }

  lemma TakeHas(ps: seq<Patch>, item: Item)
    requires Take(ps, item).Parsed?
    ensures Take(ps, item).patches != [] <==> ps != [] || item.SrcFile?
    ensures HasChunk(Take(ps, item).patches) <==> HasChunk(ps) || item.ChunkStart?
  {
    match item {
      case SrcFile(name) => HasChunkAppend(ps, Patch(name, "", []));
      case DstFile(name) =>
        HasChunkLast(ps);
        HasChunkAppend(ps[..|ps| - 1], ps[|ps| - 1].(dst := name));
      case ChunkStart(a, c) =>
        var p := ps[|ps| - 1];
        HasChunkAppend(ps[..|ps| - 1], p.(chunks := p.chunks + [Chunk([], a, c)]));
      case Body(l) =>
        hide AddLine;
        AddLineHas(ps, l);
      case Nothing =>
    }
  }

  lemma HasChunkAppend(ps: seq<Patch>, p: Patch)
    ensures HasChunk(ps + [p]) <==> HasChunk(ps) || p.chunks != []
  {
    if i :| 0 <= i < |ps| && ps[i].chunks != [] {
      assert (ps + [p])[i].chunks != [];
    }
    if p.chunks != [] {
      assert (ps + [p])[|ps|].chunks != [];
    }
  }

  lemma HasChunkLast(ps: seq<Patch>)
    requires ps != []
    ensures HasChunk(ps) <==> HasChunk(ps[..|ps| - 1]) || ps[|ps| - 1].chunks != []
  {
    HasChunkAppend(ps[..|ps| - 1], ps[|ps| - 1]);
    assert ps[..|ps| - 1] + [ps[|ps| - 1]] == ps;
  }

  lemma {:induction false} AddLineHas(ps: seq<Patch>, l: Line)
    requires HasChunk(ps)
    ensures AddLine(ps, l) != [] && HasChunk(AddLine(ps, l))
  {
    var n := |ps| - 1;
    var p := ps[n];
    HasChunkLast(ps);
    if p.chunks == [] {
      AddLineHas(ps[..n], l);
      HasChunkAppend(AddLine(ps[..n], l), p);
    } else {
      var k := |p.chunks| - 1;
      HasChunkAppend(ps[..n], p.(chunks := p.chunks[..k] + [p.chunks[k].(lines := p.chunks[k].lines + [l])]));
    }
  }

  // A parse succeeds exactly when every line fits, and otherwise the first line that does not
  // decides which exception is raised.
  lemma {:induction false} ParsesIff(lines: seq<string>)
    ensures ParseLines(lines).Parsed? <==> forall i :: 0 <= i < |lines| ==> Fits(lines, i)
    ensures forall i :: 0 <= i < |lines| && !Fits(lines, i) && (forall j :: 0 <= j < i ==> Fits(lines, j))
              ==> ParseLines(lines) == Failure(lines[i])
  {
    NothingParsed();
    hide *;
    if lines != [] {
      var n := |lines| - 1;
      var front := lines[..n];
      ParsesIff(front);
      ParseStep(lines);
      forall i | 0 <= i < n ensures (Fits(front, i) <==> Fits(lines, i)) && front[i] == lines[i] {
        FitsBefore(lines, i);
      }
      if ParseLines(front).Parsed? {
        LastFits(lines);
      }
    }
  }

  lemma FitsBefore(lines: seq<string>, i: nat)
    requires i < |lines| - 1
    ensures Fits(lines[..|lines| - 1], i) <==> Fits(lines, i)
  {
    hide Classify, SrcBefore, HeaderBefore;
    SameBefore(lines, i);
  }

  lemma LastFits(lines: seq<string>)
    requires lines != [] && ParseLines(lines[..|lines| - 1]).Parsed?
    ensures var n := |lines| - 1;
      if Fits(lines, n) then ParseLines(lines).Parsed? else ParseLines(lines) == Failure(lines[n])
  {
    hide Classify, HasChunk, AddLine, SrcBefore, HeaderBefore, ParseLines;
    ParseStep(lines);
    ParsedHas(lines[..|lines| - 1]);
    SameBefore(lines, |lines| - 1);
  }
}
