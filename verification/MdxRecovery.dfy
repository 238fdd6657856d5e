/**
 The MDX escaper said by its text alone: which characters come out as what, that the line can be read
 back from the output, and which lines of a document are left alone.
 */
module MdxRecovery {
  import opened MdxEscape

  // ---------------------------------------------------------------- what is written for a piece

  /** A listed prefix stands at `i`, and a `>` follows somewhere on the line. */
  ghost predicate ListedTagCloses(tags: seq<string>, line: string, i: nat) {
    && (exists t :: 0 <= t < |tags| && i + |tags[t]| <= |line| && line[i..i + |tags[t]|] == tags[t])
    && (exists n :: i <= n < |line| && line[n] == '>')
  }

  /** `{` becomes `\{`, `<` becomes `&lt;` unless it opens a span that is copied, the rest is copied. */
  ghost predicate Written(tags: seq<string>, line: string, p: Piece, text: string) {
    && p.start < p.end <= |line|
    && if line[p.start] == '{' then
         p == Piece(Brace, p.start, p.start + 1) && text == "\\{"
       else if line[p.start] != '<' then
         p == Piece(Plain, p.start, p.start + 1) && text == [line[p.start]]
       else if ListedTagCloses(tags, line, p.start) then
         && p.kind == Span && text == line[p.start..p.end]
         && line[p.end - 1] == '>' && forall m :: p.start <= m < p.end - 1 ==> line[m] != '>'
       else
         p == Piece(Less, p.start, p.start + 1) && text == "&lt;"
  }

  /** Pieces that follow one another from one end of the line to the other. */
  ghost predicate CutsLine(line: string, pieces: seq<Piece>) {
    && StartOf(pieces, 0, |line|) == 0
    && forall k :: 0 <= k < |pieces| ==> pieces[k].end == StartOf(pieces, k + 1, |line|)
  }

  ghost predicate AllWritten(tags: seq<string>, line: string, pieces: seq<Piece>, texts: seq<string>) {
    |texts| == |pieces| && forall k :: 0 <= k < |pieces| ==> Written(tags, line, pieces[k], texts[k])
  }

  lemma PrefixIff(line: string, i: nat, prefix: string)
    ensures PrefixAt(line, i, prefix) <==> i + |prefix| <= |line| && line[i..i + |prefix|] == prefix
  {
    if i + |prefix| <= |line| {
      var s := line[i..i + |prefix|];
      if PrefixAt(line, i, prefix) {
        forall m | 0 <= m < |prefix| ensures s[m] == prefix[m] { assert s[m] == line[i + m]; }
      }
      if s == prefix {
        forall m | 0 <= m < |prefix| ensures line[i + m] == prefix[m] { assert s[m] == line[i + m]; }
      }
    }
  }

  lemma TagIff(tags: seq<string>, line: string, i: nat)
    ensures TagAt(tags, line, i) <==>
            exists t :: 0 <= t < |tags| && i + |tags[t]| <= |line| && line[i..i + |tags[t]|] == tags[t]
  {
    if TagAt(tags, line, i) {
      var t :| 0 <= t < |tags| && PrefixAt(line, i, tags[t]);
      PrefixIff(line, i, tags[t]);
    }
    if t :| 0 <= t < |tags| && i + |tags[t]| <= |line| && line[i..i + |tags[t]|] == tags[t] {
      PrefixIff(line, i, tags[t]);
    }
  }

  lemma ClosesIff(tags: seq<string>, line: string, i: nat)
    requires i < |line|
    ensures ListedTagCloses(tags, line, i) <==> TagAt(tags, line, i) && CloseFrom(line, i) < |line|
  {
    TagIff(tags, line, i);
  }

  lemma WrittenIff(tags: seq<string>, line: string, p: Piece, text: string)
    requires p.start < |line|
    ensures Written(tags, line, p, text) <==> p == Head(tags, line, p.start) && EmitsAt(line, p, text)
  {
    ClosesIff(tags, line, p.start);
  }

  lemma AllWrittenIff(tags: seq<string>, line: string, pieces: seq<Piece>, texts: seq<string>)
    ensures CutsLine(line, pieces) && AllWritten(tags, line, pieces, texts) <==>
            IsCut(tags, line, 0, pieces) && Emits(line, pieces, texts)
  {
    if CutsLine(line, pieces) && AllWritten(tags, line, pieces, texts) {
      forall k | 0 <= k < |pieces| ensures PieceOk(tags, line, pieces, k) && EmitsAt(line, pieces[k], texts[k]) {
        assert Written(tags, line, pieces[k], texts[k]);
        WrittenIff(tags, line, pieces[k], texts[k]);
      }
    }
    if IsCut(tags, line, 0, pieces) && Emits(line, pieces, texts) {
      forall k | 0 <= k < |pieces|
        ensures Written(tags, line, pieces[k], texts[k]) && pieces[k].end == StartOf(pieces, k + 1, |line|)
      {
        PieceAt(tags, line, pieces, texts, k);
        WrittenIff(tags, line, pieces[k], texts[k]);
      }
    }
  }

  /** Some cut of the line writes this output. */
  ghost predicate WritesTo(tags: seq<string>, line: string, out: string) {
    exists pieces, texts ::
      CutsLine(line, pieces) && AllWritten(tags, line, pieces, texts) && out == Joined(texts, |texts|)
  }

  /** Main result: the output is the one text that the rules write for the line. */
  lemma EscapedIffWritten(tags: seq<string>, line: string, out: string)
    ensures out == EscapedLine(tags, line) <==> WritesTo(tags, line, out)
  {
    var pieces, texts := Emitted(tags, line);
    AllWrittenIff(tags, line, pieces, texts);
    if WritesTo(tags, line, out) {
      var ps, ts :| CutsLine(line, ps) && AllWritten(tags, line, ps, ts) && out == Joined(ts, |ts|);
      AllWrittenIff(tags, line, ps, ts);
      JoinedIsEscaped(tags, line, ps, ts);
    }
  }

  // ---------------------------------------------------------------- reading a line back

  function Restored(text: string): string {
    if text == "\\{" then "{" else if text == "&lt;" then "<" else text
  }

  function RestoredAll(texts: seq<string>): (r: seq<string>)
    ensures |r| == |texts|
  {
    seq(|texts|, k requires 0 <= k < |texts| => Restored(texts[k]))
  }

  lemma PieceRestored(tags: seq<string>, line: string, p: Piece, text: string)
    requires Written(tags, line, p, text)
    ensures Restored(text) == line[p.start..p.end]
  {
    var piece := line[p.start..p.end];
    assert piece[0] == line[p.start];
    if p.kind == Span { assert text[0] == '<'; }
  }

  ghost predicate IsSlice(line: string, i: nat, j: nat, text: string) {
    i <= j <= |line| && text == line[i..j]
  }

  /** Texts that are consecutive slices of a line, between these bounds, join to the line. */
  ghost predicate Slices(line: string, bounds: seq<nat>, texts: seq<string>) {
    && |bounds| == |texts| + 1 && bounds[0] == 0
    && (forall k :: 0 <= k < |texts| ==> IsSlice(line, bounds[k], bounds[k + 1], texts[k]))
  }

  lemma {:induction false} SlicesJoin(line: string, bounds: seq<nat>, texts: seq<string>, n: nat)
    requires Slices(line, bounds, texts) && n <= |texts|
    ensures bounds[n] <= |line| && Joined(texts, n) == line[..bounds[n]]
  {
    if n == 0 {
    } else {
      SlicesJoin(line, bounds, texts, n - 1);
      assert IsSlice(line, bounds[n - 1], bounds[n], texts[n - 1]);
      assert line[..bounds[n]] == line[..bounds[n - 1]] + line[bounds[n - 1]..bounds[n]];
    }
  }

  function Bounds(pieces: seq<Piece>, n: nat): (bounds: seq<nat>)
    ensures |bounds| == |pieces| + 1
  {
    seq(|pieces| + 1, k requires 0 <= k <= |pieces| => StartOf(pieces, k, n))
  }

  lemma PieceIsSlice(tags: seq<string>, line: string, pieces: seq<Piece>, texts: seq<string>, k: nat)
    requires CutsLine(line, pieces) && AllWritten(tags, line, pieces, texts) && k < |pieces|
    ensures IsSlice(line, StartOf(pieces, k, |line|), StartOf(pieces, k + 1, |line|), Restored(texts[k]))
  {
    assert Written(tags, line, pieces[k], texts[k]);
    PieceRestored(tags, line, pieces[k], texts[k]);
  }

  lemma PiecesAreSlices(tags: seq<string>, line: string, pieces: seq<Piece>, texts: seq<string>)
    requires CutsLine(line, pieces) && AllWritten(tags, line, pieces, texts)
    ensures Slices(line, Bounds(pieces, |line|), RestoredAll(texts))
  {
    var bounds, back := Bounds(pieces, |line|), RestoredAll(texts);
    forall k | 0 <= k < |back| ensures IsSlice(line, bounds[k], bounds[k + 1], back[k]) {
      assert back[k] == Restored(texts[k]);
      PieceIsSlice(tags, line, pieces, texts, k);
    }
  }

  lemma PiecesRestored(tags: seq<string>, line: string, pieces: seq<Piece>, texts: seq<string>)
    requires CutsLine(line, pieces) && AllWritten(tags, line, pieces, texts)
    ensures Joined(RestoredAll(texts), |texts|) == line
  {
    PiecesAreSlices(tags, line, pieces, texts);
    SlicesJoin(line, Bounds(pieces, |line|), RestoredAll(texts), |texts|);
    assert Bounds(pieces, |line|)[|texts|] == |line|;
    assert line[..|line|] == line;
  }

  /** Main result: turning each written `\{` and `&lt;` back gives the line, with nothing lost. */
  lemma LineRecovered(tags: seq<string>, line: string) returns (pieces: seq<Piece>, texts: seq<string>)
    ensures CutsLine(line, pieces) && AllWritten(tags, line, pieces, texts)
    ensures Joined(texts, |texts|) == EscapedLine(tags, line)
    ensures Joined(RestoredAll(texts), |texts|) == line
  {
    pieces, texts := Emitted(tags, line);
    AllWrittenIff(tags, line, pieces, texts);
    PiecesRestored(tags, line, pieces, texts);
  }

  // ---------------------------------------------------------------- one character

  /** The output of a piece stands where the output of the pieces before it ends. */
  lemma TextInOutput(texts: seq<string>, k: nat)
    requires k < |texts|
    ensures PrefixAt(Joined(texts, |texts|), |Joined(texts, k)|, texts[k])
  {
    var out, o := Joined(texts, |texts|), |Joined(texts, k)|;
    assert o + |texts[k]| <= |out| by { JoinedPrefix(texts, k + 1, |texts|); }
    forall m | 0 <= m < |texts[k]| ensures out[o + m] == texts[k][m] { CharOfOutput(texts, k, o + m); }
  }

  lemma WrittenAlone(tags: seq<string>, line: string, p: Piece, text: string, j: nat)
    requires Written(tags, line, p, text) && p.kind != Span && p.start <= j < p.end
    ensures text == if line[j] == '{' then "\\{" else if line[j] == '<' then "&lt;" else [line[j]]
  {
  }

  /** Outside the copied spans every character comes out by itself: as `\{`, as `&lt;`, or as it is. */
  lemma CharOnLine(tags: seq<string>, line: string, j: nat) returns (o: nat, text: string)
    requires j < |line| && !Copied(Cut(tags, line), j)
    ensures PrefixAt(EscapedLine(tags, line), o, text)
    ensures text == if line[j] == '{' then "\\{" else if line[j] == '<' then "&lt;" else [line[j]]
  {
    var pieces, texts := Emitted(tags, line);
    AllWrittenIff(tags, line, pieces, texts);
    var k := PieceOfInput(tags, line, pieces, |pieces|, j);
    CopiedOf(tags, line, pieces, k, j);
    assert Written(tags, line, pieces[k], texts[k]);
    WrittenAlone(tags, line, pieces[k], texts[k], j);
    TextInOutput(texts, k);
    o, text := |Joined(texts, k)|, texts[k];
  }

  /** A position is copied exactly when a listed tag that closes stands at or before it, up to its first `>`. */
  lemma CopiedIff(tags: seq<string>, line: string, j: nat, pieces: seq<Piece>, k: nat)
    requires pieces == Cut(tags, line) && k < |pieces| && pieces[k].start <= j < pieces[k].end <= |line|
    ensures Copied(pieces, j) <==> line[pieces[k].start] == '<' && ListedTagCloses(tags, line, pieces[k].start)
  {
    CutFromIsCut(tags, line, 0);
    CopiedOf(tags, line, pieces, k, j);
    assert PieceOk(tags, line, pieces, k);
    ClosesIff(tags, line, pieces[k].start);
  }

  // ---------------------------------------------------------------- which lines are escaped

  ghost predicate MarkerAt(line: string, n: nat) {
    && n + 3 <= |line| && line[n] == '`' && line[n + 1] == '`' && line[n + 2] == '`'
    && forall m :: 0 <= m < n ==> IsSpace(line[m])
  }

  lemma MarkerBehind(line: string, n: nat)
    requires line != [] && IsSpace(line[0])
    ensures MarkerAt(line, n + 1) <==> MarkerAt(line[1..], n)
    ensures !MarkerAt(line, 0)
  {
    var rest := line[1..];
    assert forall m :: 0 <= m < |rest| ==> rest[m] == line[m + 1];
    if MarkerAt(rest, n) {
      forall m | 0 <= m < n + 1 ensures IsSpace(line[m]) { if m > 0 { assert rest[m - 1] == line[m]; } }
    }
  }

  /** A marker line is white space and then three backticks. */
  lemma {:induction false} FenceIff(line: string)
    ensures IsFence(line) <==> exists n: nat :: MarkerAt(line, n)
  {
    if line != [] && IsSpace(line[0]) {
      FenceIff(line[1..]);
      if n: nat :| MarkerAt(line[1..], n) { MarkerBehind(line, n); }
      if n: nat :| MarkerAt(line, n) {
        MarkerBehind(line, 0);
        MarkerBehind(line, n - 1);
      }
    } else {
      if IsFence(line) {
        var three := line[..3];
        assert three[0] == line[0] && three[1] == line[1] && three[2] == line[2];
        assert MarkerAt(line, 0);
      }
      if n: nat :| MarkerAt(line, n) {
        assert n == 0;
        assert line[..3] == "```";
      }
    }
  }

  function Fences(lines: seq<string>, n: nat): set<nat>
    requires n <= |lines|
  {
    set i: nat | 0 <= i < n && IsFence(lines[i])
  }

  lemma FencesGrow(lines: seq<string>, n: nat)
    requires n < |lines|
    ensures Fences(lines, n + 1) == Fences(lines, n) + (if IsFence(lines[n]) then {n} else {})
  {
  }

  lemma {:induction false} FencesCounted(lines: seq<string>, n: nat)
    requires n <= |lines|
    ensures FencesBefore(lines, n) == |Fences(lines, n)|
  {
    if n == 0 {
      assert Fences(lines, n) == {};
    } else {
      FencesCounted(lines, n - 1);
      FencesGrow(lines, n - 1);
    }
  }

  /** Main result: a line is escaped exactly when it is no marker and an even number of markers stands above it. */
  lemma OutputByFences(tags: seq<string>, lines: seq<string>, n: nat)
    requires n < |lines|
    ensures OutputLine(tags, lines, n) ==
            if IsFence(lines[n]) || |Fences(lines, n)| % 2 == 1 then lines[n] else EscapedLine(tags, lines[n])
  {
    FencesCounted(lines, n);
  }
}
