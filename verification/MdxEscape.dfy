/** Escaping crate READMEs for MDX: fences are copied, prose braces and angle brackets are escaped. */
module MdxEscape {
  // ---------------------------------------------------------------- lines

  predicate OneLine(s: string) {
    '\n' !in s
  }

  function Split(s: string): (lines: seq<string>)
    ensures lines != [] && forall i :: 0 <= i < |lines| ==> OneLine(lines[i])
  {
    if s == [] then [[]]
    else
      var rest := Split(s[1..]);
      if s[0] == '\n' then [[]] + rest else [[s[0]] + rest[0]] + rest[1..]
  }

  function Join(lines: seq<string>): string
    requires lines != []
  {
    if |lines| == 1 then lines[0] else lines[0] + "\n" + Join(lines[1..])
  }

  lemma {:induction false} SplitPrefix(line: string, s: string)
    requires OneLine(line)
    ensures Split(line + s) == [line + Split(s)[0]] + Split(s)[1..]
  {
    if line == [] {
      assert line + s == s && line + Split(s)[0] == Split(s)[0];
      assert [Split(s)[0]] + Split(s)[1..] == Split(s);
    } else {
      SplitPrefix(line[1..], s);
      assert (line + s)[1..] == line[1..] + s;
      assert [line[0]] + (line[1..] + Split(s)[0]) == line + Split(s)[0];
    }
  }

  /** Lines without line breaks survive joining and splitting. */
  lemma {:induction false} SplitJoin(lines: seq<string>)
    requires lines != [] && forall i :: 0 <= i < |lines| ==> OneLine(lines[i])
    ensures Split(Join(lines)) == lines
  {
    if |lines| == 1 {
      SplitPrefix(lines[0], []);
      assert lines[0] + [] == lines[0];
    } else {
      var rest := lines[1..];
      SplitJoin(rest);
      SplitPrefix(lines[0], "\n" + Join(rest));
      var tail := "\n" + Join(rest);
      assert tail[1..] == Join(rest);
      assert Split(tail) == [[]] + rest;
      assert lines[0] + [] == lines[0];
      assert Join(lines) == lines[0] + tail;
    }
  }

  lemma {:induction false} JoinSplit(s: string)
    ensures Join(Split(s)) == s
  {
    if s == [] {
    } else {
      JoinSplit(s[1..]);
      var rest := Split(s[1..]);
      if s[0] == '\n' {
        assert Split(s)[1..] == rest;
      } else {
        assert Split(s)[1..] == rest[1..];
      }
    }
  }

  // ---------------------------------------------------------------- fences

  /** ECMAScript white space, `\s`. */
  predicate IsSpace(c: char) {
    c in "\t\n\r " || c as int in {0x0B, 0x0C, 0xA0, 0x1680, 0x2028, 0x2029, 0x202F, 0x205F, 0x3000, 0xFEFF}
    || 0x2000 <= c as int <= 0x200A
  }

  /** A line matched by "optional white space, then three backticks". */
  predicate IsFence(line: string) {
    if line != [] && IsSpace(line[0]) then IsFence(line[1..]) else |line| >= 3 && line[..3] == "```"
  }

  function FencesBefore(lines: seq<string>, n: nat): nat
    requires n <= |lines|
  {
    if n == 0 then 0 else FencesBefore(lines, n - 1) + (if IsFence(lines[n - 1]) then 1 else 0)
  }

  /** A fence marker, or a line with an odd number of markers above it. */
  predicate Verbatim(lines: seq<string>, n: nat)
    requires n < |lines|
  {
    IsFence(lines[n]) || FencesBefore(lines, n) % 2 == 1
  }

  // ---------------------------------------------------------------- the scanner

  /** The prefixes that pass through; the scanner is stated for any such list. */
  const COMPONENT_TAGS := ["<RepoFile", "</RepoFile", "<Aside", "</Aside", "<Callout", "</Callout"]

  predicate PrefixAt(line: string, i: nat, prefix: string) {
    i + |prefix| <= |line| && forall m :: 0 <= m < |prefix| ==> line[i + m] == prefix[m]
  }

  predicate TagAt(tags: seq<string>, line: string, i: nat) {
    exists t :: 0 <= t < |tags| && PrefixAt(line, i, tags[t])
  }

  /** `indexOf('>', i)`, or the length when there is none. */
  function CloseFrom(line: string, i: nat): (n: nat)
    requires i <= |line|
    ensures i <= n <= |line| && (n < |line| ==> line[n] == '>') && forall m :: i <= m < n ==> line[m] != '>'
    decreases |line| - i
  {
    if i == |line| || line[i] == '>' then i else CloseFrom(line, i + 1)
  }

  /** How a prose line is cut: plain characters, escaped ones, and spans that are copied whole. */
  datatype Kind = Plain | Brace | Less | Span
  datatype Piece = Piece(kind: Kind, start: nat, end: nat)

  /** The piece that starts at `i`. */
  function Head(tags: seq<string>, line: string, i: nat): (p: Piece)
    requires i < |line|
    ensures p.start == i < p.end <= |line|
  {
    if line[i] == '{' then Piece(Brace, i, i + 1)
    else if line[i] != '<' then Piece(Plain, i, i + 1)
    else if TagAt(tags, line, i) && CloseFrom(line, i) < |line| then Piece(Span, i, CloseFrom(line, i) + 1)
    else Piece(Less, i, i + 1)
  }

  function Target(line: string, p: Piece): string
    requires p.start <= p.end <= |line|
  {
    match p.kind
    case Brace => "\\{"
    case Less => "&lt;"
    case Plain => if p.start < |line| then [line[p.start]] else ""
    case Span => line[p.start..p.end]
  }

  function EscapedFrom(tags: seq<string>, line: string, i: nat): string
    requires i <= |line|
    decreases |line| - i
  {
    if i == |line| then ""
    else
      var p := Head(tags, line, i);
      Target(line, p) + EscapedFrom(tags, line, p.end)
  }

  function EscapedLine(tags: seq<string>, line: string): string {
    EscapedFrom(tags, line, 0)
  }

  /** One turn of the scanner: what it appends and how far it moves. */
  method EscapeNext(tags: seq<string>, line: string, i: nat) returns (text: string, next: nat)
    requires i < |line|
    ensures next == Head(tags, line, i).end && text == Target(line, Head(tags, line, i))
  {
    if line[i] == '{' { return "\\{", i + 1; }
    if line[i] == '<' {
      if TagAt(tags, line, i) {
        var close := CloseFrom(line, i);
        if close < |line| { return line[i..close + 1], close + 1; }
      }
      return "&lt;", i + 1;
    }
    return [line[i]], i + 1;
  }

  /** `escapeMdxProseLine`. */
  method EscapeProseLine(tags: seq<string>, line: string) returns (result: string)
    ensures result == EscapedLine(tags, line)
  {
    result := "";
    var i := 0;
    while i < |line|
      invariant i <= |line| && result + EscapedFrom(tags, line, i) == EscapedLine(tags, line)
    {
      var text, next := EscapeNext(tags, line, i);
      result, i := result + text, next;
    }
    assert result + "" == result;
  }

  // ---------------------------------------------------------------- the pieces of a line

  function CutFrom(tags: seq<string>, line: string, i: nat): seq<Piece>
    requires i <= |line|
    decreases |line| - i
  {
    if i == |line| then []
    else
      var p := Head(tags, line, i);
      [p] + CutFrom(tags, line, p.end)
  }

  function Cut(tags: seq<string>, line: string): seq<Piece> {
    CutFrom(tags, line, 0)
  }

  /** The start of the k-th piece, or the end of the line. */
  function StartOf(pieces: seq<Piece>, k: nat, n: nat): nat {
    if k < |pieces| then pieces[k].start else n
  }

  ghost predicate PieceOk(tags: seq<string>, line: string, pieces: seq<Piece>, k: nat)
    requires k < |pieces|
  {
    && pieces[k].start < pieces[k].end <= |line|
    && pieces[k] == Head(tags, line, pieces[k].start)
    && StartOf(pieces, k + 1, |line|) == pieces[k].end
  }

  /** Consecutive pieces from `i` to the end of the line, each as the scanner finds it. */
  ghost predicate IsCut(tags: seq<string>, line: string, i: nat, pieces: seq<Piece>) {
    && StartOf(pieces, 0, |line|) == i
    && forall k :: 0 <= k < |pieces| ==> PieceOk(tags, line, pieces, k)
  }

  lemma {:induction false} CutFromIsCut(tags: seq<string>, line: string, i: nat)
    requires i <= |line|
    ensures IsCut(tags, line, i, CutFrom(tags, line, i))
    decreases |line| - i
  {
    if i == |line| {
    } else {
      var p := Head(tags, line, i);
      var rest := CutFrom(tags, line, p.end);
      CutFromIsCut(tags, line, p.end);
      forall k | 0 <= k < |[p] + rest| ensures PieceOk(tags, line, [p] + rest, k) {
        if k > 0 { assert PieceOk(tags, line, rest, k - 1); }
      }
    }
  }

  lemma {:induction false} PiecesInOrder(tags: seq<string>, line: string, pieces: seq<Piece>, k: nat, l: nat)
    requires IsCut(tags, line, 0, pieces) && k < l < |pieces|
    ensures pieces[k].end <= pieces[l].start
  {
    assert PieceOk(tags, line, pieces, l - 1);
    if k == l - 1 {
    } else {
      PiecesInOrder(tags, line, pieces, k, l - 1);
    }
  }

  lemma {:induction false} PieceOfInput(tags: seq<string>, line: string, pieces: seq<Piece>, n: nat, j: nat)
    returns (k: nat)
    requires IsCut(tags, line, 0, pieces) && n <= |pieces| && j < StartOf(pieces, n, |line|)
    ensures k < n && pieces[k].start <= j < pieces[k].end
  {
    assert n > 0;
    assert PieceOk(tags, line, pieces, n - 1);
    if pieces[n - 1].start <= j {
      k := n - 1;
    } else {
      k := PieceOfInput(tags, line, pieces, n - 1, j);
    }
  }

  /** Nothing of the line is lost or reordered: every position lies in exactly one piece. */
  lemma CutCoversLine(tags: seq<string>, line: string, j: nat) returns (k: nat)
    requires j < |line|
    ensures IsCut(tags, line, 0, Cut(tags, line))
    ensures k < |Cut(tags, line)| && Cut(tags, line)[k].start <= j < Cut(tags, line)[k].end
    ensures forall l :: 0 <= l < |Cut(tags, line)| && l != k ==>
                        !(Cut(tags, line)[l].start <= j < Cut(tags, line)[l].end)
  {
    CutFromIsCut(tags, line, 0);
    var pieces := Cut(tags, line);
    k := PieceOfInput(tags, line, pieces, |pieces|, j);
    forall l | 0 <= l < |pieces| && l != k ensures !(pieces[l].start <= j < pieces[l].end) {
      if l < k { PiecesInOrder(tags, line, pieces, l, k); } else { PiecesInOrder(tags, line, pieces, k, l); }
    }
  }

  ghost predicate EmitsAt(line: string, p: Piece, text: string) {
    p.start <= p.end <= |line| && text == Target(line, p)
  }

  /** What each piece emits, in order. */
  ghost predicate Emits(line: string, pieces: seq<Piece>, texts: seq<string>) {
    |texts| == |pieces| && forall k :: 0 <= k < |pieces| ==> EmitsAt(line, pieces[k], texts[k])
  }

  lemma PieceAt(tags: seq<string>, line: string, pieces: seq<Piece>, texts: seq<string>, k: nat)
    requires IsCut(tags, line, 0, pieces) && Emits(line, pieces, texts) && k < |pieces|
    ensures var p := pieces[k];
            && p.start < p.end <= |line| && p == Head(tags, line, p.start) && EmitsAt(line, p, texts[k])
            && StartOf(pieces, k, |line|) == p.start && StartOf(pieces, k + 1, |line|) == p.end
  {
    assert PieceOk(tags, line, pieces, k);
  }

  /** What the first `k` pieces emit together. */
  function Joined(texts: seq<string>, k: nat): string
    requires k <= |texts|
  {
    if k == 0 then "" else Joined(texts, k - 1) + texts[k - 1]
  }

  /** Texts that split off a row of remainders one by one join to the difference of the remainders. */
  lemma {:induction false} JoinedTelescopes(texts: seq<string>, rests: seq<string>, k: nat)
    requires |rests| == |texts| + 1 && forall i :: 0 <= i < |texts| ==> rests[i] == texts[i] + rests[i + 1]
    requires k <= |texts|
    ensures Joined(texts, k) + rests[k] == rests[0]
  {
    if k == 0 {
      assert "" + rests[0] == rests[0];
    } else {
      JoinedTelescopes(texts, rests, k - 1);
    }
  }

  lemma EscapedStep(tags: seq<string>, line: string, p: Piece, text: string)
    requires p.start < |line| && p == Head(tags, line, p.start) && EmitsAt(line, p, text)
    ensures EscapedFrom(tags, line, p.start) == text + EscapedFrom(tags, line, p.end)
  {
  }

  lemma StartsWithin(tags: seq<string>, line: string, pieces: seq<Piece>)
    requires IsCut(tags, line, 0, pieces)
    ensures forall k :: 0 <= k <= |pieces| ==> StartOf(pieces, k, |line|) <= |line|
  {
    forall k | 0 <= k < |pieces| ensures pieces[k].start <= |line| { assert PieceOk(tags, line, pieces, k); }
  }

  /** What is still to come before each piece. */
  ghost predicate IsRest(tags: seq<string>, line: string, i: nat, rest: string) {
    i <= |line| && rest == EscapedFrom(tags, line, i)
  }

  ghost predicate AreRests(tags: seq<string>, line: string, pieces: seq<Piece>, rests: seq<string>) {
    |rests| == |pieces| + 1 &&
    forall k :: 0 <= k <= |pieces| ==> IsRest(tags, line, StartOf(pieces, k, |line|), rests[k])
  }

  lemma RestsExist(tags: seq<string>, line: string, pieces: seq<Piece>) returns (rests: seq<string>)
    requires IsCut(tags, line, 0, pieces)
    ensures AreRests(tags, line, pieces, rests)
  {
    StartsWithin(tags, line, pieces);
    rests := seq(|pieces| + 1, k requires 0 <= k <= |pieces| => EscapedFrom(tags, line, StartOf(pieces, k, |line|)));
  }

  lemma RestSplits(tags: seq<string>, line: string, pieces: seq<Piece>, texts: seq<string>, rests: seq<string>, k: nat)
    requires IsCut(tags, line, 0, pieces) && Emits(line, pieces, texts) && k < |pieces|
    requires AreRests(tags, line, pieces, rests)
    ensures rests[k] == texts[k] + rests[k + 1]
  {
    PieceAt(tags, line, pieces, texts, k);
    assert IsRest(tags, line, pieces[k].start, rests[k]) && IsRest(tags, line, pieces[k].end, rests[k + 1]);
    EscapedStep(tags, line, pieces[k], texts[k]);
  }

  lemma JoinedIsRest(tags: seq<string>, line: string, pieces: seq<Piece>, texts: seq<string>, rests: seq<string>)
    requires IsCut(tags, line, 0, pieces) && Emits(line, pieces, texts) && AreRests(tags, line, pieces, rests)
    ensures Joined(texts, |texts|) + rests[|texts|] == rests[0]
  {
    forall k | 0 <= k < |texts| ensures rests[k] == texts[k] + rests[k + 1] {
      RestSplits(tags, line, pieces, texts, rests, k);
    }
    JoinedTelescopes(texts, rests, |texts|);
  }

  lemma JoinedIsEscaped(tags: seq<string>, line: string, pieces: seq<Piece>, texts: seq<string>)
    requires IsCut(tags, line, 0, pieces) && Emits(line, pieces, texts)
    ensures Joined(texts, |texts|) == EscapedLine(tags, line)
  {
    var rests := RestsExist(tags, line, pieces);
    JoinedIsRest(tags, line, pieces, texts, rests);
    assert IsRest(tags, line, 0, rests[0]) && IsRest(tags, line, |line|, rests[|texts|]);
    assert Joined(texts, |texts|) + "" == Joined(texts, |texts|);
  }

  function TextsOf(line: string, pieces: seq<Piece>): (texts: seq<string>)
    requires forall k :: 0 <= k < |pieces| ==> pieces[k].start <= pieces[k].end <= |line|
    ensures Emits(line, pieces, texts)
  {
    seq(|pieces|, k requires 0 <= k < |pieces| => Target(line, pieces[k]))
  }

  /** The cut of a line, what its pieces emit, and that this is the whole output. */
  lemma Emitted(tags: seq<string>, line: string) returns (pieces: seq<Piece>, texts: seq<string>)
    ensures pieces == Cut(tags, line) && IsCut(tags, line, 0, pieces) && Emits(line, pieces, texts)
    ensures Joined(texts, |texts|) == EscapedLine(tags, line)
  {
    pieces := Cut(tags, line);
    CutFromIsCut(tags, line, 0);
    forall k | 0 <= k < |pieces| ensures pieces[k].start <= pieces[k].end <= |line| {
      assert PieceOk(tags, line, pieces, k);
    }
    texts := TextsOf(line, pieces);
    JoinedIsEscaped(tags, line, pieces, texts);
  }

  /** The output of the first pieces is a prefix of the output of more. */
  lemma {:induction false} JoinedPrefix(texts: seq<string>, k: nat, n: nat)
    requires k <= n <= |texts|
    ensures Joined(texts, k) <= Joined(texts, n)
  {
    if k == n {
    } else {
      JoinedPrefix(texts, k, n - 1);
    }
  }

  /** The piece an output position belongs to. */
  predicate OutputOf(texts: seq<string>, k: nat, o: nat) {
    k < |texts| && |Joined(texts, k)| <= o < |Joined(texts, k)| + |texts[k]|
  }

  lemma {:induction false} PieceOfOutput(texts: seq<string>, n: nat, o: nat) returns (k: nat)
    requires n <= |texts| && o < |Joined(texts, n)|
    ensures k < n && OutputOf(texts, k, o)
  {
    assert n > 0;
    if |Joined(texts, n - 1)| <= o {
      k := n - 1;
    } else {
      k := PieceOfOutput(texts, n - 1, o);
    }
  }

  lemma OutputOfIsUnique(texts: seq<string>, k: nat, l: nat, o: nat)
    requires OutputOf(texts, k, o) && OutputOf(texts, l, o)
    ensures k == l
  {
    if k < l { JoinedPrefix(texts, k + 1, l); }
    if l < k { JoinedPrefix(texts, l + 1, k); }
  }

  /** The character at an output position, seen from its piece. */
  lemma CharOfOutput(texts: seq<string>, k: nat, o: nat)
    requires OutputOf(texts, k, o)
    ensures var out, m := Joined(texts, |texts|), o - |Joined(texts, k)|;
            o < |out| && out[o] == texts[k][m]
  {
    JoinedPrefix(texts, k + 1, |texts|);
    var most := Joined(texts, k + 1);
    assert most[o] == texts[k][o - |Joined(texts, k)|];
  }

  /** Position `o` of the output lies in a span that was copied. */
  ghost predicate InSpan(pieces: seq<Piece>, texts: seq<string>, o: nat) {
    exists k :: 0 <= k < |pieces| && pieces[k].kind == Span && OutputOf(texts, k, o)
  }

  lemma InSpanOf(pieces: seq<Piece>, texts: seq<string>, k: nat, o: nat)
    requires |texts| == |pieces| && k < |pieces| && OutputOf(texts, k, o)
    ensures InSpan(pieces, texts, o) <==> pieces[k].kind == Span
  {
    forall l | 0 <= l < |pieces| && OutputOf(texts, l, o) ensures l == k { OutputOfIsUnique(texts, k, l, o); }
  }

  /** Position `j` of the input line lies in such a span. */
  predicate Copied(pieces: seq<Piece>, j: nat) {
    exists k :: 0 <= k < |pieces| && pieces[k].kind == Span && pieces[k].start <= j < pieces[k].end
  }

  lemma CopiedOf(tags: seq<string>, line: string, pieces: seq<Piece>, k: nat, j: nat)
    requires IsCut(tags, line, 0, pieces) && k < |pieces| && pieces[k].start <= j < pieces[k].end
    ensures Copied(pieces, j) <==> pieces[k].kind == Span
  {
    forall l | 0 <= l < |pieces| && pieces[l].start <= j < pieces[l].end ensures l == k {
      if l < k { PiecesInOrder(tags, line, pieces, l, k); }
      if k < l { PiecesInOrder(tags, line, pieces, k, l); }
    }
  }

  // ---------------------------------------------------------------- what stays live on a line

  /** Length of the run of backslashes that ends before position `n`. */
  function Backslashes(s: string, n: nat): nat
    requires n <= |s|
  {
    if n == 0 || s[n - 1] != '\\' then 0 else 1 + Backslashes(s, n - 1)
  }

  lemma {:induction false} BackslashesOfPrefix(s: string, t: string, n: nat)
    requires n <= |s| && s <= t
    ensures Backslashes(t, n) == Backslashes(s, n)
  {
    if n == 0 {
    } else {
      BackslashesOfPrefix(s, t, n - 1);
    }
  }

  /** One text adds a backslash to the run or ends it. */
  predicate CountStep(text: string, before: nat, after: nat) {
    if text == ['\\'] then after == before + 1
    else text != [] && text[|text| - 1] != '\\' && after == 0
  }

  lemma {:induction false} JoinedCount(texts: seq<string>, counts: seq<nat>, k: nat)
    requires |counts| == |texts| + 1 && counts[0] == 0
    requires forall i :: 0 <= i < |texts| ==> CountStep(texts[i], counts[i], counts[i + 1])
    requires k <= |texts|
    ensures Backslashes(Joined(texts, k), |Joined(texts, k)|) == counts[k]
  {
    if k == 0 {
    } else {
      JoinedCount(texts, counts, k - 1);
      assert CountStep(texts[k - 1], counts[k - 1], counts[k]);
      var first, most := Joined(texts, k - 1), Joined(texts, k);
      BackslashesOfPrefix(first, most, |first|);
    }
  }

  lemma PlainEmits(tags: seq<string>, line: string, p: Piece, text: string)
    requires p.start < |line| && p == Head(tags, line, p.start) && EmitsAt(line, p, text) && p.kind == Plain
    ensures text == [line[p.start]] && p.end == p.start + 1
  {
  }

  lemma PieceCounts(tags: seq<string>, line: string, p: Piece, text: string)
    requires p.start < |line| && p == Head(tags, line, p.start) && EmitsAt(line, p, text)
    ensures CountStep(text, Backslashes(line, p.start), Backslashes(line, p.end))
  {
    if p.kind == Plain { PlainEmits(tags, line, p, text); }
  }

  /** Before any piece, input and output end in the same number of backslashes. */
  lemma BackslashesKept(tags: seq<string>, line: string, pieces: seq<Piece>, texts: seq<string>, k: nat)
    requires IsCut(tags, line, 0, pieces) && Emits(line, pieces, texts) && k < |pieces|
    ensures pieces[k].start <= |line|
    ensures Backslashes(Joined(texts, k), |Joined(texts, k)|) == Backslashes(line, pieces[k].start)
  {
    StartsWithin(tags, line, pieces);
    var counts := seq(|pieces| + 1, i requires 0 <= i <= |pieces| => Backslashes(line, StartOf(pieces, i, |line|)));
    forall i | 0 <= i < |texts| ensures CountStep(texts[i], counts[i], counts[i + 1]) {
      PieceAt(tags, line, pieces, texts, i);
      PieceCounts(tags, line, pieces[i], texts[i]);
    }
    JoinedCount(texts, counts, k);
  }

  /** A character MDX would act on: `<`, or `{` after an even number of backslashes. */
  predicate Live(s: string, i: nat)
    requires i < |s|
  {
    s[i] == '<' || (s[i] == '{' && Backslashes(s, i) % 2 == 0)
  }

  lemma EscapedBraceOutput(texts: seq<string>, k: nat)
    requires k < |texts| && texts[k] == "\\{"
    ensures var out, first := Joined(texts, |texts|), Joined(texts, k);
            && OutputOf(texts, k, |first| + 1) && |first| + 1 < |out| && out[|first| + 1] == '{'
            && (Live(out, |first| + 1) <==> Backslashes(first, |first|) % 2 == 1)
  {
    var first := Joined(texts, k);
    CharOfOutput(texts, k, |first|);
    CharOfOutput(texts, k, |first| + 1);
    JoinedPrefix(texts, k, |texts|);
    BackslashesOfPrefix(first, Joined(texts, |texts|), |first|);
  }

  /** Where an escaped brace comes out, and when it is live there. */
  lemma BraceEscapedIff(tags: seq<string>, line: string, pieces: seq<Piece>, texts: seq<string>, k: nat)
    requires IsCut(tags, line, 0, pieces) && Emits(line, pieces, texts) && k < |pieces| && pieces[k].kind == Brace
    ensures var out, o, j := Joined(texts, |texts|), |Joined(texts, k)| + 1, pieces[k].start;
            && OutputOf(texts, k, o) && o < |out| && out[o] == '{' && j < |line| && line[j] == '{'
            && (Live(out, o) <==> Backslashes(line, j) % 2 == 1)
  {
    PieceAt(tags, line, pieces, texts, k);
    BackslashesKept(tags, line, pieces, texts, k);
    EscapedBraceOutput(texts, k);
  }

  /** Every brace outside the copied spans comes out at some position, live exactly by the parity before it. */
  lemma BraceOnLine(tags: seq<string>, line: string, pieces: seq<Piece>, texts: seq<string>, j: nat) returns (o: nat)
    requires IsCut(tags, line, 0, pieces) && Emits(line, pieces, texts)
    requires j < |line| && line[j] == '{' && !Copied(pieces, j)
    ensures o < |Joined(texts, |texts|)| && Joined(texts, |texts|)[o] == '{' && !InSpan(pieces, texts, o)
    ensures Live(Joined(texts, |texts|), o) <==> Backslashes(line, j) % 2 == 1
  {
    var k := PieceOfInput(tags, line, pieces, |pieces|, j);
    CopiedOf(tags, line, pieces, k, j);
    assert PieceOk(tags, line, pieces, k);
    BraceEscapedIff(tags, line, pieces, texts, k);
    o := |Joined(texts, k)| + 1;
    InSpanOf(pieces, texts, k, o);
  }

  /** Outside the copied spans the only candidates are the braces the scanner escaped. */
  lemma CandidateIsBrace(tags: seq<string>, line: string, pieces: seq<Piece>, texts: seq<string>, o: nat)
    returns (k: nat)
    requires IsCut(tags, line, 0, pieces) && Emits(line, pieces, texts) && o < |Joined(texts, |texts|)|
    requires Joined(texts, |texts|)[o] == '<' || Joined(texts, |texts|)[o] == '{'
    requires !InSpan(pieces, texts, o)
    ensures k < |pieces| && pieces[k].kind == Brace && texts[k] == "\\{" && o == |Joined(texts, k)| + 1
  {
    k := PieceOfOutput(texts, |texts|, o);
    PieceAt(tags, line, pieces, texts, k);
    CharOfOutput(texts, k, o);
    InSpanOf(pieces, texts, k, o);
  }

  /** A live output position outside the copied spans is a brace that was already escaped. */
  lemma LiveComesFrom(tags: seq<string>, line: string, pieces: seq<Piece>, texts: seq<string>, o: nat) returns (j: nat)
    requires IsCut(tags, line, 0, pieces) && Emits(line, pieces, texts) && o < |Joined(texts, |texts|)|
    requires Live(Joined(texts, |texts|), o) && !InSpan(pieces, texts, o)
    ensures j < |line| && line[j] == '{' && !Copied(pieces, j) && Backslashes(line, j) % 2 == 1
  {
    var k := CandidateIsBrace(tags, line, pieces, texts, o);
    BraceEscapedIff(tags, line, pieces, texts, k);
    j := pieces[k].start;
    assert PieceOk(tags, line, pieces, k);
    CopiedOf(tags, line, pieces, k, j);
  }

  /** Position `o` of a line's output lies in a span copied from the line. */
  ghost predicate InCopiedSpan(tags: seq<string>, line: string, o: nat) {
    exists texts :: Emits(line, Cut(tags, line), texts) && InSpan(Cut(tags, line), texts, o)
  }

  lemma InCopiedSpanOf(tags: seq<string>, line: string, texts: seq<string>, o: nat)
    requires Emits(line, Cut(tags, line), texts)
    ensures InCopiedSpan(tags, line, o) <==> InSpan(Cut(tags, line), texts, o)
  {
    forall other | Emits(line, Cut(tags, line), other) ensures other == texts {
      forall k | 0 <= k < |texts| ensures other[k] == texts[k] {
        assert EmitsAt(line, Cut(tags, line)[k], other[k]) && EmitsAt(line, Cut(tags, line)[k], texts[k]);
      }
    }
  }

  /** What is left live in the output stands in copied spans. */
  ghost predicate OnlySpansLive(tags: seq<string>, line: string, out: string) {
    forall o :: 0 <= o < |out| && Live(out, o) ==> InCopiedSpan(tags, line, o)
  }

  /** No brace outside the copied spans was already escaped in the input. */
  ghost predicate BracesBare(tags: seq<string>, line: string) {
    forall j :: 0 <= j < |line| && line[j] == '{' && !Copied(Cut(tags, line), j) ==>
                Backslashes(line, j) % 2 == 0
  }

  /** Main result for a prose line: only copied spans stay live exactly when no brace came escaped. */
  lemma OnlySpansLiveIff(tags: seq<string>, line: string)
    ensures OnlySpansLive(tags, line, EscapedLine(tags, line)) <==> BracesBare(tags, line)
  {
    var out := EscapedLine(tags, line);
    var pieces, texts := Emitted(tags, line);
    forall o ensures InCopiedSpan(tags, line, o) <==> InSpan(pieces, texts, o) {
      InCopiedSpanOf(tags, line, texts, o);
    }
    if BracesBare(tags, line) {
      forall o | 0 <= o < |out| && Live(out, o) ensures InSpan(pieces, texts, o) {
        if !InSpan(pieces, texts, o) { var j := LiveComesFrom(tags, line, pieces, texts, o); }
      }
    }
    if OnlySpansLive(tags, line, out) {
      forall j | 0 <= j < |line| && line[j] == '{' && !Copied(pieces, j) ensures Backslashes(line, j) % 2 == 0 {
        var o := BraceOnLine(tags, line, pieces, texts, j);
      }
    }
  }

  /** Whatever the input: outside the copied spans no `<` is left, and a backslash precedes every `{`. */
  lemma OnlySpansOpen(tags: seq<string>, line: string, o: nat)
    requires o < |EscapedLine(tags, line)|
    requires EscapedLine(tags, line)[o] == '<' || EscapedLine(tags, line)[o] == '{'
    ensures InCopiedSpan(tags, line, o) ||
            (EscapedLine(tags, line)[o] == '{' && o > 0 && EscapedLine(tags, line)[o - 1] == '\\')
  {
    var pieces, texts := Emitted(tags, line);
    InCopiedSpanOf(tags, line, texts, o);
    if !InSpan(pieces, texts, o) {
      var k := CandidateIsBrace(tags, line, pieces, texts, o);
      CharOfOutput(texts, k, o);
      CharOfOutput(texts, k, o - 1);
    }
  }

  // ---------------------------------------------------------------- running the scanner on given lines

  lemma PlainAt(tags: seq<string>, line: string, i: nat)
    requires i < |line| && line[i] != '{' && line[i] != '<'
    ensures EscapedFrom(tags, line, i) == [line[i]] + EscapedFrom(tags, line, i + 1)
  {
    EscapedStep(tags, line, Piece(Plain, i, i + 1), [line[i]]);
  }

  /** A listed prefix is copied with everything up to the first `>`. */
  lemma SpanAt(tags: seq<string>, line: string, i: nat, n: nat, text: string)
    requires i < n < |line| && line[i] == '<' && TagAt(tags, line, i)
    requires line[n] == '>' && forall m :: i <= m < n ==> line[m] != '>'
    requires EmitsAt(line, Piece(Span, i, n + 1), text)
    ensures EscapedFrom(tags, line, i) == text + EscapedFrom(tags, line, n + 1)
  {
    EscapedStep(tags, line, Piece(Span, i, n + 1), text);
  }

  /** The smallest failing line: an already escaped brace comes out live. */
  lemma AlreadyEscapedBraceComesOutLive(tags: seq<string>)
    ensures EscapedLine(tags, "\\{") == "\\\\{" && Live("\\\\{", 2)
    ensures !BracesBare(tags, "\\{")
  {
    var line := "\\{";
    PlainAt(tags, line, 0);
    assert [line[0]] + ("\\{" + "") == "\\\\{";
    var out := "\\\\{";
    assert Backslashes(line, 1) == 1 + Backslashes(line, 0) && Backslashes(out, 2) == 1 + Backslashes(out, 1);
    CutFromIsCut(tags, line, 0);
    assert Head(tags, line, 1) == Piece(Brace, 1, 2);
    var k := CutCoversLine(tags, line, 1);
    assert PieceOk(tags, line, Cut(tags, line), k) && Cut(tags, line)[k].kind != Span;
    CopiedOf(tags, line, Cut(tags, line), k, 1);
  }

  // ---------------------------------------------------------------- what a copied span is

  /** A copied span is a listed prefix and everything after it up to the first `>`. */
  lemma CopiedSpansAreListed(tags: seq<string>, line: string, k: nat)
    requires k < |Cut(tags, line)| && Cut(tags, line)[k].kind == Span
    ensures var p := Cut(tags, line)[k];
            && p.start < p.end <= |line| && TagAt(tags, line, p.start) && line[p.start] == '<'
            && line[p.end - 1] == '>' && forall m :: p.start <= m < p.end - 1 ==> line[m] != '>'
  {
    CutFromIsCut(tags, line, 0);
    assert PieceOk(tags, line, Cut(tags, line), k);
  }

  // The name. The scanner tests a bare prefix; which characters continue an element name is a parameter.

  function NameEnd(nameChar: char -> bool, line: string, i: nat): (n: nat)
    requires i <= |line|
    ensures i <= n <= |line| && (forall m :: i <= m < n ==> nameChar(line[m])) && (n < |line| ==> !nameChar(line[n]))
    decreases |line| - i
  {
    if i < |line| && nameChar(line[i]) then NameEnd(nameChar, line, i + 1) else i
  }

  /** Where the element name of a tag at `i` ends. */
  function OpeningEnd(nameChar: char -> bool, line: string, i: nat): (n: nat)
    requires i < |line|
    ensures i < n <= |line|
  {
    NameEnd(nameChar, line, if i + 1 < |line| && line[i + 1] == '/' then i + 2 else i + 1)
  }

  /** The tag at `i` opens with exactly this list entry: same name, same slash. */
  predicate OpensWith(nameChar: char -> bool, line: string, i: nat, tag: string)
    requires i < |line|
  {
    PrefixAt(line, i, tag) && OpeningEnd(nameChar, line, i) == i + |tag|
  }

  /** A list entry is the opening of a tag and nothing more. */
  predicate ProperTag(nameChar: char -> bool, tag: string) {
    |tag| >= 2 && OpeningEnd(nameChar, tag, 0) == |tag|
  }

  predicate NamesListed(nameChar: char -> bool, tags: seq<string>, line: string, i: nat)
    requires i < |line|
  {
    exists t :: 0 <= t < |tags| && OpensWith(nameChar, line, i, tags[t])
  }

  /** A listed prefix after which the name ends. */
  predicate PrefixEndsName(nameChar: char -> bool, line: string, i: nat, tag: string) {
    PrefixAt(line, i, tag) && (i + |tag| == |line| || !nameChar(line[i + |tag|]))
  }

  lemma OpensWithIff(nameChar: char -> bool, line: string, i: nat, tag: string)
    requires i < |line| && ProperTag(nameChar, tag) && PrefixAt(line, i, tag)
    ensures OpensWith(nameChar, line, i, tag) <==> PrefixEndsName(nameChar, line, i, tag)
  {
    assert line[i + 1] == tag[1];
    var start := if tag[1] == '/' then 2 else 1;
    assert NameEnd(nameChar, tag, start) == |tag|;
    forall m | i + start <= m < i + |tag| ensures nameChar(line[m]) { assert line[i + (m - i)] == tag[m - i]; }
  }

  /** A copied span names a listed component exactly when the character after a matched prefix ends the name. */
  lemma CopiedSpanNamesListedIff(nameChar: char -> bool, tags: seq<string>, line: string, k: nat)
    requires forall t :: 0 <= t < |tags| ==> ProperTag(nameChar, tags[t])
    requires k < |Cut(tags, line)| && Cut(tags, line)[k].kind == Span
    ensures Cut(tags, line)[k].start < |line|
    ensures NamesListed(nameChar, tags, line, Cut(tags, line)[k].start) <==>
            exists t :: 0 <= t < |tags| && PrefixEndsName(nameChar, line, Cut(tags, line)[k].start, tags[t])
  {
    CopiedSpansAreListed(tags, line, k);
    var i := Cut(tags, line)[k].start;
    forall t | 0 <= t < |tags| && PrefixAt(line, i, tags[t])
      ensures OpensWith(nameChar, line, i, tags[t]) <==> PrefixEndsName(nameChar, line, i, tags[t])
    {
      OpensWithIff(nameChar, line, i, tags[t]);
    }
  }

  predicate AsciiName(c: char) {
    'a' <= c <= 'z' || 'A' <= c <= 'Z' || '0' <= c <= '9' || c == '_' || c == '$' || c == '-' || c == '.' || c == ':'
  }

  lemma LongerName(tags: seq<string>, line: string)
    requires line == "<Asides>" && tags == COMPONENT_TAGS
    ensures !NamesListed(AsciiName, tags, line, 0)
  {
    assert AsciiName(line[6]) && line[1] == 'A' && !AsciiName(line[7]);
    forall t | 0 <= t < |tags| && PrefixAt(line, 0, tags[t]) ensures |tags[t]| == 6 {
      assert tags[t][1] == line[0 + 1];
    }
  }

  /** A longer name with a listed prefix is copied live although it names no listed component. */
  lemma LongerNameIsCopied()
    ensures EscapedLine(COMPONENT_TAGS, "<Asides>") == "<Asides>"
    ensures !NamesListed(AsciiName, COMPONENT_TAGS, "<Asides>", 0)
  {
    var line := "<Asides>";
    assert PrefixAt(line, 0, COMPONENT_TAGS[2]);
    SpanAt(COMPONENT_TAGS, line, 0, 7, line[0..8]);
    assert line[0..8] + "" == line;
    LongerName(COMPONENT_TAGS, line);
  }

  // The end. A tag ends at the first `>` outside quotes and braces; the scanner takes the first `>`.

  /** Where a left-to-right reader of a tag stands. */
  datatype Reading =
    | Outside
    | Quoted(quote: char)
    | Expression(depth: nat)
    | InString(depth: nat, quote: char)
    | Escaped(depth: nat, quote: char)

  function ReadChar(r: Reading, c: char): Reading {
    match r
    case Outside => if c == '"' || c == '\'' then Quoted(c) else if c == '{' then Expression(1) else Outside
    case Quoted(q) => if c == q then Outside else r
    case Expression(d) =>
      if c == '{' then Expression(d + 1)
      else if c == '}' then (if d <= 1 then Outside else Expression(d - 1))
      else if c == '"' || c == '\'' || c == '`' then InString(d, c)
      else r
    case InString(d, q) => if c == '\\' then Escaped(d, q) else if c == q then Expression(d) else r
    case Escaped(d, q) => InString(d, q)
  }

  /** The reader's state before position `n` of a tag that opens at `i`. */
  function ReadingAt(line: string, i: nat, n: nat): Reading
    requires i <= n <= |line|
  {
    if n == i then Outside else ReadChar(ReadingAt(line, i, n - 1), line[n - 1])
  }

  predicate Closes(line: string, i: nat, n: nat)
    requires i <= n < |line|
  {
    line[n] == '>' && ReadingAt(line, i, n) == Outside
  }

  /** The tag that opens at `i` ends just before `end`. */
  ghost predicate TagEndsAt(line: string, i: nat, end: nat) {
    i < end <= |line| && Closes(line, i, end - 1) && forall m :: i <= m < end - 1 ==> !Closes(line, i, m)
  }

  /** A copied span is the whole tag exactly when no quote or brace is open before its `>`. */
  lemma CopiedSpanCompleteIff(tags: seq<string>, line: string, k: nat)
    requires k < |Cut(tags, line)| && Cut(tags, line)[k].kind == Span
    ensures var p := Cut(tags, line)[k];
            p.start < p.end <= |line| &&
            (TagEndsAt(line, p.start, p.end) <==> ReadingAt(line, p.start, p.end - 1) == Outside)
  {
    CopiedSpansAreListed(tags, line, k);
  }

  lemma {:induction false} PlainReading(line: string, i: nat, n: nat)
    requires i <= n <= |line|
    requires forall m :: i <= m < n ==> line[m] != '"' && line[m] != '\'' && line[m] != '{'
    ensures ReadingAt(line, i, n) == Outside
  {
    if n == i {
    } else {
      PlainReading(line, i, n - 1);
    }
  }

  const CUT_TAG := "<Aside a={b>{}}/>"

  /** What matters of that line: a listed tag, a `>` inside an expression, and a brace after it. */
  ghost predicate CutShort(tags: seq<string>, line: string) {
    && |line| == 17 && line[0] == '<' && TagAt(tags, line, 0)
    && line[9] == '{' && line[10] == 'b' && line[11] == '>' && line[12] == '{'
    && (forall m :: 0 <= m < 11 ==> line[m] != '>')
    && (forall m :: 0 <= m < 9 ==> line[m] != '"' && line[m] != '\'' && line[m] != '{')
    && (forall m :: 13 <= m < 17 ==> line[m] != '{' && line[m] != '<')
  }

  lemma CutTagIsCutShort(line: string)
    requires line == CUT_TAG
    ensures CutShort(COMPONENT_TAGS, line)
  {
    assert COMPONENT_TAGS[2] == "<Aside";
    assert PrefixAt(line, 0, COMPONENT_TAGS[2]);
  }

  /** The copied span ends inside the first expression of the tag ... */
  lemma CutShortStaysOpen(tags: seq<string>, line: string)
    requires CutShort(tags, line)
    ensures Head(tags, line, 0) == Piece(Span, 0, 12) && ReadingAt(line, 0, 11) == Expression(1)
  {
    PlainReading(line, 0, 9);
    assert ReadingAt(line, 0, 10) == Expression(1);
  }

  /** ... and a later brace of the same tag comes out escaped. */
  lemma CutShortIsDamaged(tags: seq<string>, line: string)
    requires CutShort(tags, line)
    ensures EscapedLine(tags, line) == line[0..12] + ("\\{" + line[13..17])
  {
    SpanAt(tags, line, 0, 11, line[0..12]);
    PlainAt(tags, line, 13);
    PlainAt(tags, line, 14);
    PlainAt(tags, line, 15);
    PlainAt(tags, line, 16);
    assert [line[13]] + ([line[14]] + ([line[15]] + ([line[16]] + ""))) == line[13..17];
  }

  /** A `>` in an attribute cuts the tag short and damages what follows. */
  lemma CutTagIsDamaged()
    ensures Head(COMPONENT_TAGS, CUT_TAG, 0) == Piece(Span, 0, 12) && ReadingAt(CUT_TAG, 0, 11) == Expression(1)
    ensures EscapedLine(COMPONENT_TAGS, CUT_TAG) == CUT_TAG[0..12] + ("\\{" + CUT_TAG[13..17])
  {
    CutTagIsCutShort(CUT_TAG);
    CutShortStaysOpen(COMPONENT_TAGS, CUT_TAG);
    CutShortIsDamaged(COMPONENT_TAGS, CUT_TAG);
  }

  // ---------------------------------------------------------------- whole documents

  lemma {:induction false} EscapedIsOneLine(tags: seq<string>, line: string, i: nat)
    requires OneLine(line) && i <= |line|
    ensures OneLine(EscapedFrom(tags, line, i))
    decreases |line| - i
  {
    if i == |line| {
    } else {
      var p := Head(tags, line, i);
      EscapedIsOneLine(tags, line, p.end);
      forall m | 0 <= m < |Target(line, p)| ensures Target(line, p)[m] != '\n' {
        if p.kind == Plain || p.kind == Span { assert line[p.start..p.end][m] == line[p.start + m]; }
      }
    }
  }

  function OutputLine(tags: seq<string>, lines: seq<string>, n: nat): string
    requires n < |lines|
  {
    if Verbatim(lines, n) then lines[n] else EscapedLine(tags, lines[n])
  }

  ghost predicate LineDone(tags: seq<string>, lines: seq<string>, n: nat, line: string)
    requires n < |lines|
  {
    line == OutputLine(tags, lines, n) && OneLine(line)
  }

  /** The loop over lines with its fence flag. */
  method EscapeLines(tags: seq<string>, lines: seq<string>) returns (out: seq<string>)
    requires forall n :: 0 <= n < |lines| ==> OneLine(lines[n])
    ensures |out| == |lines|
    ensures forall n :: 0 <= n < |lines| ==> LineDone(tags, lines, n, out[n])
  {
    var inFence := false;
    out := [];
    for n := 0 to |lines|
      invariant |out| == n && inFence == (FencesBefore(lines, n) % 2 == 1)
      invariant forall k :: 0 <= k < n ==> LineDone(tags, lines, k, out[k])
    {
      var line := lines[n];
      if IsFence(line) {
        inFence := !inFence;
      } else if !inFence {
        line := EscapeProseLine(tags, line);
        EscapedIsOneLine(tags, lines[n], 0);
      }
      assert LineDone(tags, lines, n, line);
      out := out + [line];
    }
  }

  /** `escapeMdxOutsideFences`: same number of lines, fenced ones verbatim, the others escaped. */
  method EscapeOutsideFences(markdown: string) returns (escaped: string)
    ensures |Split(escaped)| == |Split(markdown)|
    ensures forall n :: 0 <= n < |Split(markdown)| ==>
                        Split(escaped)[n] == OutputLine(COMPONENT_TAGS, Split(markdown), n)
    ensures forall n :: 0 <= n < |Split(markdown)| && !Verbatim(Split(markdown), n) ==>
                        (OnlySpansLive(COMPONENT_TAGS, Split(markdown)[n], Split(escaped)[n]) <==>
                         BracesBare(COMPONENT_TAGS, Split(markdown)[n]))
  {
    var out := EscapeLines(COMPONENT_TAGS, Split(markdown));
    assert forall n :: 0 <= n < |out| ==> LineDone(COMPONENT_TAGS, Split(markdown), n, out[n]);
    escaped := Join(out);
    SplitJoin(out);
    forall n | 0 <= n < |out| && !Verbatim(Split(markdown), n)
      ensures OnlySpansLive(COMPONENT_TAGS, Split(markdown)[n], out[n]) <==>
              BracesBare(COMPONENT_TAGS, Split(markdown)[n])
    {
      OnlySpansLiveIff(COMPONENT_TAGS, Split(markdown)[n]);
    }
  }
}
