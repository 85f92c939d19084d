/** The numeric differ of tools/ndiff.py. Line `lineA` (from the file named by the
    second argument) gives the layout and is what is emitted; line `lineB` (from the
    first argument) is paired with it token by token, and every pair of integer or
    decimal tokens is replaced by the difference A - B, left-padded to the width of
    the A token. */
module NDiff {
  import opened Scan
  import opened Patterns
  import opened Numbers

  /** `format(float(a) - float(b), "." + str(digits) + "f")`. Floating-point
      arithmetic and formatting are not modelled: the formatter is a parameter. */
  type Formatter = (string, string, nat) -> string

  /** Both tokens match the same numeric pattern. */
  predicate NumericPair(a: string, b: string) {
    (IsInteger(a) && IsInteger(b)) || (IsDecimal(a) && IsDecimal(b))
  }

  /** What the loop body emits for the A token `a` paired with the B token `b`. */
  function Replace(a: string, b: string, fmt: Formatter): (r: string)
    ensures |r| >= |a|
  {
    if IsInteger(b) then
      if IsInteger(a) then Padded(IntToString(ParseDigits(a) - ParseDigits(b)), |a|) else a
    else if IsDecimal(b) then
      if IsDecimal(a) then Padded(fmt(a, b, FractionDigits(b)), |a|) else a
    else a
  }

  /** The A token passes through unchanged unless both tokens match the same numeric
      pattern; in particular an integer B token never pairs with a decimal A token,
      because the decimal test is only reached when B is not an integer. */
  lemma ReplacePassThrough(a: string, b: string, fmt: Formatter)
    ensures !NumericPair(a, b) ==> Replace(a, b, fmt) == a
    ensures IsInteger(b) && !IsInteger(a) ==> Replace(a, b, fmt) == a
    ensures !IsInteger(b) && !IsDecimal(b) ==> Replace(a, b, fmt) == a
  {
  }

  /** Two integer tokens become the decimal string of A - B, left-padded with spaces
      to the width of the A token and never truncated. */
  lemma IntegerDiff(a: string, b: string, fmt: Formatter)
    requires IsInteger(a) && IsInteger(b)
    ensures PaddedTo(Replace(a, b, fmt), IntToString(ParseDigits(a) - ParseDigits(b)), |a|)
    ensures IsSigned(IntToString(ParseDigits(a) - ParseDigits(b)))
    ensures ParseInt(IntToString(ParseDigits(a) - ParseDigits(b))) == ParseDigits(a) - ParseDigits(b)
  {
    var d := ParseDigits(a) - ParseDigits(b);
    assert Replace(a, b, fmt) == Padded(IntToString(d), |a|);
    IntRoundTrip(d);
  }

  /** Two decimal tokens become the formatted difference with as many fractional
      digits as the B token has, left-padded to the width of the A token. */
  lemma DecimalDiff(a: string, b: string, fmt: Formatter)
    requires IsDecimal(a) && IsDecimal(b)
    ensures PaddedTo(Replace(a, b, fmt), fmt(a, b, FractionDigits(b)), |a|)
  {
    IntegerNotDecimal(b);
  }

  /** The k-th token of a line, or "" once the line has no k-th piece: past the end
      the `\S*` search matches the empty string. */
  function TokenAt(ps: seq<Piece>, k: nat): (t: string) {
    if k < |ps| then ps[k].black else ""
  }

  /** The text emitted for the first `k` pieces of lineA, `psA`, the i-th paired
      with the i-th token of lineB's pieces `psB`. */
  function Render(psA: seq<Piece>, psB: seq<Piece>, fmt: Formatter, k: nat): (out: string)
    requires k <= |psA|
  {
    if k == 0 then ""
    else
      Render(psA, psB, fmt, k - 1) + psA[k - 1].white
        + Replace(psA[k - 1].black, TokenAt(psB, k - 1), fmt)
  }

  /** What the per-line loop writes for `lineA` paired with `lineB`. */
  function EmitLine(lineA: string, lineB: string, fmt: Formatter): (out: string) {
    var psA := Pieces(lineA, 0);
    Render(psA, Pieces(lineB, 0), fmt, |psA|)
  }

  /** The classification after the four searches of the per-line loop: classify the
      B token, and when the A token matches the same pattern replace it by the
      padded difference. */
  method DiffToken(blackA: string, blackB: string, fmt: Formatter) returns (r: string)
    ensures r == Replace(blackA, blackB, fmt)
  {
    r := blackA;
    if IsInteger(blackB) {
      if IsInteger(blackA) {
        r := PadLeft(IntToString(ParseDigits(blackA) - ParseDigits(blackB)), |blackA|);
      }
    } else if IsDecimal(blackB) {
      var digits := FractionDigits(blackB);
      if IsDecimal(blackA) {
        r := PadLeft(fmt(blackA, blackB, digits), |blackA|);
      }
    }
  }

  /** The per-line loop: four cursors and four accumulators, one whitespace run and
      one token run taken from each line per iteration, until lineA is consumed. */
  method ProcessLine(lineA: string, lineB: string, fmt: Formatter) returns (out: string)
    ensures out == EmitLine(lineA, lineB, fmt)
  {
    var whiteBEnd: nat, blackBEnd: nat, whiteAEnd: nat, blackAEnd: nat := 0, 0, 0, 0;
    var whiteB, blackB, whiteA, blackA := "", "", "", "";
    out := "";
    ghost var psA := Pieces(lineA, 0);
    ghost var psB := Pieces(lineB, 0);
    ghost var k: nat := 0;
    while blackAEnd != |lineA|
      invariant blackAEnd <= |lineA| && blackBEnd <= |lineB|
      invariant k <= |psA| && Pieces(lineA, blackAEnd) == psA[k..]
      invariant Pieces(lineB, blackBEnd) == psB[if k < |psB| then k else |psB|..]
      invariant out == Render(psA, psB, fmt, k)
      decreases |lineA| - blackAEnd
    {
      ghost var posA, posB := blackAEnd, blackBEnd;
      var m := Search(Whitespace, lineB, blackBEnd);
      whiteB, whiteBEnd := m.group, m.end;
      m := Search(Whitespace, lineA, blackAEnd);
      whiteA, whiteAEnd := m.group, m.end;
      m := Search(Blackspace, lineB, whiteBEnd);
      blackB, blackBEnd := m.group, m.end;
      m := Search(Blackspace, lineA, whiteAEnd);
      blackA, blackAEnd := m.group, m.end;

      // The A side took the k-th piece of lineA; the B side the k-th piece of
      // lineB, or "" past its end.
      assert Step(lineA, posA) == (Piece(whiteA, blackA), blackAEnd);
      PiecesAt(lineA, posA, psA, k);
      assert Step(lineB, posB) == (Piece(whiteB, blackB), blackBEnd);
      PiecesAtB(lineB, posB, psB, k);

      blackA := DiffToken(blackA, blackB, fmt);
      out := out + whiteA + blackA;
      k := k + 1;
    }
    assert psA[k..] == [];
  }

  /** The cursor at `pos` holds the k-th piece: one pass takes it and leaves the
      cursor on the next. */
  lemma PiecesAt(line: string, pos: nat, ps: seq<Piece>, k: nat)
    requires pos < |line| && k <= |ps| && Pieces(line, pos) == ps[k..]
    ensures k < |ps| && ps[k] == Step(line, pos).0
    ensures Pieces(line, Step(line, pos).1) == ps[k + 1..]
  {
    assert ps[k..][1..] == ps[k + 1..];
  }

  /** On the B side the cursor holds the k-th piece, or sits at the end of the line
      once B has fewer than k + 1 pieces; either way the token found is the k-th. */
  lemma PiecesAtB(line: string, pos: nat, ps: seq<Piece>, k: nat)
    requires pos <= |line| && Pieces(line, pos) == ps[if k < |ps| then k else |ps|..]
    ensures Step(line, pos).0.black == TokenAt(ps, k)
    ensures Pieces(line, Step(line, pos).1) == ps[if k + 1 < |ps| then k + 1 else |ps|..]
  {
    if pos < |line| {
      assert k < |ps|;
      PiecesAt(line, pos, ps, k);
    } else {
      assert ps[if k < |ps| then k else |ps|..] == [];
    }
  }

  /** Reconstruction: when no token pair is numeric, the loop writes lineA back
      exactly, whitespace and trailing newline included. */
  lemma EmitLineReconstructs(lineA: string, lineB: string, fmt: Formatter)
    requires forall k :: 0 <= k < |Pieces(lineA, 0)| ==>
      !NumericPair(Pieces(lineA, 0)[k].black, TokenAt(Pieces(lineB, 0), k))
    ensures EmitLine(lineA, lineB, fmt) == lineA
  {
    var psA := Pieces(lineA, 0);
    RenderIdentity(psA, Pieces(lineB, 0), fmt, |psA|);
    TextFlatten(psA, 0, |psA|);
    assert psA[0..|psA|] == psA;
    PiecesFlatten(lineA, 0);
  }

  lemma {:induction false} RenderIdentity(psA: seq<Piece>, psB: seq<Piece>, fmt: Formatter, k: nat)
    requires k <= |psA|
    requires forall j :: 0 <= j < k ==> !NumericPair(psA[j].black, TokenAt(psB, j))
    ensures Render(psA, psB, fmt, k) == Text(psA, 0, k)
  {
    if k > 0 {
      RenderIdentity(psA, psB, fmt, k - 1);
      ReplacePassThrough(psA[k - 1].black, TokenAt(psB, k - 1), fmt);
    }
  }

  /** Width: the emitted line is never narrower than lineA, since every token is
      emitted at least as wide as the A token it replaces. */
  lemma EmitLineWidth(lineA: string, lineB: string, fmt: Formatter)
    ensures |EmitLine(lineA, lineB, fmt)| >= |lineA|
  {
    var psA := Pieces(lineA, 0);
    RenderWidth(psA, Pieces(lineB, 0), fmt, |psA|);
    TextFlatten(psA, 0, |psA|);
    assert psA[0..|psA|] == psA;
    PiecesFlatten(lineA, 0);
  }

  lemma {:induction false} RenderWidth(psA: seq<Piece>, psB: seq<Piece>, fmt: Formatter, k: nat)
    requires k <= |psA|
    ensures |Render(psA, psB, fmt, k)| >= |Text(psA, 0, k)|
  {
    if k > 0 {
      RenderWidth(psA, psB, fmt, k - 1);
    }
  }

  /** A piece of lineA with no partner in lineB is emitted as it is. */
  lemma RenderUnpaired(psA: seq<Piece>, psB: seq<Piece>, fmt: Formatter, k: nat)
    requires |psB| < k <= |psA|
    ensures Render(psA, psB, fmt, k)
      == Render(psA, psB, fmt, k - 1) + psA[k - 1].white + psA[k - 1].black
  {
    assert TokenAt(psB, k - 1) == "";
    assert !NumericPair(psA[k - 1].black, "");
    ReplacePassThrough(psA[k - 1].black, "", fmt);
  }

  /** Positional pairing past the end of lineB: once lineB has no k-th piece, its
      token is "", which matches neither pattern, so the rest of lineA is emitted
      unchanged. */
  lemma {:induction false} RenderBeyondB(psA: seq<Piece>, psB: seq<Piece>, fmt: Formatter, k: nat)
    requires |psB| <= k <= |psA|
    ensures Render(psA, psB, fmt, k) == Render(psA, psB, fmt, |psB|) + Text(psA, |psB|, k)
  {
    var n := |psB|;
    if k > n {
      var head, tail, p := Render(psA, psB, fmt, n), Text(psA, n, k - 1), psA[k - 1];
      RenderBeyondB(psA, psB, fmt, k - 1);
      RenderUnpaired(psA, psB, fmt, k);
      assert Text(psA, n, k) == tail + p.white + p.black;
      assert head + tail + p.white + p.black == head + (tail + p.white + p.black);
    }
  }

  lemma EmitLineBeyondB(lineA: string, lineB: string, fmt: Formatter)
    requires |Pieces(lineB, 0)| <= |Pieces(lineA, 0)|
    ensures var psA, psB := Pieces(lineA, 0), Pieces(lineB, 0);
      EmitLine(lineA, lineB, fmt) == Render(psA, psB, fmt, |psB|) + Flatten(psA[|psB|..])
  {
    var psA, psB := Pieces(lineA, 0), Pieces(lineB, 0);
    RenderBeyondB(psA, psB, fmt, |psA|);
    TextFlatten(psA, |psB|, |psA|);
    assert psA[|psB|..|psA|] == psA[|psB|..];
  }

  /** A B line without integer or decimal tokens. */
  predicate NoNumbers(line: string) {
    forall k :: 0 <= k < |Pieces(line, 0)| ==>
      !IsInteger(Pieces(line, 0)[k].black) && !IsDecimal(Pieces(line, 0)[k].black)
  }

  /** Pairing lineA with a line that has no numeric token reproduces lineA. */
  lemma EmitLineAgainstNoNumbers(lineA: string, lineB: string, fmt: Formatter)
    requires NoNumbers(lineB)
    ensures EmitLine(lineA, lineB, fmt) == lineA
  {
    var psB := Pieces(lineB, 0);
    forall k | 0 <= k < |Pieces(lineA, 0)|
      ensures !NumericPair(Pieces(lineA, 0)[k].black, TokenAt(psB, k))
    {
      if k < |psB| {
        assert !IsInteger(psB[k].black) && !IsDecimal(psB[k].black);
      }
    }
    EmitLineReconstructs(lineA, lineB, fmt);
  }

  /** `fileA.readline()` on the i-th pass: the i-th line, or "" once the file is
      exhausted. */
  function ReadLine(lines: seq<string>, i: nat): (line: string) {
    if i < |lines| then lines[i] else ""
  }

  /** The per-line loop as a function of the pair of lines it is given. */
  function Emitter(fmt: Formatter): (emit: (string, string) -> string) {
    (lineA, lineB) => EmitLine(lineA, lineB, fmt)
  }

  /** What the program writes for the first `n` lines of file B when `emit` is the
      per-line routine: for each line of B in turn, `emit` on the line read from
      file A at the same position and that line of B. */
  function Output(linesA: seq<string>, linesB: seq<string>, emit: (string, string) -> string, n: nat): (out: string)
    requires n <= |linesB|
  {
    if n == 0 then ""
    else Output(linesA, linesB, emit, n - 1) + emit(ReadLine(linesA, n - 1), linesB[n - 1])
  }

  /** The outer loop, `for lineB in fileB`, reading one line of file A per pass. */
  method Run(linesA: seq<string>, linesB: seq<string>, fmt: Formatter) returns (out: string)
    ensures out == Output(linesA, linesB, Emitter(fmt), |linesB|)
  {
    out := "";
    for i := 0 to |linesB|
      invariant out == Output(linesA, linesB, Emitter(fmt), i)
    {
      var lineA := ReadLine(linesA, i);
      var emitted := ProcessLine(lineA, linesB[i], fmt);
      out := out + emitted;
    }
  }

  /** The first `n` lines of output read only the first `n` lines of file A: lines
      of A beyond them, and so beyond the number of lines of B, are never read. */
  lemma {:induction false} OutputIgnoresUnreadA(linesA: seq<string>, extra: seq<string>, linesB: seq<string>, emit: (string, string) -> string, n: nat)
    requires n <= |linesB| && n <= |linesA|
    ensures Output(linesA + extra, linesB, emit, n) == Output(linesA, linesB, emit, n)
  {
    if n > 0 {
      OutputIgnoresUnreadA(linesA, extra, linesB, emit, n - 1);
      assert ReadLine(linesA + extra, n - 1) == ReadLine(linesA, n - 1);
    }
  }

  /** An empty lineA, as `readline` returns at the end of file A, emits nothing. */
  lemma EmitLineEmpty(lineB: string, fmt: Formatter)
    ensures Emitter(fmt)("", lineB) == ""
  {
    assert Pieces("", 0) == [];
  }

  /** For any per-line routine that writes nothing for an empty line of A, nothing
      is written once file A is exhausted. */
  lemma {:induction false} OutputStopsAtEndOfA(linesA: seq<string>, linesB: seq<string>, emit: (string, string) -> string, n: nat)
    requires |linesA| <= n <= |linesB|
    requires forall lineB :: emit("", lineB) == ""
    ensures Output(linesA, linesB, emit, n) == Output(linesA, linesB, emit, |linesA|)
  {
    if n > |linesA| {
      OutputStopsAtEndOfA(linesA, linesB, emit, n - 1);
      assert emit(ReadLine(linesA, n - 1), linesB[n - 1]) == "";
    }
  }

  /** Once file A is exhausted its line is empty, the per-line loop does not run, and
      nothing is written for the remaining lines of file B. */
  lemma OutputPastEndOfA(linesA: seq<string>, linesB: seq<string>, fmt: Formatter)
    requires |linesA| <= |linesB|
    ensures Output(linesA, linesB, Emitter(fmt), |linesB|) == Output(linesA, linesB, Emitter(fmt), |linesA|)
  {
    forall lineB: string
      ensures Emitter(fmt)("", lineB) == ""
    {
      EmitLineEmpty(lineB, fmt);
    }
    OutputStopsAtEndOfA(linesA, linesB, Emitter(fmt), |linesB|);
  }

  /** The concatenation of the first `n` lines. */
  function Concat(lines: seq<string>, n: nat): (text: string)
    requires n <= |lines|
  {
    if n == 0 then "" else Concat(lines, n - 1) + lines[n - 1]
  }

  /** For any per-line routine that gives back the line of A it is given, the output
      is file A's text, up to the last line both files have. */
  lemma {:induction false} OutputCopiesA(linesA: seq<string>, linesB: seq<string>, emit: (string, string) -> string, n: nat)
    requires n <= |linesB|
    requires forall i :: 0 <= i < n ==> emit(ReadLine(linesA, i), linesB[i]) == ReadLine(linesA, i)
    ensures Output(linesA, linesB, emit, n) == Concat(linesA, if |linesA| < n then |linesA| else n)
  {
    if n > 0 {
      OutputCopiesA(linesA, linesB, emit, n - 1);
    }
  }

  /** Against a file B with no numeric token, the output is file A's text, up to the
      last line both files have. */
  lemma OutputWithoutNumbers(linesA: seq<string>, linesB: seq<string>, fmt: Formatter)
    requires forall i :: 0 <= i < |linesB| ==> NoNumbers(linesB[i])
    ensures var m := if |linesA| < |linesB| then |linesA| else |linesB|;
      Output(linesA, linesB, Emitter(fmt), |linesB|) == Concat(linesA, m)
  {
    forall i | 0 <= i < |linesB|
      ensures Emitter(fmt)(ReadLine(linesA, i), linesB[i]) == ReadLine(linesA, i)
    {
      EmitLineAgainstNoNumbers(ReadLine(linesA, i), linesB[i], fmt);
    }
    OutputCopiesA(linesA, linesB, Emitter(fmt), |linesB|);
  }
}
