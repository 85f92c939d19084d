/** Segment extraction for tools/ndiff.py: the `\s*` and `\S*` searches that split a
    line into alternating whitespace and token runs. */
module Scan {

  /** Python's `\s` on the ASCII range: space, the controls \t \n \v \f \r, and the
      separators 0x1C-0x1F, which `str.isspace` also treats as whitespace. */
  predicate IsSpace(c: char) {
    c == ' ' || ('\t' <= c <= '\r') || ('\U{1C}' <= c <= '\U{1F}')
  }

  /** The two search patterns: `\s*` (whitespace) and `\S*` (blackspace). */
  datatype Pattern = Whitespace | Blackspace

  predicate Matches(p: Pattern, c: char) {
    match p
    case Whitespace => IsSpace(c)
    case Blackspace => !IsSpace(c)
  }

  predicate AllMatch(p: Pattern, s: string) {
    forall i :: 0 <= i < |s| ==> Matches(p, s[i])
  }

  /** The end of the longest run of characters matching `p` that starts at `pos`. */
  function RunEnd(p: Pattern, line: string, pos: nat): (e: nat)
    requires pos <= |line|
    ensures pos <= e <= |line|
    ensures forall i :: pos <= i < e ==> Matches(p, line[i])
    ensures e == |line| || !Matches(p, line[e])
    decreases |line| - pos
  {
    if pos < |line| && Matches(p, line[pos]) then RunEnd(p, line, pos + 1) else pos
  }

  /** A maximal run is determined by where it starts. */
  lemma {:induction false} RunEndUnique(p: Pattern, line: string, pos: nat, e: nat)
    requires pos <= e <= |line|
    requires forall i :: pos <= i < e ==> Matches(p, line[i])
    requires e == |line| || !Matches(p, line[e])
    ensures RunEnd(p, line, pos) == e
    decreases e - pos
  {
    if pos < e {
      RunEndUnique(p, line, pos + 1, e);
    }
  }

  /** A match object: the matched text (`group()`) and where it ends (`end()`). */
  datatype Match = Match(group: string, end: nat)

  /** Python clamps a search position beyond the string to its length. */
  function Clamp(pos: nat, n: nat): (c: nat) {
    if pos <= n then pos else n
  }

  /** `pattern.search(line, pos)` for `\s*` or `\S*`: the pattern may match the empty
      string, so a match always exists, and it is the longest run at the start. */
  function Search(p: Pattern, line: string, pos: nat): (m: Match)
    ensures Clamp(pos, |line|) <= m.end <= |line|
    ensures m.group == line[Clamp(pos, |line|)..m.end]
    ensures AllMatch(p, m.group)
    ensures m.end == |line| || !Matches(p, line[m.end])
  {
    var start := Clamp(pos, |line|);
    var e := RunEnd(p, line, start);
    assert forall i :: 0 <= i < e - start ==> line[start..e][i] == line[start + i];
    Match(line[start..e], e)
  }

  /** One whitespace run and the token run after it. */
  datatype Piece = Piece(white: string, black: string)

  /** One pass of the per-line loop on one side: the whitespace run found at the
      cursor, then the token run found where it ends; the second component is the
      new cursor, which moves whenever the line is not yet consumed. */
  function Step(line: string, pos: nat): (r: (Piece, nat))
    requires pos <= |line|
    ensures pos <= r.1 <= |line|
    ensures pos < |line| ==> pos < r.1
  {
    var w := Search(Whitespace, line, pos);
    var t := Search(Blackspace, line, w.end);
    (Piece(w.group, t.group), t.end)
  }

  /** One pass cuts the text between the old and the new cursor off the line. */
  lemma StepText(line: string, pos: nat)
    requires pos <= |line|
    ensures var r := Step(line, pos); r.0.white + r.0.black == line[pos..r.1]
  {
    var w := Search(Whitespace, line, pos);
    var t := Search(Blackspace, line, w.end);
    assert line[pos..w.end] + line[w.end..t.end] == line[pos..t.end];
  }

  /** One pass cuts a whitespace run and then a token run off the line; the token
      run is empty only at the end of the line, and the next piece, if any, starts
      with whitespace. */
  lemma StepShape(line: string, pos: nat)
    requires pos <= |line|
    ensures var r := Step(line, pos);
      && r.0.white + r.0.black == line[pos..r.1]
      && AllMatch(Whitespace, r.0.white) && AllMatch(Blackspace, r.0.black)
      && (pos < |line| && IsSpace(line[pos]) ==> r.0.white != "")
      && (r.0.black == "" ==> r.1 == |line|)
      && (r.1 < |line| ==> IsSpace(line[r.1]))
  {
    var w := Search(Whitespace, line, pos);
    var t := Search(Blackspace, line, w.end);
    assert line[pos..w.end] + line[w.end..t.end] == line[pos..t.end];
  }

  /** The pieces the loop visits from `pos` until the cursor reaches the end. */
  function Pieces(line: string, pos: nat): (ps: seq<Piece>)
    requires pos <= |line|
    decreases |line| - pos
  {
    if pos == |line| then []
    else
      var r := Step(line, pos);
      [r.0] + Pieces(line, r.1)
  }

  /** The text the pieces were cut from. */
  function Flatten(ps: seq<Piece>): (text: string) {
    if ps == [] then "" else ps[0].white + ps[0].black + Flatten(ps[1..])
  }

  lemma {:induction false} FlattenAppend(ps: seq<Piece>, p: Piece)
    ensures Flatten(ps + [p]) == Flatten(ps) + p.white + p.black
  {
    if ps != [] {
      assert (ps + [p])[1..] == ps[1..] + [p];
      FlattenAppend(ps[1..], p);
    }
  }

  /** The text of the pieces `ps[i..k]`, built left to right as the loop emits it. */
  function Text(ps: seq<Piece>, i: nat, k: nat): (text: string)
    requires i <= k <= |ps|
  {
    if k == i then "" else Text(ps, i, k - 1) + ps[k - 1].white + ps[k - 1].black
  }

  lemma FlattenSnoc(ps: seq<Piece>, i: nat, k: nat)
    requires i <= k < |ps|
    ensures Flatten(ps[i..k + 1]) == Flatten(ps[i..k]) + ps[k].white + ps[k].black
  {
    assert ps[i..k] + [ps[k]] == ps[i..k + 1];
    FlattenAppend(ps[i..k], ps[k]);
  }

  /** Built left to right or right to left, the text of a run of pieces is the same. */
  lemma {:induction false} TextFlatten(ps: seq<Piece>, i: nat, k: nat)
    requires i <= k <= |ps|
    ensures Text(ps, i, k) == Flatten(ps[i..k])
  {
    if k == i {
      assert ps[i..k] == [];
    } else {
      TextFlatten(ps, i, k - 1);
      FlattenSnoc(ps, i, k - 1);
    }
  }

  /** The shape of one piece of an alternating decomposition: a whitespace run and a
      token run, not both empty; only a first piece may lack whitespace and only a
      last piece may lack a token. */
  predicate WellShaped(p: Piece, first: bool, last: bool) {
    && AllMatch(Whitespace, p.white) && AllMatch(Blackspace, p.black)
    && |p.white| + |p.black| > 0
    && (first || p.white != "")
    && (last || p.black != "")
  }

  /** An alternating decomposition of a text into whitespace and token runs. */
  predicate Alternating(ps: seq<Piece>) {
    forall i :: 0 <= i < |ps| ==> WellShaped(ps[i], i == 0, i == |ps| - 1)
  }

  /** Cutting the rest of a line into three consecutive parts. */
  lemma CutAt(line: string, pos: nat, a: string, b: string, c: string)
    requires pos <= |line| && line[pos..] == a + b + c
    ensures pos + |a| + |b| <= |line|
    ensures line[pos..pos + |a|] == a
    ensures line[pos + |a|..pos + |a| + |b|] == b
    ensures line[pos + |a| + |b|..] == c
  {
    var tail := line[pos..];
    assert tail[..|a|] == a;
    assert tail[|a|..|a| + |b|] == b;
    assert tail[|a| + |b|..] == c;
  }

  /** Reconstruction: the pieces the loop visits, put back together, are the rest of
      the line, trailing newline included. */
  lemma {:induction false} PiecesFlatten(line: string, pos: nat)
    requires pos <= |line|
    ensures Flatten(Pieces(line, pos)) == line[pos..]
    decreases |line| - pos
  {
    if pos < |line| {
      var r := Step(line, pos);
      PiecesCons(line, pos);
      StepText(line, pos);
      PiecesFlatten(line, r.1);
      assert line[pos..r.1] + line[r.1..] == line[pos..];
    }
  }

  /** The text of the pieces from a cursor that is not at the end: the first piece,
      then the rest. */
  lemma PiecesCons(line: string, pos: nat)
    requires pos < |line|
    ensures var r := Step(line, pos);
      Flatten(Pieces(line, pos)) == r.0.white + r.0.black + Flatten(Pieces(line, r.1))
  {
    var r := Step(line, pos);
    var rest := Pieces(line, r.1);
    assert Pieces(line, pos) == [r.0] + rest;
    assert ([r.0] + rest)[0] == r.0 && ([r.0] + rest)[1..] == rest;
  }

  /** The pieces alternate between whitespace and token runs. */
  lemma {:induction false} PiecesAlternating(line: string, pos: nat)
    requires pos <= |line|
    ensures Alternating(Pieces(line, pos))
    decreases |line| - pos
  {
    if pos < |line| {
      var r := Step(line, pos);
      var rest := Pieces(line, r.1);
      StepShape(line, pos);
      PiecesAlternating(line, r.1);
      var ps := [r.0] + rest;
      assert Pieces(line, pos) == ps;
      if rest != [] {
        assert r.1 < |line|;
        assert rest[0] == Step(line, r.1).0;
        StepShape(line, r.1);
      }
      assert WellShaped(r.0, true, rest == []);
      forall i | 0 <= i < |ps|
        ensures WellShaped(ps[i], i == 0, i == |ps| - 1)
      {
        if i > 0 {
          assert ps[i] == rest[i - 1];
          assert WellShaped(rest[i - 1], i - 1 == 0, i - 1 == |rest| - 1);
        }
      }
    }
  }

  lemma AlternatingTail(ps: seq<Piece>)
    requires ps != [] && Alternating(ps)
    ensures Alternating(ps[1..])
  {
    forall i | 0 <= i < |ps| - 1
      ensures WellShaped(ps[1..][i], i == 0, i == |ps| - 2)
    {
      assert ps[1..][i] == ps[i + 1];
      assert WellShaped(ps[i + 1], i + 1 == 0, i + 1 == |ps| - 1);
    }
  }

  /** When a line's rest starts with whitespace `w` then token `t`, both maximal, one
      pass of the loop finds exactly those two runs. */
  lemma StepFindsRuns(line: string, pos: nat, w: string, t: string)
    requires pos + |w| + |t| <= |line|
    requires line[pos..pos + |w|] == w && line[pos + |w|..pos + |w| + |t|] == t
    requires AllMatch(Whitespace, w) && AllMatch(Blackspace, t)
    requires pos + |w| < |line| ==> t != ""
    requires pos + |w| + |t| < |line| ==> IsSpace(line[pos + |w| + |t|])
    ensures Step(line, pos) == (Piece(w, t), pos + |w| + |t|)
  {
    var e1 := pos + |w|;
    var e2 := e1 + |t|;
    forall i | pos <= i < e1
      ensures Matches(Whitespace, line[i])
    {
      assert line[i] == w[i - pos];
    }
    if e1 < |line| {
      assert line[e1] == t[0];
    }
    RunEndUnique(Whitespace, line, pos, e1);
    forall i | e1 <= i < e2
      ensures Matches(Blackspace, line[i])
    {
      assert line[i] == t[i - e1];
    }
    RunEndUnique(Blackspace, line, e1, e2);
  }

  /** The pieces are the only alternating decomposition of the rest of the line, so
      the k-th piece's token is the k-th maximal non-whitespace run. */
  lemma {:induction false} PiecesUnique(line: string, pos: nat, ps: seq<Piece>)
    requires pos <= |line|
    requires Alternating(ps) && Flatten(ps) == line[pos..]
    ensures ps == Pieces(line, pos)
    decreases |line| - pos
  {
    if ps != [] {
      var q, rest := ps[0], ps[1..];
      assert ps == [q] + rest;
      assert WellShaped(q, true, |ps| == 1);
      var e1 := pos + |q.white|;
      var e2 := e1 + |q.black|;
      CutAt(line, pos, q.white, q.black, Flatten(rest));
      assert e1 < |line| ==> q.black != "" by {
        if q.black == "" {
          assert rest == [];
        }
      }
      assert e2 < |line| ==> IsSpace(line[e2]) by {
        if e2 < |line| {
          assert rest != [] && rest[0] == ps[1];
          assert WellShaped(ps[1], false, 1 == |ps| - 1);
          assert Flatten(rest) == rest[0].white + rest[0].black + Flatten(rest[1..]);
          assert line[e2] == rest[0].white[0];
        }
      }
      StepFindsRuns(line, pos, q.white, q.black);
      AlternatingTail(ps);
      PiecesUnique(line, e2, rest);
      calc {
        ps;
        [q] + rest;
        [q] + Pieces(line, e2);
        { assert Step(line, pos).0 == q && Step(line, pos).1 == e2; }
        [Step(line, pos).0] + Pieces(line, Step(line, pos).1);
        { assert pos < |line|; }
        Pieces(line, pos);
      }
    }
  }
}
