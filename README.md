# ndiff in Dafny

A model of `tools/ndiff.py`, a column-preserving numeric differ. The script reads two
text files line by line in lock-step. It splits each line into alternating runs of
whitespace and non-whitespace ("tokens") and pairs the k-th token of one line with the
k-th token of the other. Wherever both tokens are integers, or both are decimals, it
writes their difference, left-padded with spaces to the width of the original token,
so that columns stay aligned. Everything else is written unchanged.

Names follow the code rather than its comments:

- **File A** is the second argument (`argv[2]`). Its lines give the layout; their
  whitespace and non-numeric tokens are what gets written.
- **File B** is the first argument (`argv[1]`).
- The difference is **A − B**.

The comments in the script call the files "before" and "after" inconsistently; the
model follows the code.

The model has four modules:

- `Scan` — the `\s*` and `\S*` searches (`Search`); one pass of the per-line loop on
  one side (`Step`); the pieces a line is cut into (`Pieces`). It proves that the
  pieces rebuild the line, alternate, and are the only alternating decomposition, so
  the k-th piece's token is the k-th token of the line.
- `Patterns` — the token patterns `^\d+$` and `^\d*\.\d+$`, and the `digits` of a
  decimal token.
- `Numbers` — `int(...)` of a digit string, `str(...)` of the difference, and the
  space-padding loop (`PadLeft`, a method with its `while newWhite > 0` loop).
- `NDiff` — the per-line loop (`ProcessLine`, a method over the four cursors and
  four accumulators). It is proved equal to a specification function `EmitLine`.
  The module also holds the loop over lines (`Run`, proved equal to `Output`), and the
  reconstruction, pairing, width and pass-through lemmas.

Both searches always produce a match object, possibly an empty one, and a match
object is always truthy. So the `if` guards after each search always hold, and the
accumulators are overwritten on every pass. In particular, once `lineB` has no more
tokens, `blackB` is the empty string; no accumulator keeps a value from an earlier
pass (`TokenAt`, `PiecesAtB`).

## Model

| member | source | states |
|---|---|---|
| Scan.Search | tools/ndiff.py:52-70 | `\s*`/`\S*` search from a cursor (clamped to the line): the match starts at the cursor, every matched character fits the pattern, and the run is maximal (it ends at the end of the line or before a non-matching character) |
| Scan.Step | tools/ndiff.py:51-70 | one pass of the loop on one line moves its cursor forward, and strictly forward while the line is not consumed (the per-line loop terminates) |
| Scan.StepShape | tools/ndiff.py:52-70 | one pass cuts exactly the text between the old and the new cursor, as a whitespace run then a token run. The token is empty only at the end of the line, and the next piece starts with whitespace |
| Scan.PiecesFlatten | tools/ndiff.py:51-70 | the pieces visited from a cursor, put back together, are exactly the rest of the line, trailing newline included |
| Scan.PiecesAlternating | tools/ndiff.py:51-70 | the pieces alternate: every piece is a whitespace run and a token run, not both empty. Only the first piece may lack whitespace and only the last may lack a token |
| Scan.PiecesUnique | tools/ndiff.py:51-70 | any alternating decomposition of the rest of the line is the one the loop visits, so the k-th piece's token is the line's k-th maximal non-whitespace run |
| Patterns.IntegerNotDecimal | tools/ndiff.py:31-32 | no token matches both `^\d+$` and `^\d*\.\d+$` |
| Patterns.IndexOf | tools/ndiff.py:84 | `index('.')` is the position of the first '.' |
| Patterns.FractionDigitsCountsAfterDot | tools/ndiff.py:82-84 | for a decimal B token, `digits` is at least 1 and is the number of characters after its only '.'. Those characters are digits, and so are the ones before the '.' |
| Numbers.IntRoundTrip | tools/ndiff.py:76 | `str` of the difference is a signed digit string that `int` reads back as the same value |
| Numbers.DigitsRoundTrip | tools/ndiff.py:76 | `str(int(s)) == s` for a digit string without superfluous leading zeros |
| Numbers.Padded | tools/ndiff.py:77-80 | the padded token is as wide as the wider of the original and the difference, ends with the difference untruncated, and is spaces before it |
| Numbers.PadLeft | tools/ndiff.py:77-80 | the `while newWhite > 0` loop that prepends one space per pass produces `Padded` |
| NDiff.Replace | tools/ndiff.py:72-92 | the token written is never narrower than the A token it replaces |
| NDiff.ReplacePassThrough | tools/ndiff.py:72-83 | the A token is written unchanged unless both tokens match the same numeric pattern. This covers an integer B token with a non-integer A token (the decimal test is skipped) and a B token matching neither pattern |
| NDiff.IntegerDiff | tools/ndiff.py:72-80 | two integer tokens become `str(int(A) - int(B))` padded to the width of A: width `max(len(A), len(diff))`, spaces then the whole difference, whose value reads back as `int(A) - int(B)` |
| NDiff.DecimalDiff | tools/ndiff.py:82-92 | two decimal tokens become the formatted difference, taken with the B token's `digits`, padded to the width of A the same way |
| NDiff.DiffToken | tools/ndiff.py:72-92 | the classify, subtract and pad branches compute `Replace` of the two tokens |
| NDiff.PiecesAtB | tools/ndiff.py:52-65 | on the B side the loop finds the k-th token of lineB, or "" once lineB has no k-th piece |
| NDiff.ProcessLine | tools/ndiff.py:42-95 | the per-line loop writes the k-th whitespace run of lineA followed by the k-th token of lineA replaced against the k-th token of lineB, for every piece of lineA in order (`EmitLine`) |
| NDiff.EmitLineReconstructs | tools/ndiff.py:51-95 | when no token pair is numeric, the line written is exactly lineA |
| NDiff.EmitLineAgainstNoNumbers | tools/ndiff.py:72-95 | paired with a lineB that has no integer or decimal token, lineA is written back exactly |
| NDiff.EmitLineWidth | tools/ndiff.py:72-95 | the line written is never shorter than lineA |
| NDiff.EmitLineBeyondB | tools/ndiff.py:52-83 | once lineB has run out of pieces, the rest of lineA is written unchanged |
| NDiff.EmitLineEmpty | tools/ndiff.py:51 | an empty lineA (file A exhausted) writes nothing |
| NDiff.Run | tools/ndiff.py:39-40 | the loop over the lines of file B, reading one line of file A per pass, writes `Output` |
| NDiff.OutputIgnoresUnreadA | tools/ndiff.py:39-40 | lines of file A beyond the number of lines of B never affect the output |
| NDiff.OutputStopsAtEndOfA | tools/ndiff.py:39-51 | with a per-line routine that writes nothing for an empty line, nothing is written once file A is exhausted |
| NDiff.OutputPastEndOfA | tools/ndiff.py:39-51 | the program writes nothing for the lines of B beyond the end of file A |
| NDiff.OutputCopiesA | tools/ndiff.py:39-40 | with a per-line routine that gives back its line of A, the output is file A's lines up to the shorter file's length |
| NDiff.OutputWithoutNumbers | tools/ndiff.py:39-95 | against a file B without numeric tokens, the program writes file A's text up to the last line both files have |

## Left out

- Command-line handling, `open` and `sys.stdout.write`. The two files are sequences
  of lines, each as iteration or `readline` returns it, newline included when
  present; the output is one accumulated string, not a series of writes.
- `readline` is modelled as `ReadLine`: the i-th line, or "" past the end of the
  file. Text-mode newline translation and encodings are not modelled.
- DecimalDiff: the floating-point subtraction and `format(..., ".Nf")` are a
  parameter `fmt` of the model. The lemma states which arguments it gets (both
  tokens and the B token's `digits`) and the padding of its result, not the value.
- The model follows Python 3 semantics on `str`. From Python 3.11 on, `int()` of a
  digit string longer than 4300 digits, and `str()` of an integer that long, raise
  `ValueError` and stop the program part-way through its output; the model's
  unbounded `ParseDigits` and `IntToString` always produce the difference. Under
  Python 2 on byte strings, `\s` is only space and `\t`–`\r`, without 0x1C–0x1F.
- `\s` and `\d` are modelled on ASCII: space, `\t`–`\r` and the separators
  0x1C–0x1F for `\s`; `0`–`9` for `\d`. Python also matches other Unicode
  whitespace and digits.
- Pattern matching is modelled by the predicates the patterns define, not by a
  regular-expression engine.
