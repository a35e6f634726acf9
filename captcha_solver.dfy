/** The captcha solver: a template library with its character map, and the
    solve pipeline that binarises a 20 x 70 greyscale matrix, cuts it into six
    cells and classifies each cell against the library.

    Decoding and resizing the captured image are not part of this model: the
    solver receives the already resized greyscale matrix. */
module CaptchaSolver {
  import opened Matrices
  import opened Matcher

  /** The symbol of template `idx` is `CharMap[idx]`. */
  const CharMap: string := "0123456789ABCDEFGHIJKLMNOPQRSTUVWXYZ"

  /** The solver reads this many cells, left to right. */
  const Positions: nat := 6

  /** A best score below this is reported as a low-confidence position. */
  const LowConfidence: real := 50.0

  /** The solver's state, fixed when it is constructed: the template library
      (`test_set`) and the map from template index to symbol (`char_map`). */
  datatype Solver = Solver(testSet: seq<Matrix>, charMap: string)

  /** Scales a 0/1 bitmap to 0/255. */
  function Scale(bits: Matrix): (m: Matrix)
    requires forall i, j :: 0 <= i < |bits| && 0 <= j < |bits[i]| ==> bits[i][j] == 0 || bits[i][j] == 1
    ensures SameShape(m, bits) && IsBinary(m)
    ensures forall i, j :: 0 <= i < |m| && 0 <= j < |m[i]| ==> (m[i][j] == White <==> bits[i][j] == 1)
  {
    seq(|bits|, i requires 0 <= i < |bits| =>
      seq(|bits[i]|, j requires 0 <= j < |bits[i]| => bits[i][j] * White))
  }

  /** The library the solver ships with: one 10 x 8 template, a ring-shaped
      "0", scaled to 0/255. */
  function SeedTemplates(): (library: seq<Matrix>)
    ensures |library| == 1
    ensures IsRect(library[0], 10, 8) && IsBinary(library[0])
  {
    var bits := [
      [0, 1, 1, 1, 1, 1, 1, 0],
      [1, 1, 1, 1, 1, 1, 1, 1],
      [1, 1, 0, 0, 0, 0, 1, 1],
      [1, 1, 0, 0, 0, 0, 1, 1],
      [1, 1, 0, 0, 0, 0, 1, 1],
      [1, 1, 0, 0, 0, 0, 1, 1],
      [1, 1, 0, 0, 0, 0, 1, 1],
      [1, 1, 0, 0, 0, 0, 1, 1],
      [1, 1, 1, 1, 1, 1, 1, 1],
      [0, 1, 1, 1, 1, 1, 1, 0]
    ];
    [Scale(bits)]
  }

  /** A string whose neighbouring characters ascend is strictly ascending. */
  lemma {:induction false} Ascending(s: string, i: nat, j: nat)
    requires forall k :: 0 <= k < |s| - 1 ==> s[k] < s[k + 1]
    requires i < j < |s|
    ensures s[i] < s[j]
    decreases j - i
  {
    if i + 1 < j {
      Ascending(s, i + 1, j);
    }
  }

  /** Every symbol of the character map occurs once, so a symbol names one
      template index. */
  lemma CharMapDistinct()
    ensures forall i, j :: 0 <= i < j < |CharMap| ==> CharMap[i] != CharMap[j]
  {
    assert forall k :: 0 <= k < |CharMap| - 1 ==> CharMap[k] < CharMap[k + 1];
    forall i, j | 0 <= i < j < |CharMap|
      ensures CharMap[i] != CharMap[j]
    {
      Ascending(CharMap, i, j);
    }
  }

  /** The solver as constructed: the seed library and the 36-symbol map. */
  function NewSolver(): (solver: Solver)
    ensures |solver.testSet| == 1 && IsRect(solver.testSet[0], 10, 8) && IsBinary(solver.testSet[0])
    ensures solver.charMap == CharMap && |solver.charMap| == 36 && |solver.testSet| <= |solver.charMap|
  {
    Solver(SeedTemplates(), CharMap)
  }

  /** What `Solve` demands: a rectangular, non-empty greyscale matrix at least
      60 columns wide (the resize makes it 20 x 70), no more templates than
      symbols, and every template of the cell's shape: as many rows as the
      matrix and 10 columns. The pixel comparison is only defined for equal
      shapes; cells are not cropped to the templates. */
  predicate CanSolve(solver: Solver, grey: Matrix)
  {
    && |grey| >= 1
    && IsRect(grey, |grey|, |grey[0]|)
    && |grey[0]| >= Positions * CellWidth
    && |solver.testSet| <= |solver.charMap|
    && forall k :: 0 <= k < |solver.testSet| ==> IsRect(solver.testSet[k], |grey|, CellWidth)
  }

  /** Cell `p` of the binarised matrix. */
  function Cell(grey: Matrix, p: nat): Matrix
  {
    ExtractCell(Binarize(grey), p)
  }

  /** Each of the six cells can be scored against every template. */
  lemma CellScorable(solver: Solver, grey: Matrix, p: nat)
    requires CanSolve(solver, grey) && p < Positions
    ensures ScorableAll(Cell(grey, p), solver.testSet)
  {
    var bin := Binarize(grey);
    CellFits(bin, |grey|, |grey[0]|, p);
  }

  /** The best match of cell `p` over the whole library. */
  function Classify(solver: Solver, grey: Matrix, p: nat): Match
    requires CanSolve(solver, grey) && p < Positions
  {
    CellScorable(solver, grey, p);
    BestOf(Cell(grey, p), solver.testSet, solver.charMap, |solver.testSet|)
  }

  /** The best match of each of the six cells, in position order. */
  function Matches(solver: Solver, grey: Matrix): seq<Match>
    requires CanSolve(solver, grey)
  {
    seq(Positions, p requires 0 <= p < Positions => Classify(solver, grey, p))
  }

  /** The symbols of the first n matches, in position order. */
  function Symbols(matches: seq<Match>, n: nat): seq<string>
    requires n <= |matches|
  {
    if n == 0 then [] else Symbols(matches, n - 1) + [matches[n - 1].symbol]
  }

  /** The positions among 0 .. n-1 whose best score is below 50, in order. */
  function LowPositions(matches: seq<Match>, n: nat): seq<nat>
    requires n <= |matches|
  {
    if n == 0 then []
    else LowPositions(matches, n - 1) + (if matches[n - 1].score < LowConfidence then [n - 1] else [])
  }

  /** `''.join(parts)`: the characters of the result are exactly those of
      the parts. */
  function Concat(parts: seq<string>): (joined: string)
    ensures forall c :: c in joined <==> exists k :: 0 <= k < |parts| && c in parts[k]
  {
    if parts == [] then "" else Concat(parts[..|parts| - 1]) + parts[|parts| - 1]
  }

  /** The inner loop of the solve: scans the library in order, keeping the
      running best score and its symbol, replaced only by a strictly greater
      score. */
  method ClassifyCell(cell: Matrix, testSet: seq<Matrix>, charMap: string) returns (bestMatch: real, bestChar: string)
    requires |testSet| <= |charMap|
    requires ScorableAll(cell, testSet)
    ensures Match(bestMatch, bestChar) == BestOf(cell, testSet, charMap, |testSet|)
  {
    bestMatch := 0.0;
    bestChar := "";
    for idx := 0 to |testSet|
      invariant Match(bestMatch, bestChar) == BestOf(cell, testSet, charMap, idx)
    {
      var matchPercent := Percentage(cell, testSet[idx]);
      if matchPercent > bestMatch {
        bestMatch := matchPercent;
        bestChar := [charMap[idx]];
      }
    }
  }

  /** Solves one captcha: returns the concatenated symbols of the six cells
      and, in place of the warning log, the positions whose best score was
      below 50. A low score never stops the solve. */
  method Solve(solver: Solver, grey: Matrix) returns (answer: string, lowConfidence: seq<nat>)
    requires CanSolve(solver, grey)
    ensures answer == Concat(Symbols(Matches(solver, grey), Positions))
    ensures lowConfidence == LowPositions(Matches(solver, grey), Positions)
  {
    ghost var matches := Matches(solver, grey);
    var matrix := Binarize(grey);
    var result: seq<string> := [];
    lowConfidence := [];
    for i := 0 to Positions
      invariant result == Symbols(matches, i)
      invariant lowConfidence == LowPositions(matches, i)
    {
      var charMatrix := ExtractCell(matrix, i);
      CellScorable(solver, grey, i);
      var bestMatch, bestChar := ClassifyCell(charMatrix, solver.testSet, solver.charMap);
      assert Match(bestMatch, bestChar) == matches[i];
      if bestMatch < LowConfidence {
        lowConfidence := lowConfidence + [i];
      }
      result := result + [bestChar];
    }
    answer := Concat(result);
  }

  /** The symbol of a cell is empty exactly when no template scores above 0,
      and otherwise the symbol of its first best template. */
  lemma ClassifySymbol(solver: Solver, grey: Matrix, p: nat)
    requires CanSolve(solver, grey) && p < Positions
    ensures ScorableAll(Cell(grey, p), solver.testSet)
    ensures Classify(solver, grey, p).symbol == "" <==>
      forall k :: 0 <= k < |solver.testSet| ==> Percentage(Cell(grey, p), solver.testSet[k]) == 0.0
    ensures Classify(solver, grey, p).symbol != "" ==>
      exists idx: nat :: IsFirstBest(Cell(grey, p), solver.testSet, |solver.testSet|, idx)
        && Classify(solver, grey, p).symbol == [solver.charMap[idx]]
  {
    CellScorable(solver, grey, p);
    BestOfIsMaximal(Cell(grey, p), solver.testSet, solver.charMap, |solver.testSet|);
    BestOfIsFirstBest(Cell(grey, p), solver.testSet, solver.charMap, |solver.testSet|);
  }

  /** One entry per position, in order, each the symbol of that position. */
  lemma {:induction false} SymbolsInOrder(matches: seq<Match>, n: nat)
    requires n <= |matches|
    ensures |Symbols(matches, n)| == n
    ensures forall p :: 0 <= p < n ==> Symbols(matches, n)[p] == matches[p].symbol
  {
    if n > 0 {
      SymbolsInOrder(matches, n - 1);
    }
  }

  /** Joining n parts of length at most one gives at most n characters, and
      exactly n when every part is one character long. */
  lemma {:induction false} ConcatLength(parts: seq<string>)
    requires forall p :: 0 <= p < |parts| ==> |parts[p]| <= 1
    ensures |Concat(parts)| <= |parts|
    ensures |Concat(parts)| == |parts| <==> forall p :: 0 <= p < |parts| ==> |parts[p]| == 1
  {
    if parts != [] {
      ConcatLength(parts[..|parts| - 1]);
    }
  }

  /** The answer has one entry per position, so at most six characters, and
      exactly six when every cell has some template scoring above 0. */
  lemma SolveLength(solver: Solver, grey: Matrix)
    requires CanSolve(solver, grey)
    ensures |Concat(Symbols(Matches(solver, grey), Positions))| <= Positions
    ensures |Concat(Symbols(Matches(solver, grey), Positions))| == Positions <==>
      forall p :: 0 <= p < Positions ==>
        exists k :: 0 <= k < |solver.testSet| && Percentage(Cell(grey, p), solver.testSet[k]) > 0.0
  {
    var matches := Matches(solver, grey);
    var symbols := Symbols(matches, Positions);
    SymbolsInOrder(matches, Positions);
    ConcatLength(symbols);
    forall p | 0 <= p < Positions
      ensures |symbols[p]| == 1 <==>
        exists k :: 0 <= k < |solver.testSet| && Percentage(Cell(grey, p), solver.testSet[k]) > 0.0
    {
      ClassifySymbol(solver, grey, p);
    }
  }

  /** The low-confidence report lists exactly the positions whose best score
      is below 50, in increasing order. */
  lemma {:induction false} LowPositionsExact(matches: seq<Match>, n: nat)
    requires n <= |matches|
    ensures forall p: nat :: p in LowPositions(matches, n) <==> p < n && matches[p].score < LowConfidence
    ensures forall a, b :: 0 <= a < b < |LowPositions(matches, n)| ==>
      LowPositions(matches, n)[a] < LowPositions(matches, n)[b]
  {
    if n > 0 {
      LowPositionsExact(matches, n - 1);
      var prev := LowPositions(matches, n - 1);
      var tail: seq<nat> := if matches[n - 1].score < LowConfidence then [n - 1] else [];
      assert LowPositions(matches, n) == prev + tail;
      forall a, b | 0 <= a < b < |prev + tail|
        ensures (prev + tail)[a] < (prev + tail)[b]
      {
        if b >= |prev| {
          assert prev[a] in prev;
        }
      }
    }
  }

  /** A captcha whose six cells are exact copies of templates reads as the
      symbols of those templates (the first copy, when the library holds the
      same bitmap twice), every one with confidence 100 and none reported as
      low confidence. */
  lemma ExactCaptcha(solver: Solver, grey: Matrix, ks: seq<nat>)
    requires CanSolve(solver, grey)
    requires |ks| == Positions
    requires forall p :: 0 <= p < Positions ==> ks[p] < |solver.testSet| && solver.testSet[ks[p]] == Cell(grey, p)
    requires forall p, j :: 0 <= p < Positions && 0 <= j < ks[p] ==> solver.testSet[j] != Cell(grey, p)
    ensures Concat(Symbols(Matches(solver, grey), Positions)) == seq(Positions, p requires 0 <= p < Positions => solver.charMap[ks[p]])
    ensures forall p :: 0 <= p < Positions ==> Matches(solver, grey)[p].score == 100.0
    ensures LowPositions(Matches(solver, grey), Positions) == []
  {
    var matches := Matches(solver, grey);
    forall p | 0 <= p < Positions
      ensures matches[p] == Match(100.0, [solver.charMap[ks[p]]])
    {
      CellScorable(solver, grey, p);
      ExactMatchWins(Cell(grey, p), solver.testSet, solver.charMap, ks[p]);
    }
    NoLowPositions(matches, Positions);
    SymbolsInOrder(matches, Positions);
    ConcatOfSingletons(Symbols(matches, Positions), seq(Positions, p requires 0 <= p < Positions => solver.charMap[ks[p]]));
  }

  /** The warning of the solve: position `p` is reported exactly when every
      template scores below 50 on its cell (with an empty library, always). */
  lemma LowPositionIff(solver: Solver, grey: Matrix, p: nat)
    requires CanSolve(solver, grey) && p < Positions
    ensures ScorableAll(Cell(grey, p), solver.testSet)
    ensures p in LowPositions(Matches(solver, grey), Positions) <==>
      forall k :: 0 <= k < |solver.testSet| ==> Percentage(Cell(grey, p), solver.testSet[k]) < LowConfidence
  {
    CellScorable(solver, grey, p);
    var matches := Matches(solver, grey);
    LowPositionsExact(matches, Positions);
    assert matches[p] == Classify(solver, grey, p);
    BestOfIsMaximal(Cell(grey, p), solver.testSet, solver.charMap, |solver.testSet|);
    BestOfIsFirstBest(Cell(grey, p), solver.testSet, solver.charMap, |solver.testSet|);
  }

  /** With no score below 50 nothing is reported: a consequence of
      `LowPositionsExact`. */
  lemma NoLowPositions(matches: seq<Match>, n: nat)
    requires n <= |matches|
    requires forall p :: 0 <= p < n ==> matches[p].score >= LowConfidence
    ensures LowPositions(matches, n) == []
  {
    LowPositionsExact(matches, n);
    var low := LowPositions(matches, n);
    assert forall a :: 0 <= a < |low| ==> low[a] in low;
  }

  /** Joining one-character parts spells out those characters. */
  lemma {:induction false} ConcatOfSingletons(parts: seq<string>, word: string)
    requires |parts| == |word|
    requires forall p :: 0 <= p < |parts| ==> parts[p] == [word[p]]
    ensures Concat(parts) == word
  {
    if parts != [] {
      var n := |parts| - 1;
      ConcatOfSingletons(parts[..n], word[..n]);
      assert word == word[..n] + [word[n]];
    }
  }

  /** The shipped library cannot be used as it stands: its only template is
      10 x 8, while every cell has the matrix's rows and 10 columns, so no
      greyscale matrix meets the solver's precondition. */
  lemma SeedLibraryMismatch(grey: Matrix)
    ensures !CanSolve(NewSolver(), grey)
  {
    var template := SeedTemplates()[0];
    assert |template[0]| == 8;
  }
}
