/** Template matching: how many pixels of a cell agree with a template, the
    agreement as a percentage, and the first-best template over a library
    scanned in order with a strictly-greater comparison. */
module Matcher {
  import opened Matrices

  /** Number of positions at which two equally long rows hold the same value. */
  function RowAgree(a: seq<int>, b: seq<int>): (n: nat)
    requires |a| == |b|
    ensures n <= |a|
    ensures n == |a| <==> a == b
    ensures n == 0 <==> forall j :: 0 <= j < |a| ==> a[j] != b[j]
  {
    if a == [] then 0
    else
      assert a == [a[0]] + a[1..] && b == [b[0]] + b[1..];
      (if a[0] == b[0] then 1 else 0) + RowAgree(a[1..], b[1..])
  }

  /** Total number of pixels of a matrix (numpy's `size`). */
  function Size(m: Matrix): nat
  {
    if m == [] then 0 else |m[0]| + Size(m[1..])
  }

  /** `np.sum(cell == template)` for equally shaped operands. */
  function Agree(cell: Matrix, template: Matrix): (n: nat)
    requires SameShape(cell, template)
    ensures n <= Size(cell)
  {
    if cell == [] then 0 else RowAgree(cell[0], template[0]) + Agree(cell[1..], template[1..])
  }

  /** Every pixel agrees exactly when the two matrices are equal. */
  lemma {:induction false} AgreeAllIff(cell: Matrix, template: Matrix)
    requires SameShape(cell, template)
    ensures Agree(cell, template) == Size(cell) <==> cell == template
  {
    if cell != [] {
      AgreeAllIff(cell[1..], template[1..]);
      assert cell == [cell[0]] + cell[1..] && template == [template[0]] + template[1..];
    }
  }

  /** No pixel agrees exactly when every position differs. */
  lemma {:induction false} AgreeNoneIff(cell: Matrix, template: Matrix)
    requires SameShape(cell, template)
    ensures Agree(cell, template) == 0 <==>
      forall i, j :: 0 <= i < |cell| && 0 <= j < |cell[i]| ==> cell[i][j] != template[i][j]
  {
    if cell != [] {
      AgreeNoneIff(cell[1..], template[1..]);
      if Agree(cell, template) == 0 {
        forall i, j | 0 <= i < |cell| && 0 <= j < |cell[i]|
          ensures cell[i][j] != template[i][j]
        {
          if i > 0 {
            assert cell[i] == cell[1..][i - 1] && template[i] == template[1..][i - 1];
          }
        }
      } else {
        if RowAgree(cell[0], template[0]) == 0 {
          var i, j :| 0 <= i < |cell[1..]| && 0 <= j < |cell[1..][i]| && cell[1..][i][j] == template[1..][i][j];
          assert cell[i + 1][j] == template[i + 1][j];
        }
      }
    }
  }

  /** A cell can be scored against a template when they have the same shape
      and the cell is not empty (the percentage divides by its size). */
  predicate Scorable(cell: Matrix, template: Matrix)
  {
    SameShape(cell, template) && Size(cell) > 0
  }

  /** An exact ratio `a / s`, as a percentage, of a part `a` of a whole `s`. */
  lemma RatioBounds(a: nat, s: nat)
    requires 0 < s && a <= s
    ensures 0.0 <= (a as real / s as real) * 100.0 <= 100.0
    ensures (a as real / s as real) * 100.0 == 100.0 <==> a == s
    ensures (a as real / s as real) * 100.0 == 0.0 <==> a == 0
  {
    assert (a as real / s as real) * s as real == a as real;
  }

  /** `(matching_pixels / total_pixels) * 100`, computed exactly; the score
      lies in [0, 100]. */
  function Percentage(cell: Matrix, template: Matrix): (score: real)
    requires Scorable(cell, template)
    ensures 0.0 <= score <= 100.0
  {
    RatioBounds(Agree(cell, template), Size(cell));
    (Agree(cell, template) as real / Size(cell) as real) * 100.0
  }

  /** The score is 100 exactly when the cell equals the template pixel for
      pixel, and 0 exactly when no pixel agrees. */
  lemma PercentageExtremes(cell: Matrix, template: Matrix)
    requires Scorable(cell, template)
    ensures Percentage(cell, template) == 100.0 <==> cell == template
    ensures Percentage(cell, template) == 0.0 <==>
      forall i, j :: 0 <= i < |cell| && 0 <= j < |cell[i]| ==> cell[i][j] != template[i][j]
  {
    AgreeAllIff(cell, template);
    AgreeNoneIff(cell, template);
    RatioBounds(Agree(cell, template), Size(cell));
  }

  /** Every template of the library can be scored against `cell`. */
  predicate ScorableAll(cell: Matrix, library: seq<Matrix>)
  {
    forall k :: 0 <= k < |library| ==> Scorable(cell, library[k])
  }

  /** The running best of the solver's inner loop: a score and a symbol. */
  datatype Match = Match(score: real, symbol: string)

  /** The running best after scanning templates 0 .. k-1 in library order:
      it starts at score 0 with the empty symbol, and a template replaces it
      only when its score is strictly greater. */
  function BestOf(cell: Matrix, library: seq<Matrix>, charMap: string, k: nat): (best: Match)
    requires k <= |library| <= |charMap|
    requires ScorableAll(cell, library)
    ensures |best.symbol| <= 1
  {
    if k == 0 then Match(0.0, "")
    else
      var best := BestOf(cell, library, charMap, k - 1);
      var score := Percentage(cell, library[k - 1]);
      if score > best.score then Match(score, [charMap[k - 1]]) else best
  }

  /** Template `idx` is the first template with the highest score among the
      first `k`, and that score is above the starting best of 0. */
  ghost predicate IsFirstBest(cell: Matrix, library: seq<Matrix>, k: nat, idx: nat)
    requires k <= |library|
    requires ScorableAll(cell, library)
  {
    && idx < k
    && Percentage(cell, library[idx]) > 0.0
    && (forall j :: 0 <= j < idx ==> Percentage(cell, library[j]) < Percentage(cell, library[idx]))
    && (forall j :: idx < j < k ==> Percentage(cell, library[j]) <= Percentage(cell, library[idx]))
  }

  /** The running best is an upper bound of every score scanned so far, it is
      never below the starting 0, and the symbol stays empty exactly while no
      template has scored above 0. */
  lemma {:induction false} BestOfIsMaximal(cell: Matrix, library: seq<Matrix>, charMap: string, k: nat)
    requires k <= |library| <= |charMap|
    requires ScorableAll(cell, library)
    ensures BestOf(cell, library, charMap, k).score >= 0.0
    ensures forall j :: 0 <= j < k ==> Percentage(cell, library[j]) <= BestOf(cell, library, charMap, k).score
    ensures BestOf(cell, library, charMap, k).symbol == "" ==> BestOf(cell, library, charMap, k).score == 0.0
    ensures BestOf(cell, library, charMap, k).symbol == "" <==>
      forall j :: 0 <= j < k ==> Percentage(cell, library[j]) == 0.0
  {
    if k > 0 {
      BestOfIsMaximal(cell, library, charMap, k - 1);
      var prev := BestOf(cell, library, charMap, k - 1);
      var score := Percentage(cell, library[k - 1]);
      if score > prev.score {
        assert BestOf(cell, library, charMap, k) == Match(score, [charMap[k - 1]]);
      } else {
        assert BestOf(cell, library, charMap, k) == prev;
        if prev.symbol != "" {
          var j :| 0 <= j < k - 1 && Percentage(cell, library[j]) != 0.0;
        }
      }
    }
  }

  /** Classification picks the template with the maximal score, the lowest
      library index wins a tie (the comparison is strict), and the symbol is
      `charMap[idx]` for that index. */
  lemma {:induction false} BestOfIsFirstBest(cell: Matrix, library: seq<Matrix>, charMap: string, k: nat)
    requires k <= |library| <= |charMap|
    requires ScorableAll(cell, library)
    ensures BestOf(cell, library, charMap, k).symbol != "" ==>
      exists idx: nat :: IsFirstBest(cell, library, k, idx)
        && BestOf(cell, library, charMap, k) == Match(Percentage(cell, library[idx]), [charMap[idx]])
  {
    if k > 0 {
      BestOfIsFirstBest(cell, library, charMap, k - 1);
      BestOfIsMaximal(cell, library, charMap, k - 1);
      var prev := BestOf(cell, library, charMap, k - 1);
      var score := Percentage(cell, library[k - 1]);
      if score > prev.score {
        assert IsFirstBest(cell, library, k, k - 1);
      } else if prev.symbol != "" {
        var idx: nat :| IsFirstBest(cell, library, k - 1, idx)
          && prev == Match(Percentage(cell, library[idx]), [charMap[idx]]);
        assert IsFirstBest(cell, library, k, idx);
      }
    }
  }

  /** Nothing beats an exact match: when template `k` equals the cell and no
      earlier template does, the cell is classified as `charMap[k]` with
      confidence 100, whatever the later templates are. */
  lemma ExactMatchWins(cell: Matrix, library: seq<Matrix>, charMap: string, k: nat)
    requires |library| <= |charMap|
    requires ScorableAll(cell, library)
    requires k < |library| && library[k] == cell
    requires forall j :: 0 <= j < k ==> library[j] != cell
    ensures BestOf(cell, library, charMap, |library|) == Match(100.0, [charMap[k]])
  {
    var n := |library|;
    BestOfIsFirstBest(cell, library, charMap, n);
    BestOfIsMaximal(cell, library, charMap, n);
    PercentageExtremes(cell, library[k]);
    var best := BestOf(cell, library, charMap, n);
    assert best.symbol != "";
    var idx: nat :| IsFirstBest(cell, library, n, idx)
      && best == Match(Percentage(cell, library[idx]), [charMap[idx]]);
    PercentageExtremes(cell, library[idx]);
    assert Percentage(cell, library[idx]) == 100.0;
  }
}
