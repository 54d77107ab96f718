/**
 * The placement search of `TetrisGame`: `simulate`'s statistics of a dropped piece, the score that
 * weighs them, the enumeration of every (rotation, column) placement in the source's loop order, the
 * choice of the first placement with the strictly smallest score, and the one-step moves of `update`
 * toward the chosen target.
 */
module Planner {
  import opened Wrappers
  import opened Display
  import opened Seqs
  import opened Pieces
  import opened Board
  import opened Search

  const ALPHA: real := 1.0
  const BETA: real := 5.0
  const GAMMA: real := 2.0
  /** `ROWS / 2` under true division. */
  const TARGET_HEIGHT: real := 9.0

  /** What `simulate` returns: `(avg_h, holes, heights)`. */
  datatype Stats = Stats(avgHeight: real, holes: nat, heights: seq<nat>)

  /** A candidate `(blocks, col)`. */
  datatype Placement = Placement(blocks: Shape, col: int)

  function Abs(x: real): real
  {
    if x < 0.0 then -x else x
  }

  /** The copy of the field with the piece dropped from row -2 in column `col` (`temp` in `simulate`). */
  function Dropped(field: seq<seq<bool>>, cols: int, bs: Shape, col: int): (g: seq<seq<bool>>)
    requires Shaped(field, cols) && |bs| > 0 && ColumnsFit(bs, col, cols)
    ensures Shaped(g, cols)
  {
    Stamp(field, cols, bs, LandingRow(field, cols, bs, -2, col), col, true)
  }

  /** `simulate(blocks, col)`. */
  function SimStats(field: seq<seq<bool>>, cols: int, bs: Shape, col: int): Stats
    requires Shaped(field, cols) && cols >= 1 && |bs| > 0 && ColumnsFit(bs, col, cols)
  {
    var g := Dropped(field, cols, bs, col);
    var hs := Heights(g, cols);
    Stats(Sum(hs) as real / cols as real, TotalHoles(g, cols, cols), hs)
  }

  /** The total of the first n heights bounds the holes of the first n columns. */
  lemma {:induction false} HolesBelowHeights(g: seq<seq<bool>>, cols: int, n: int)
    requires Shaped(g, cols) && 0 <= n <= cols
    ensures TotalHoles(g, cols, n) <= Sum(Heights(g, cols)[..n])
    ensures Sum(Heights(g, cols)[..n]) <= ROWS * n
  {
    if n > 0 {
      HolesBelowHeights(g, cols, n - 1);
      var hs := Heights(g, cols);
      assert hs[..n][..n - 1] == hs[..n - 1];
      HeightSpec(Column(g, cols, n - 1));
    }
  }

  /**
   * `simulate` returns one height per column, each in 0 .. ROWS and equal to the height of that column
   * of the dropped copy; the holes are at most the total height.
   */
  lemma SimStatsSpec(field: seq<seq<bool>>, cols: int, bs: Shape, col: int)
    requires Shaped(field, cols) && cols >= 1 && |bs| > 0 && ColumnsFit(bs, col, cols)
    ensures var st := SimStats(field, cols, bs, col);
            |st.heights| == cols &&
            (forall c :: 0 <= c < cols ==>
               st.heights[c] <= ROWS && st.heights[c] == Height(Column(Dropped(field, cols, bs, col), cols, c))) &&
            st.holes <= Sum(st.heights) <= ROWS * cols
  {
    var g := Dropped(field, cols, bs, col);
    HolesBelowHeights(g, cols, cols);
    assert Heights(g, cols)[..cols] == Heights(g, cols);
    forall c | 0 <= c < cols ensures Heights(g, cols)[c] <= ROWS {
      HeightSpec(Column(g, cols, c));
    }
  }

  /** `ALPHA * abs(avg_h - TARGET_HEIGHT) + BETA * holes + GAMMA * (max(heights) - min(heights))`. */
  function Score(st: Stats): real
    requires st.heights != []
  {
    ALPHA * Abs(st.avgHeight - TARGET_HEIGHT) + BETA * st.holes as real
      + GAMMA * (MaxOf(st.heights) - MinOf(st.heights)) as real
  }

  /** The score is never negative, and it is 0 exactly for an even, hole-free surface at the target height. */
  lemma ScoreSpec(st: Stats)
    requires st.heights != []
    ensures Score(st) >= 0.0
    ensures Score(st) == 0.0 <==>
              st.avgHeight == TARGET_HEIGHT && st.holes == 0 &&
              forall i, j :: 0 <= i < |st.heights| && 0 <= j < |st.heights| ==> st.heights[i] == st.heights[j]
  {
    var hs := st.heights;
    var mx, mn := MaxOf(hs), MinOf(hs);
    if mx == mn {
      forall i, j | 0 <= i < |hs| && 0 <= j < |hs| ensures hs[i] == hs[j] {
        assert mn <= hs[i] <= mx && mn <= hs[j] <= mx;
      }
    } else {
      var i :| 0 <= i < |hs| && hs[i] == mx;
      var j :| 0 <= j < |hs| && hs[j] == mn;
      assert hs[i] != hs[j];
    }
  }

  /** A placement `simulate` can be run on. */
  predicate Legal(cols: int, p: Placement)
  {
    |p.blocks| > 0 && ColumnsFit(p.blocks, p.col, cols)
  }

  /** Every placement of the list can be simulated. */
  predicate AllLegal(cols: int, cs: seq<Placement>)
  {
    forall p :: p in cs ==> Legal(cols, p)
  }

  lemma AllLegalAppend(cols: int, a: seq<Placement>, b: seq<Placement>)
    ensures AllLegal(cols, a + b) <==> AllLegal(cols, a) && AllLegal(cols, b)
  {
    assert forall p :: p in a + b <==> p in a || p in b;
  }

  function ScoreOf(field: seq<seq<bool>>, cols: int, p: Placement): real
    requires Shaped(field, cols) && cols >= 1 && Legal(cols, p)
  {
    Score(SimStats(field, cols, p.blocks, p.col))
  }

  // ---------------------------------------------------------------------------------------------
  // Candidate placements, in the order of the source's loops

  /** `min(c for _, c in blocks)`. */
  function MinCol(bs: Shape): int
    requires |bs| > 0
  {
    if |bs| == 1 then bs[0].1
    else
      var m := MinCol(bs[..|bs| - 1]);
      if bs[|bs| - 1].1 < m then bs[|bs| - 1].1 else m
  }

  /** `max(c for _, c in blocks)`. */
  function MaxCol(bs: Shape): int
    requires |bs| > 0
  {
    if |bs| == 1 then bs[0].1
    else
      var m := MaxCol(bs[..|bs| - 1]);
      if bs[|bs| - 1].1 > m then bs[|bs| - 1].1 else m
  }

  /** The smallest and the largest column offset are offsets of blocks, and bound all the others. */
  lemma {:induction false} MinMaxColSpec(bs: Shape)
    requires |bs| > 0
    ensures forall k :: 0 <= k < |bs| ==> MinCol(bs) <= bs[k].1 <= MaxCol(bs)
    ensures exists k :: 0 <= k < |bs| && bs[k].1 == MinCol(bs)
    ensures exists k :: 0 <= k < |bs| && bs[k].1 == MaxCol(bs)
  {
    if |bs| > 1 {
      var init := bs[..|bs| - 1];
      MinMaxColSpec(init);
      assert forall k :: 0 <= k < |init| ==> init[k] == bs[k];
      var i :| 0 <= i < |init| && init[i].1 == MinCol(init);
      var j :| 0 <= j < |init| && init[j].1 == MaxCol(init);
      var n := |bs| - 1;
      var wi := if bs[n].1 < MinCol(init) then n else i;
      var wj := if bs[n].1 > MaxCol(init) then n else j;
      assert bs[wi].1 == MinCol(bs) && bs[wj].1 == MaxCol(bs);
    } else {
      assert bs[0].1 == MinCol(bs) && bs[0].1 == MaxCol(bs);
    }
  }

  /** The columns of `range(-minc, cols - maxc)` are exactly those where every block is inside the field. */
  lemma ColumnRange(bs: Shape, col: int, cols: int)
    requires |bs| > 0
    ensures -MinCol(bs) <= col < cols - MaxCol(bs) <==> ColumnsFit(bs, col, cols)
  {
    var lo, hi := MinCol(bs), MaxCol(bs);
    MinMaxColSpec(bs);
    if ColumnsFit(bs, col, cols) {
      var i :| 0 <= i < |bs| && bs[i].1 == lo;
      var j :| 0 <= j < |bs| && bs[j].1 == hi;
      assert 0 <= col + bs[i].1 && col + bs[j].1 < cols;
    }
  }

  /** `for col in range(lo, hi): if not self.can_place(blocks, row, col): continue` — the placements tried. */
  function ColCands(field: seq<seq<bool>>, cols: int, bs: Shape, row: int, lo: int, hi: int): seq<Placement>
    requires Shaped(field, cols)
    decreases hi - lo
  {
    if hi <= lo then []
    else ColCands(field, cols, bs, row, lo, hi - 1)
         + if CanPlace(field, cols, bs, row, hi - 1) then [Placement(bs, hi - 1)] else []
  }

  /** One more column of the loop. */
  lemma ColCandsSnoc(field: seq<seq<bool>>, cols: int, bs: Shape, row: int, lo: int, col: int)
    requires Shaped(field, cols) && lo <= col
    ensures ColCands(field, cols, bs, row, lo, col + 1) ==
              ColCands(field, cols, bs, row, lo, col) + if CanPlace(field, cols, bs, row, col) then [Placement(bs, col)] else []
  {
  }

  /** An empty range of columns gives no placement. */
  lemma ColCandsEmpty(field: seq<seq<bool>>, cols: int, bs: Shape, row: int, lo: int, hi: int)
    requires Shaped(field, cols) && hi <= lo
    ensures ColCands(field, cols, bs, row, lo, hi) == []
  {
  }

  function ColCandsOf(field: seq<seq<bool>>, cols: int, bs: Shape, row: int): seq<Placement>
    requires Shaped(field, cols) && |bs| > 0
  {
    ColCands(field, cols, bs, row, -MinCol(bs), cols - MaxCol(bs))
  }

  /** Where the column loop over `range(-min_col, cols - max_col)` stops, the placements it tried are those of the rotation. */
  lemma ColCandsOfRange(field: seq<seq<bool>>, cols: int, bs: Shape, row: int, lo: int, col: int)
    requires Shaped(field, cols) && |bs| > 0 && lo == -MinCol(bs)
    requires col == if cols - MaxCol(bs) <= lo then lo else cols - MaxCol(bs)
    ensures ColCandsOf(field, cols, bs, row) == ColCands(field, cols, bs, row, lo, col)
  {
    if cols - MaxCol(bs) <= lo {
      ColCandsEmpty(field, cols, bs, row, lo, cols - MaxCol(bs));
      ColCandsEmpty(field, cols, bs, row, lo, col);
    }
  }

  /** The placements of each rotation in turn. */
  function RotCands(field: seq<seq<bool>>, cols: int, rots: seq<Shape>, row: int): seq<Placement>
    requires Shaped(field, cols) && NonEmpty(rots)
  {
    if rots == [] then []
    else
      var init := rots[..|rots| - 1];
      assert forall k :: 0 <= k < |init| ==> init[k] == rots[k];
      RotCands(field, cols, init, row) + ColCandsOf(field, cols, rots[|rots| - 1], row)
  }

  /** Every placement of every rotation of every shape, in loop order, legal at `row`. */
  function Candidates(field: seq<seq<bool>>, cols: int, shapes: seq<Shape>, row: int): seq<Placement>
    requires Shaped(field, cols) && NonEmpty(shapes)
  {
    AllRotationsNonEmpty(shapes);
    RotCands(field, cols, AllRotations(shapes), row)
  }

  lemma {:induction false} ColCandsSpec(field: seq<seq<bool>>, cols: int, bs: Shape, row: int, lo: int, hi: int, p: Placement)
    requires Shaped(field, cols)
    ensures p in ColCands(field, cols, bs, row, lo, hi) <==>
              p.blocks == bs && lo <= p.col < hi && CanPlace(field, cols, bs, row, p.col)
    decreases hi - lo
  {
    if hi > lo {
      var prev := ColCands(field, cols, bs, row, lo, hi - 1);
      var fits := CanPlace(field, cols, bs, row, hi - 1);
      assert ColCands(field, cols, bs, row, lo, hi) == prev + if fits then [Placement(bs, hi - 1)] else [];
      ColCandsSpec(field, cols, bs, row, lo, hi - 1, p);
    }
  }

  /** The placements of one rotation are those of that rotation where it fits. */
  lemma ColCandsOfSpec(field: seq<seq<bool>>, cols: int, bs: Shape, row: int, p: Placement)
    requires Shaped(field, cols) && |bs| > 0
    ensures p in ColCandsOf(field, cols, bs, row) <==> p.blocks == bs && CanPlace(field, cols, bs, row, p.col)
  {
    var lo, hi := -MinCol(bs), cols - MaxCol(bs);
    assert ColCandsOf(field, cols, bs, row) == ColCands(field, cols, bs, row, lo, hi);
    ColCandsSpec(field, cols, bs, row, lo, hi, p);
    if p.blocks == bs && CanPlace(field, cols, bs, row, p.col) {
      CanPlaceColumnsFit(field, cols, bs, row, p.col);
      ColumnRange(bs, p.col, cols);
      assert lo <= p.col < hi;
    }
  }

  lemma RotCandsUnfold(field: seq<seq<bool>>, cols: int, rots: seq<Shape>, row: int)
    requires Shaped(field, cols) && rots != [] && NonEmpty(rots)
    ensures NonEmpty(rots[..|rots| - 1])
    ensures RotCands(field, cols, rots, row) ==
              RotCands(field, cols, rots[..|rots| - 1], row) + ColCandsOf(field, cols, rots[|rots| - 1], row)
  {
    var init := rots[..|rots| - 1];
    assert forall k :: 0 <= k < |init| ==> init[k] == rots[k];
  }

  lemma {:induction false} RotCandsSpec(field: seq<seq<bool>>, cols: int, rots: seq<Shape>, row: int, p: Placement)
    requires Shaped(field, cols) && NonEmpty(rots)
    ensures p in RotCands(field, cols, rots, row) <==> p.blocks in rots && CanPlace(field, cols, p.blocks, row, p.col)
  {
    if rots != [] {
      var init, last := rots[..|rots| - 1], rots[|rots| - 1];
      RotCandsUnfold(field, cols, rots, row);
      assert rots == init + [last];
      RotCandsSpec(field, cols, init, row, p);
      ColCandsOfSpec(field, cols, last, row, p);
    }
  }

  /**
   * Exactly the rotations of the given shapes at positions legal at `row` are candidates (the column
   * range of the source loop cuts off no legal position).
   */
  lemma CandidatesSpec(field: seq<seq<bool>>, cols: int, shapes: seq<Shape>, row: int, p: Placement)
    requires Shaped(field, cols) && NonEmpty(shapes)
    ensures p in Candidates(field, cols, shapes, row) <==>
              (exists k :: 0 <= k < |shapes| && p.blocks in Rotations(shapes[k])) && CanPlace(field, cols, p.blocks, row, p.col)
  {
    AllRotationsNonEmpty(shapes);
    RotCandsSpec(field, cols, AllRotations(shapes), row, p);
    AllRotationsSpec(shapes, p.blocks);
  }

  /** Every candidate can be simulated. */
  lemma CandidatesLegal(field: seq<seq<bool>>, cols: int, shapes: seq<Shape>, row: int)
    requires Shaped(field, cols) && NonEmpty(shapes)
    ensures AllLegal(cols, Candidates(field, cols, shapes, row))
  {
    var rots := AllRotations(shapes);
    AllRotationsNonEmpty(shapes);
    forall p | p in Candidates(field, cols, shapes, row) ensures Legal(cols, p) {
      RotCandsSpec(field, cols, rots, row, p);
      var k :| 0 <= k < |rots| && rots[k] == p.blocks;
      CanPlaceColumnsFit(field, cols, p.blocks, row, p.col);
    }
  }

  // ---------------------------------------------------------------------------------------------
  // The best placement

  /** The scores of the candidates, in order. */
  function Scores(field: seq<seq<bool>>, cols: int, cands: seq<Placement>): (ss: seq<real>)
    requires Shaped(field, cols) && cols >= 1 && AllLegal(cols, cands)
    ensures |ss| == |cands|
  {
    seq(|cands|, j requires 0 <= j < |cands| => ScoreOf(field, cols, cands[j]))
  }

  lemma ScoresAppend(field: seq<seq<bool>>, cols: int, a: seq<Placement>, b: seq<Placement>)
    requires Shaped(field, cols) && cols >= 1 && AllLegal(cols, a + b)
    ensures AllLegal(cols, a)
    ensures AllLegal(cols, b)
    ensures Scores(field, cols, a + b) == Scores(field, cols, a) + Scores(field, cols, b)
  {
    AllLegalAppend(cols, a, b);
    var sa, sb, sab := Scores(field, cols, a), Scores(field, cols, b), Scores(field, cols, a + b);
    forall j | 0 <= j < |a + b| ensures sab[j] == (sa + sb)[j] {
      if j < |a| {
        assert (a + b)[j] == a[j];
      } else {
        assert (a + b)[j] == b[j - |a|];
      }
    }
    assert sab == sa + sb;
  }

  /** The choice of the search over the candidates. */
  function Best(field: seq<seq<bool>>, cols: int, cands: seq<Placement>): Option<Placement>
    requires Shaped(field, cols) && cols >= 1 && AllLegal(cols, cands)
  {
    match FoldPick(None, cands, Scores(field, cols, cands))
    case None => None
    case Some(b) => Some(b.item)
  }

  /**
   * There is a choice exactly when there is a candidate, and the choice is the candidate at the first
   * index whose score is the smallest: no candidate scores below it, every earlier one scores above it.
   */
  lemma BestSpec(field: seq<seq<bool>>, cols: int, cands: seq<Placement>)
    requires Shaped(field, cols) && cols >= 1 && AllLegal(cols, cands)
    ensures Best(field, cols, cands).None? <==> cands == []
    ensures Best(field, cols, cands).Some? ==>
              exists i :: FirstMin(Scores(field, cols, cands), i) && cands[i] == Best(field, cols, cands).value
  {
    FoldPickSpec(cands, Scores(field, cols, cands));
  }

  /** The state of the search loop after trying `cs`: the best candidate so far, with its score. */
  function SearchState(field: seq<seq<bool>>, cols: int, cs: seq<Placement>): Option<Scored<Placement>>
    requires Shaped(field, cols) && cols >= 1 && AllLegal(cols, cs)
  {
    FoldPick(None, cs, Scores(field, cols, cs))
  }

  /** Trying one more candidate is one step of `if score < best_score: best_score, best = score, (blocks, col)`. */
  lemma SearchStep(field: seq<seq<bool>>, cols: int, cs: seq<Placement>, p: Placement)
    requires Shaped(field, cols) && cols >= 1 && AllLegal(cols, cs) && Legal(cols, p)
    ensures AllLegal(cols, cs + [p])
    ensures SearchState(field, cols, cs + [p]) == Pick(SearchState(field, cols, cs), p, ScoreOf(field, cols, p))
  {
    var xs := cs + [p];
    AllLegalAppend(cols, cs, [p]);
    ScoresAppend(field, cols, cs, [p]);
    var ss := Scores(field, cols, xs);
    assert xs[..|xs| - 1] == cs;
    assert ss[..|ss| - 1] == Scores(field, cols, cs);
  }

  /** The candidates of rotations `a + b` are those of `a` followed by those of `b`. */
  lemma {:induction false} RotCandsAppend(field: seq<seq<bool>>, cols: int, a: seq<Shape>, b: seq<Shape>, row: int)
    requires Shaped(field, cols) && NonEmpty(a) && NonEmpty(b)
    ensures NonEmpty(a + b)
    ensures RotCands(field, cols, a + b, row) == RotCands(field, cols, a, row) + RotCands(field, cols, b, row)
    decreases |b|
  {
    var ab := a + b;
    forall k | 0 <= k < |ab| ensures |ab[k]| > 0 {
      if k >= |a| {
        assert ab[k] == b[k - |a|];
      }
    }
    if b == [] {
      assert ab == a;
    } else {
      var init, last := b[..|b| - 1], b[|b| - 1];
      RotCandsUnfold(field, cols, b, row);
      RotCandsAppend(field, cols, a, init, row);
      RotCandsUnfold(field, cols, ab, row);
      assert ab[..|ab| - 1] == a + init && ab[|ab| - 1] == last;
    }
  }

  /** The candidates of the first k + 1 shapes are those of the first k followed by those of shape k's rotations. */
  lemma CandidatesSnoc(field: seq<seq<bool>>, cols: int, shapes: seq<Shape>, k: nat, row: int)
    requires Shaped(field, cols) && NonEmpty(shapes) && k < |shapes|
    ensures NonEmpty(shapes[..k]) && NonEmpty(shapes[..k + 1]) && NonEmpty(Rotations(shapes[k]))
    ensures Candidates(field, cols, shapes[..k + 1], row) ==
              Candidates(field, cols, shapes[..k], row) + RotCands(field, cols, Rotations(shapes[k]), row)
  {
    var a, b, rs := shapes[..k], shapes[..k + 1], Rotations(shapes[k]);
    forall i | 0 <= i < |b| ensures |b[i]| > 0 {
      assert b[i] == shapes[i];
    }
    forall i | 0 <= i < |a| ensures |a[i]| > 0 {
      assert a[i] == shapes[i];
    }
    RotationsSpec(shapes[k]);
    forall i | 0 <= i < |rs| ensures |rs[i]| > 0 {
    }
    AllRotationsSnoc(shapes, k);
    AllRotationsNonEmpty(a);
    RotCandsAppend(field, cols, AllRotations(shapes[..k]), Rotations(shapes[k]), row);
  }

  /** The choice of the placement search over every rotation of `shapes` at `row`. */
  function BestOf(field: seq<seq<bool>>, cols: int, shapes: seq<Shape>, row: int): Option<Placement>
    requires Shaped(field, cols) && cols >= 1 && NonEmpty(shapes)
  {
    CandidatesLegal(field, cols, shapes, row);
    Best(field, cols, Candidates(field, cols, shapes, row))
  }

  /** The target `update` settles on: the best placement of the current piece's rotations from its row, or where it is. */
  function TargetFor(field: seq<seq<bool>>, cols: int, bs: Shape, row: int, col: int): Placement
    requires Shaped(field, cols) && cols >= 1 && |bs| > 0
  {
    match BestOf(field, cols, [bs], row)
    case Some(p) => p
    case None => Placement(bs, col)
  }

  /**
   * The target is the first smallest-score fitting placement of the piece's rotations from its row,
   * and the piece where it is when no rotation fits anywhere.
   */
  lemma TargetForSpec(field: seq<seq<bool>>, cols: int, bs: Shape, row: int, col: int)
    requires Shaped(field, cols) && cols >= 1 && |bs| > 0
    ensures AllLegal(cols, Candidates(field, cols, [bs], row))
    ensures var t, cands := TargetFor(field, cols, bs, row, col), Candidates(field, cols, [bs], row);
            (cands == [] ==> t == Placement(bs, col)) &&
            (cands != [] ==>
               t.blocks in Rotations(bs) && CanPlace(field, cols, t.blocks, row, t.col) &&
               exists i :: FirstMin(Scores(field, cols, cands), i) && cands[i] == t)
  {
    var cands := Candidates(field, cols, [bs], row);
    CandidatesLegal(field, cols, [bs], row);
    BestSpec(field, cols, cands);
    var b := Best(field, cols, cands);
    assert BestOf(field, cols, [bs], row) == b;
    if b.Some? {
      CandidatesSpec(field, cols, [bs], row, b.value);
      var i :| FirstMin(Scores(field, cols, cands), i) && cands[i] == b.value;
      assert b.value in cands;
    }
  }

  // ---------------------------------------------------------------------------------------------
  // The moves of one `update` tick

  /** Move one column toward the target column if the piece fits there. */
  function SteerCol(field: seq<seq<bool>>, cols: int, bs: Shape, row: int, pcol: int, tcol: int): int
    requires Shaped(field, cols)
  {
    if pcol < tcol && CanPlace(field, cols, bs, row, pcol + 1) then pcol + 1
    else if pcol > tcol && CanPlace(field, cols, bs, row, pcol - 1) then pcol - 1
    else pcol
  }

  /**
   * Steering moves at most one column, never away from the target and never past it, and only to a
   * position where the piece fits; it stays put only at the target or when the next column is blocked.
   */
  lemma SteerColSpec(field: seq<seq<bool>>, cols: int, bs: Shape, row: int, pcol: int, tcol: int)
    requires Shaped(field, cols)
    ensures var c := SteerCol(field, cols, bs, row, pcol, tcol);
            pcol - 1 <= c <= pcol + 1 &&
            (c != pcol ==> CanPlace(field, cols, bs, row, c) && (c - tcol) * (c - tcol) < (pcol - tcol) * (pcol - tcol)) &&
            (c - tcol) * (pcol - tcol) >= 0 &&
            (c == pcol ==> pcol == tcol || !CanPlace(field, cols, bs, row, if pcol < tcol then pcol + 1 else pcol - 1))
  {
  }

  /** Steering from a legal position ends at a legal position. */
  lemma SteerColLegal(field: seq<seq<bool>>, cols: int, bs: Shape, row: int, pcol: int, tcol: int)
    requires Shaped(field, cols) && CanPlace(field, cols, bs, row, pcol)
    ensures CanPlace(field, cols, bs, row, SteerCol(field, cols, bs, row, pcol, tcol))
  {
  }

  /** Rotate once toward the target rotation, from row 3 on, if the next rotation fits. */
  function RotateToward(field: seq<seq<bool>>, cols: int, bs: Shape, row: int, col: int, target: Shape): Shape
    requires Shaped(field, cols)
  {
    if bs != target && row >= 3 then
      RotationsHead(bs);
      TurnWithin(field, cols, Rotations(bs), bs, row, col, target)
    else bs
  }

  /**
   * With `rots` the rotations of `bs`: if the target is one of them, the next rotation after `bs` in
   * the list, when it fits.
   */
  function TurnWithin(field: seq<seq<bool>>, cols: int, rots: seq<Shape>, bs: Shape, row: int, col: int, target: Shape): Shape
    requires Shaped(field, cols) && bs in rots
  {
    if target in rots then
      var next := rots[(IndexOf(rots, bs) + 1) % |rots|];
      if CanPlace(field, cols, next, row, col) then next else bs
    else bs
  }

  /**
   * The piece changes only from row 3 on, only when it differs from the target and the target is one
   * of its rotations, and then it turns a quarter (`Rotate`) to a position where it fits.
   */
  lemma RotateTowardSpec(field: seq<seq<bool>>, cols: int, bs: Shape, row: int, col: int, target: Shape)
    requires Shaped(field, cols)
    ensures var r := RotateToward(field, cols, bs, row, col, target);
            r == bs ||
            (row >= 3 && bs != target && target in Rotations(bs) && r == Rotate(bs) && CanPlace(field, cols, r, row, col))
  {
    if bs != target && row >= 3 && target in Rotations(bs) {
      NextRotation(bs, target);
    }
  }

  /** Rotating from a legal position ends at a legal position. */
  lemma RotateTowardLegal(field: seq<seq<bool>>, cols: int, bs: Shape, row: int, col: int, target: Shape)
    requires Shaped(field, cols) && CanPlace(field, cols, bs, row, col)
    ensures CanPlace(field, cols, RotateToward(field, cols, bs, row, col, target), row, col)
  {
  }
}
