/**
 * The search loop shared by `spawn_new_piece` and `update`: `best_score` starts at infinity and a
 * candidate replaces the best one only when its score is strictly smaller.
 */
module Search {
  import opened Wrappers

  /** The best candidate so far together with its score (`best` and `best_score`). */
  datatype Scored<T> = Scored(item: T, score: real)

  /** `if score < best_score: best_score, best = score, x`. */
  function Pick<T>(acc: Option<Scored<T>>, x: T, s: real): Option<Scored<T>>
  {
    if acc.None? || s < acc.value.score then Some(Scored(x, s)) else acc
  }

  /** Trying items `xs` with scores `ss` in order, starting from `acc`. */
  function FoldPick<T>(acc: Option<Scored<T>>, xs: seq<T>, ss: seq<real>): Option<Scored<T>>
    requires |xs| == |ss|
  {
    if xs == [] then acc
    else Pick(FoldPick(acc, xs[..|xs| - 1], ss[..|ss| - 1]), xs[|xs| - 1], ss[|ss| - 1])
  }

  /** Trying `a` and then `b` is trying `a + b`. */
  lemma {:induction false} FoldPickAppend<T>(acc: Option<Scored<T>>, a: seq<T>, sa: seq<real>, b: seq<T>, sb: seq<real>)
    requires |a| == |sa| && |b| == |sb|
    ensures FoldPick(acc, a + b, sa + sb) == FoldPick(FoldPick(acc, a, sa), b, sb)
  {
    if b == [] {
      assert a + b == a && sa + sb == sa;
    } else {
      assert (a + b)[..|a + b| - 1] == a + b[..|b| - 1];
      assert (sa + sb)[..|sa + sb| - 1] == sa + sb[..|sb| - 1];
      FoldPickAppend(acc, a, sa, b[..|b| - 1], sb[..|sb| - 1]);
    }
  }

  /** Score i is no larger than any score and strictly smaller than every earlier one. */
  predicate FirstMin(ss: seq<real>, i: int)
  {
    0 <= i < |ss| &&
    (forall j :: 0 <= j < |ss| ==> ss[i] <= ss[j]) &&
    (forall j :: 0 <= j < i ==> ss[i] < ss[j])
  }

  lemma FirstMinKeep(ss: seq<real>, s: real, i: int)
    requires FirstMin(ss, i) && ss[i] <= s
    ensures FirstMin(ss + [s], i)
  {
    assert forall j :: 0 <= j < |ss| ==> (ss + [s])[j] == ss[j];
  }

  lemma FirstMinNew(ss: seq<real>, s: real, i: int)
    requires FirstMin(ss, i) && s < ss[i]
    ensures FirstMin(ss + [s], |ss|)
  {
    assert forall j :: 0 <= j < |ss| ==> (ss + [s])[j] == ss[j];
  }

  /**
   * Starting from nothing, the search finds a candidate exactly when there is one, and it finds the
   * first one with the smallest score, with that score.
   */
  lemma {:induction false} FoldPickSpec<T>(xs: seq<T>, ss: seq<real>)
    requires |xs| == |ss|
    ensures FoldPick(None, xs, ss).None? <==> xs == []
    ensures FoldPick(None, xs, ss).Some? ==>
              exists i :: FirstMin(ss, i) && xs[i] == FoldPick(None, xs, ss).value.item &&
                          ss[i] == FoldPick(None, xs, ss).value.score
  {
    if xs != [] {
      var n := |xs|;
      var xi, si := xs[..n - 1], ss[..n - 1];
      FoldPickSpec(xi, si);
      var b := FoldPick(None, xi, si);
      assert ss == si + [ss[n - 1]];
      if b.None? {
        assert xi == [] && si == [];
        assert FirstMin(ss, 0);
      } else {
        var i :| FirstMin(si, i) && xi[i] == b.value.item && si[i] == b.value.score;
        if ss[n - 1] < b.value.score {
          FirstMinNew(si, ss[n - 1], i);
        } else {
          FirstMinKeep(si, ss[n - 1], i);
          assert xs[i] == xi[i];
        }
      }
    }
  }
}
