/** The seven tetrominoes and the rotation generator of the game. */
module Pieces {
  import opened Seqs

  /** A block offset `(r, c)` relative to the piece's anchor. */
  type Block = (int, int)
  type Shape = seq<Block>

  const I: Shape := [(0, 0), (1, 0), (2, 0), (3, 0)]
  const O: Shape := [(0, 0), (0, 1), (1, 0), (1, 1)]
  const T: Shape := [(0, 1), (1, 0), (1, 1), (1, 2)]
  const L: Shape := [(0, 0), (1, 0), (2, 0), (2, 1)]
  const J: Shape := [(0, 1), (1, 1), (2, 1), (2, 0)]
  const S: Shape := [(0, 1), (0, 2), (1, 0), (1, 1)]
  const Z: Shape := [(0, 0), (0, 1), (1, 1), (1, 2)]

  /** `TETROMINOS.values()` (and `.keys()`) in the dictionary's insertion order. */
  const TETROMINOS: seq<Shape> := [I, O, T, L, J, S, Z]

  /** Every block `(r, c)` becomes `(-c, r)`, keeping the list order. */
  function Rotate(bs: Shape): (r: Shape)
    ensures |r| == |bs|
  {
    seq(|bs|, k requires 0 <= k < |bs| => (-bs[k].1, bs[k].0))
  }

  /** `k` successive rotations. */
  function RotateTimes(bs: Shape, k: nat): Shape
  {
    if k == 0 then bs else Rotate(RotateTimes(bs, k - 1))
  }

  /**
   * The key the source keeps in `seen`, `tuple(sorted(current))`: two block lists have the same
   * sorted tuple exactly when they hold the same blocks with the same multiplicities.
   */
  function Key(bs: Shape): multiset<Block>
  {
    multiset(bs)
  }

  /** The rest of the loop of `get_rotations` from `current`, with `seen` keys and `budget` iterations left. */
  function RotationsFrom(current: Shape, seen: set<multiset<Block>>, budget: nat): seq<Shape>
    decreases budget
  {
    if budget == 0 || Key(current) in seen then []
    else [current] + RotationsFrom(Rotate(current), seen + {Key(current)}, budget - 1)
  }

  /** `get_rotations` turns at most this many times. */
  const TURNS: nat := 4

  function Rotations(bs: Shape): seq<Shape>
  {
    RotationsFrom(bs, {}, TURNS)
  }

  /** `get_rotations`: rotate up to four times, stopping at the first key already seen. */
  method GetRotations(blocks: Shape) returns (rotations: seq<Shape>)
    ensures rotations == Rotations(blocks)
  {
    var seen: set<multiset<Block>> := {};
    rotations := [];
    var current := blocks;
    var k := 0;
    while k < 4
      invariant 0 <= k <= 4
      invariant rotations + RotationsFrom(current, seen, 4 - k) == Rotations(blocks)
    {
      var norm := Key(current);
      if norm in seen {
        break;
      }
      seen := seen + {norm};
      rotations := rotations + [current];
      current := Rotate(current);
      k := k + 1;
    }
  }

  /** Entry i of the generator's output is the start rotated i times, none of its keys was seen before. */
  lemma {:induction false} RotationsFromShape(current: Shape, seen: set<multiset<Block>>, budget: nat)
    ensures |RotationsFrom(current, seen, budget)| <= budget
    ensures budget > 0 && Key(current) !in seen ==> |RotationsFrom(current, seen, budget)| >= 1
    ensures forall i :: 0 <= i < |RotationsFrom(current, seen, budget)| ==>
              RotationsFrom(current, seen, budget)[i] == RotateTimes(current, i)
    ensures forall i :: 0 <= i < |RotationsFrom(current, seen, budget)| ==>
              Key(RotationsFrom(current, seen, budget)[i]) !in seen
    ensures forall i, j :: 0 <= i < j < |RotationsFrom(current, seen, budget)| ==>
              Key(RotationsFrom(current, seen, budget)[i]) != Key(RotationsFrom(current, seen, budget)[j])
    decreases budget
  {
    var r := RotationsFrom(current, seen, budget);
    if budget > 0 && Key(current) !in seen {
      var seen' := seen + {Key(current)};
      var rest := RotationsFrom(Rotate(current), seen', budget - 1);
      RotationsFromShape(Rotate(current), seen', budget - 1);
      assert r == [current] + rest;
      forall i | 1 <= i < |r| ensures r[i] == RotateTimes(current, i) {
        RotateTimesShift(current, i - 1);
      }
    }
  }

  /** Rotating first and then k times is rotating k + 1 times. */
  lemma {:induction false} RotateTimesShift(bs: Shape, k: nat)
    ensures RotateTimes(Rotate(bs), k) == RotateTimes(bs, k + 1)
  {
    if k > 0 {
      RotateTimesShift(bs, k - 1);
    }
  }

  /**
   * The generator stops early only when the next rotation's key is already seen or is the key of the
   * entry `i` it returns.
   */
  lemma {:induction false} RotationsFromStop(current: Shape, seen: set<multiset<Block>>, budget: nat) returns (i: int)
    ensures var r := RotationsFrom(current, seen, budget);
            |r| < budget ==>
              Key(RotateTimes(current, |r|)) in seen || (0 <= i < |r| && Key(r[i]) == Key(RotateTimes(current, |r|)))
    decreases budget
  {
    i := 0;
    var r := RotationsFrom(current, seen, budget);
    if budget > 0 && Key(current) !in seen {
      var seen' := seen + {Key(current)};
      var rest := RotationsFrom(Rotate(current), seen', budget - 1);
      var j := RotationsFromStop(Rotate(current), seen', budget - 1);
      assert r == [current] + rest;
      if |r| < budget {
        RotateTimesShift(current, |rest|);
        var next := RotateTimes(current, |r|);
        assert next == RotateTimes(Rotate(current), |rest|);
        if Key(next) !in seen && Key(next) != Key(current) {
          i := j + 1;
          assert r[i] == rest[j];
        }
      }
    }
  }

  /**
   * `get_rotations` returns one to four entries, the first is the input, each next one is the previous
   * one rotated, no two have the same key, and fewer than four means the next rotation repeats a key.
   */
  lemma RotationsSpec(bs: Shape)
    ensures 1 <= |Rotations(bs)| <= 4
    ensures Rotations(bs)[0] == bs
    ensures forall i :: 0 <= i < |Rotations(bs)| - 1 ==> Rotations(bs)[i + 1] == Rotate(Rotations(bs)[i])
    ensures forall i, j :: 0 <= i < j < |Rotations(bs)| ==> Key(Rotations(bs)[i]) != Key(Rotations(bs)[j])
    ensures forall i :: 0 <= i < |Rotations(bs)| ==> |Rotations(bs)[i]| == |bs|
    ensures |Rotations(bs)| < 4 ==>
              exists i :: 0 <= i < |Rotations(bs)| && Key(Rotations(bs)[i]) == Key(Rotate(Rotations(bs)[|Rotations(bs)| - 1]))
  {
    var r := Rotations(bs);
    RotationsFromShape(bs, {}, 4);
    var k := RotationsFromStop(bs, {}, 4);
    forall i | 0 <= i < |r| ensures |r[i]| == |bs| {
      RotateTimesLength(bs, i);
    }
    if |r| < 4 {
      assert RotateTimes(bs, |r|) == Rotate(r[|r| - 1]);
      assert Key(r[k]) == Key(Rotate(r[|r| - 1]));
    }
  }

  predicate NonEmpty(shapes: seq<Shape>)
  {
    forall k :: 0 <= k < |shapes| ==> |shapes[k]| > 0
  }

  /** The rotations of each shape in turn, in the order the placement search visits them. */
  function AllRotations(shapes: seq<Shape>): seq<Shape>
  {
    FlatMap(Rotations, shapes)
  }

  /** A shape is in the list exactly when it is a rotation of one of the shapes. */
  lemma AllRotationsSpec(shapes: seq<Shape>, b: Shape)
    ensures b in AllRotations(shapes) <==> exists k :: 0 <= k < |shapes| && b in Rotations(shapes[k])
  {
    FlatMapMember(Rotations, shapes, b);
  }

  /** The rotations of the first k + 1 shapes are those of the first k followed by those of shape k. */
  lemma AllRotationsSnoc(shapes: seq<Shape>, k: nat)
    requires k < |shapes|
    ensures AllRotations(shapes[..k + 1]) == AllRotations(shapes[..k]) + Rotations(shapes[k])
  {
    FlatMapSnoc(Rotations, shapes, k);
  }

  /** Rotations keep their block count, so no rotation of a non-empty shape is empty. */
  lemma AllRotationsNonEmpty(shapes: seq<Shape>)
    requires NonEmpty(shapes)
    ensures NonEmpty(AllRotations(shapes))
  {
    var r := AllRotations(shapes);
    forall i | 0 <= i < |r| ensures |r[i]| > 0 {
      AllRotationsSpec(shapes, r[i]);
      var k :| 0 <= k < |shapes| && r[i] in Rotations(shapes[k]);
      RotationsSpec(shapes[k]);
    }
  }

  /** The first two entries of `get_rotations`: the input, then the input turned once. */
  lemma RotationsHead(bs: Shape)
    ensures |Rotations(bs)| >= 1 && Rotations(bs)[0] == bs
    ensures |Rotations(bs)| >= 2 ==> Rotations(bs)[1] == Rotate(bs)
  {
    var r := Rotations(bs);
    assert r == [bs] + RotationsFrom(Rotate(bs), {Key(bs)}, 3);
  }

  /**
   * When the target is another of the rotations, the entry after the current one in the list, `update`'s
   * `rotations[(idx + 1) % len(rotations)]`, is the current one turned once.
   */
  lemma NextRotation(bs: Shape, target: Shape)
    requires bs != target && target in Rotations(bs)
    ensures bs in Rotations(bs)
    ensures Rotations(bs)[(IndexOf(Rotations(bs), bs) + 1) % |Rotations(bs)|] == Rotate(bs)
  {
    RotationsHead(bs);
    AfterFirst(Rotations(bs), bs, target, Rotate(bs));
  }

  lemma {:induction false} RotateTimesLength(bs: Shape, k: nat)
    ensures |RotateTimes(bs, k)| == |bs|
  {
    if k > 0 {
      RotateTimesLength(bs, k - 1);
    }
  }

  /** Four quarter turns give the same list back. */
  lemma RotateFourTimes(bs: Shape)
    ensures RotateTimes(bs, 4) == bs
  {
    var r1 := Rotate(bs);
    var r2 := Rotate(r1);
    var r3 := Rotate(r2);
    var r4 := Rotate(r3);
    assert RotateTimes(bs, 1) == r1;
    assert RotateTimes(bs, 2) == r2;
    assert RotateTimes(bs, 3) == r3;
    assert RotateTimes(bs, 4) == r4;
    assert forall k :: 0 <= k < |bs| ==> r1[k] == (-bs[k].1, bs[k].0);
    assert forall k :: 0 <= k < |bs| ==> r2[k] == (-bs[k].0, -bs[k].1);
    assert forall k :: 0 <= k < |bs| ==> r3[k] == (bs[k].1, -bs[k].0);
    assert forall k :: 0 <= k < |bs| ==> r4[k] == bs[k];
  }

  /** When the first four rotations have pairwise different keys, the generator returns all four. */
  lemma FourDistinctKeys(bs: Shape)
    requires Key(RotateTimes(bs, 0)) != Key(RotateTimes(bs, 1))
    requires Key(RotateTimes(bs, 0)) != Key(RotateTimes(bs, 2))
    requires Key(RotateTimes(bs, 0)) != Key(RotateTimes(bs, 3))
    requires Key(RotateTimes(bs, 1)) != Key(RotateTimes(bs, 2))
    requires Key(RotateTimes(bs, 1)) != Key(RotateTimes(bs, 3))
    requires Key(RotateTimes(bs, 2)) != Key(RotateTimes(bs, 3))
    ensures |Rotations(bs)| == 4
  {
    var r := Rotations(bs);
    RotationsFromShape(bs, {}, 4);
    var k := RotationsFromStop(bs, {}, 4);
    if 0 <= k < |r| {
      assert r[k] == RotateTimes(bs, k);
    }
  }

  /** The square turned once, twice and three times. */
  const O1: Shape := [(0, 0), (-1, 0), (0, 1), (-1, 1)]
  const O2: Shape := [(0, 0), (0, -1), (-1, 0), (-1, -1)]
  const O3: Shape := [(0, 0), (1, 0), (0, -1), (1, -1)]

  lemma SquareTurns(bs: Shape)
    requires bs == O
    ensures RotateTimes(bs, 1) == O1
    ensures RotateTimes(bs, 2) == O2
    ensures RotateTimes(bs, 3) == O3
  {
    assert Rotate(O) == O1;
    assert Rotate(O1) == O2;
    assert Rotate(O2) == O3;
  }

  lemma KeysDiffer(a: Shape, b: Shape, x: Block)
    requires x in a && x !in b
    ensures Key(a) != Key(b)
  {
    assert x in Key(a) && x !in Key(b);
  }

  /** The square turned 0 .. 3 times. */
  function SquareTurn(k: nat): Shape
    requires k < 4
  {
    [O, O1, O2, O3][k]
  }

  /** A block that turn j of the square covers and no earlier turn does. */
  function SquareWitness(j: nat): Block
  {
    if j == 1 then (-1, 0) else if j == 2 then (0, -1) else (1, -1)
  }

  /** Any two of the four turns of the square cover different cells. */
  lemma SquareTurnsDiffer(i: nat, j: nat)
    requires i < j < 4
    ensures Key(SquareTurn(i)) != Key(SquareTurn(j))
  {
    KeysDiffer(SquareTurn(j), SquareTurn(i), SquareWitness(j));
  }

  /**
   * The key is not translated back to the origin, so even the square, whose four quarter turns cover
   * different cells, comes back with four entries.
   */
  lemma SquareHasFourRotations(bs: Shape)
    requires bs == O
    ensures |Rotations(bs)| == 4
  {
    SquareTurns(bs);
    SquareTurnsDiffer(0, 1);
    SquareTurnsDiffer(0, 2);
    SquareTurnsDiffer(0, 3);
    SquareTurnsDiffer(1, 2);
    SquareTurnsDiffer(1, 3);
    SquareTurnsDiffer(2, 3);
    FourDistinctKeys(bs);
  }
}
