/** Sequence helpers shared by the encoders: splitting into fixed-size groups and joining them back. */
module Seqs {

  function Min(a: int, b: int): int
  {
    if a <= b then a else b
  }

  /** `s.index(x)`: the first position of x. */
  function IndexOf<T(==)>(s: seq<T>, x: T): (i: nat)
    requires x in s
    ensures i < |s| && s[i] == x
    ensures forall j :: 0 <= j < i ==> s[j] != x
  {
    if s[0] == x then 0 else 1 + IndexOf(s[1..], x)
  }

  /** In a list starting with x and holding some other y, the successor (cyclically) of x's first position is the second element. */
  lemma AfterFirst<T>(s: seq<T>, x: T, y: T, second: T)
    requires |s| >= 1 && s[0] == x && y in s && y != x
    requires |s| >= 2 ==> s[1] == second
    ensures x in s
    ensures s[(IndexOf(s, x) + 1) % |s|] == second
  {
    assert IndexOf(s, x) == 0;
    var k :| 0 <= k < |s| && s[k] == y;
    assert |s| >= 2;
    assert (0 + 1) % |s| == 1;
  }

  /** Concatenation of a list of lists, in order. */
  function Flatten<T>(ss: seq<seq<T>>): seq<T>
  {
    if ss == [] then [] else ss[0] + Flatten(ss[1..])
  }

  /** Flattening distributes over concatenation. */
  lemma {:induction false} FlattenAppend<T>(a: seq<seq<T>>, b: seq<seq<T>>)
    ensures Flatten(a + b) == Flatten(a) + Flatten(b)
  {
    if a != [] {
      assert (a + b)[1..] == a[1..] + b;
      FlattenAppend(a[1..], b);
    } else {
      assert a + b == b;
    }
  }

  /** An element of the flattening is an element of one of the lists. */
  lemma {:induction false} FlattenMember<T>(ss: seq<seq<T>>, x: T)
    ensures x in Flatten(ss) <==> exists k :: 0 <= k < |ss| && x in ss[k]
  {
    if ss != [] {
      FlattenMember(ss[1..], x);
      if exists k :: 0 <= k < |ss| && x in ss[k] {
        var k :| 0 <= k < |ss| && x in ss[k];
        if k > 0 {
          assert ss[1..][k - 1] == ss[k];
        }
      }
      if exists k :: 0 <= k < |ss[1..]| && x in ss[1..][k] {
        var k :| 0 <= k < |ss[1..]| && x in ss[1..][k];
        assert ss[k + 1] == ss[1..][k];
      }
    }
  }

  /** Appending one list appends its elements. */
  lemma FlattenSnoc<T>(a: seq<seq<T>>, x: seq<T>)
    ensures Flatten(a + [x]) == Flatten(a) + x
  {
    FlattenAppend(a, [x]);
    assert Flatten([x]) == x + Flatten([]);
  }

  /** `f` applied to each element in turn, the results concatenated. */
  function FlatMap<A, B>(f: A -> seq<B>, xs: seq<A>): seq<B>
  {
    Flatten(seq(|xs|, i requires 0 <= i < |xs| => f(xs[i])))
  }

  lemma FlatMapSnoc<A, B>(f: A -> seq<B>, xs: seq<A>, k: nat)
    requires k < |xs|
    ensures FlatMap(f, xs[..k + 1]) == FlatMap(f, xs[..k]) + f(xs[k])
  {
    var a, b := xs[..k], xs[..k + 1];
    var la := seq(|a|, i requires 0 <= i < |a| => f(a[i]));
    var lb := seq(|b|, i requires 0 <= i < |b| => f(b[i]));
    assert lb == la + [f(xs[k])];
    FlattenSnoc(la, f(xs[k]));
  }

  lemma FlatMapMember<A, B>(f: A -> seq<B>, xs: seq<A>, y: B)
    ensures y in FlatMap(f, xs) <==> exists k :: 0 <= k < |xs| && y in f(xs[k])
  {
    var lists := seq(|xs|, i requires 0 <= i < |xs| => f(xs[i]));
    FlattenMember(lists, y);
    if y in Flatten(lists) {
      var k :| 0 <= k < |lists| && y in lists[k];
      assert lists[k] == f(xs[k]);
    }
    if exists k :: 0 <= k < |xs| && y in f(xs[k]) {
      var k :| 0 <= k < |xs| && y in f(xs[k]);
      assert lists[k] == f(xs[k]);
    }
  }

  /** The four parts of `a + b + c + d` are where their lengths put them. */
  lemma SliceOfFour<T>(a: seq<T>, b: seq<T>, c: seq<T>, d: seq<T>)
    ensures (a + b + c + d)[..|a|] == a
    ensures |d| > 0 ==> (a + b + c + d)[|a| + |b| + |c| + |d| - 1] == d[|d| - 1]
  {
  }

  lemma Assoc<T>(a: seq<T>, b: seq<T>, c: seq<T>)
    ensures a + (b + c) == a + b + c
  {
  }

  /** The two halves of `a + b` split at |a|. */
  lemma SplitAt<T>(a: seq<T>, b: seq<T>)
    ensures (a + b)[..|a|] == a && (a + b)[|a|..] == b
  {
  }

  /** The middle two parts of `a + b + c + d`. */
  lemma Inner4<T>(a: seq<T>, b: seq<T>, c: seq<T>, d: seq<T>)
    ensures (a + b + c + d)[|a| .. |a| + |b| + |c|] == b + c
  {
    assert a + b + c + d == a + (b + c) + d;
  }

  /** A window of `b + c` lies in b or in c. */
  lemma SliceOfTwo<T>(b: seq<T>, c: seq<T>, i: int, j: int)
    requires 0 <= i <= j <= |b| + |c|
    ensures j <= |b| ==> (b + c)[i..j] == b[i..j]
    ensures |b| <= i ==> (b + c)[i..j] == c[i - |b| .. j - |b|]
  {
  }

  lemma SliceOfSlice<T>(s: seq<T>, lo: int, hi: int, i: int, j: int)
    requires 0 <= lo <= hi <= |s| && 0 <= i <= j <= hi - lo
    ensures s[lo..hi][i..j] == s[lo + i .. lo + j]
  {
    var t := s[lo..hi];
    forall x | 0 <= x < j - i ensures t[i..j][x] == s[lo + i .. lo + j][x] {
      assert t[i..j][x] == t[i + x] == s[lo + i + x];
    }
  }

  /** `s[i:i+n]` for i = 0, n, 2n, ... while i < len(s): consecutive groups of at most `n` elements. */
  function Chunks<T>(s: seq<T>, n: nat): (r: seq<seq<T>>)
    requires n > 0
    ensures forall j :: 0 <= j < |r| ==> 0 < |r[j]| <= n
    ensures forall j, x :: 0 <= j < |r| && x in r[j] ==> x in s
    decreases |s|
  {
    if |s| == 0 then [] else
    var k := Min(n, |s|);
    var rest := Chunks(s[k..], n);
    assert forall j, x :: 0 <= j < |rest| && x in rest[j] ==> x in s by {
      forall j, x | 0 <= j < |rest| && x in rest[j] ensures x in s {
        assert x in s[k..];
      }
    }
    [s[..k]] + rest
  }

  /** The groups from position i on: the one starting at i, then those after it. */
  lemma ChunksAt<T>(s: seq<T>, n: nat, i: nat)
    requires n > 0 && i < |s|
    ensures Chunks(s[i..], n) == [s[i..Min(i + n, |s|)]] + Chunks(s[Min(i + n, |s|)..], n)
  {
    var rest := s[i..];
    assert rest[..Min(n, |rest|)] == s[i..Min(i + n, |s|)];
    assert rest[Min(n, |rest|)..] == s[Min(i + n, |s|)..];
  }

  /** Joining the groups back together gives the original sequence. */
  lemma {:induction false} ChunksFlatten<T>(s: seq<T>, n: nat)
    requires n > 0
    ensures Flatten(Chunks(s, n)) == s
    decreases |s|
  {
    if |s| > 0 {
      var k := Min(n, |s|);
      ChunksFlatten(s[k..], n);
      assert Chunks(s, n)[1..] == Chunks(s[k..], n);
      assert s == s[..k] + s[k..];
    }
  }

  /** There are ceil(|s| / n) groups: n * |r| - n < |s| <= n * |r|. */
  lemma {:induction false} ChunksCount<T>(s: seq<T>, n: nat)
    requires n > 0
    ensures n * |Chunks(s, n)| - n < |s| <= n * |Chunks(s, n)|
    decreases |s|
  {
    if |s| > 0 {
      var k := Min(n, |s|);
      ChunksCount(s[k..], n);
      var m := |Chunks(s[k..], n)|;
      assert |Chunks(s, n)| == m + 1;
      assert n * (m + 1) == n * m + n;
      if |s| <= n {
        assert s[k..] == [];
        assert m == 0;
      }
    }
  }

  /** Group j holds exactly the elements j*n .. j*n+n-1 (cut at the end of s). */
  lemma ChunkAt<T>(s: seq<T>, n: nat, j: nat)
    requires n > 0 && j < |Chunks(s, n)|
    ensures j * n < |s|
    ensures Chunks(s, n)[j] == s[j * n .. Min(j * n + n, |s|)]
  {
    ChunkFrom(s, n, j);
    OffsetIsProduct(j, n);
  }

  /** n added j times. */
  function Offset(j: nat, n: nat): nat
  {
    if j == 0 then 0 else Offset(j - 1, n) + n
  }

  lemma {:induction false} OffsetIsProduct(j: nat, n: nat)
    ensures Offset(j, n) == j * n
  {
    if j > 0 {
      OffsetIsProduct(j - 1, n);
      assert (j - 1) * n == j * n - n;
    }
  }

  lemma {:induction false} ChunkFrom<T>(s: seq<T>, n: nat, j: nat)
    requires n > 0 && j < |Chunks(s, n)|
    ensures Offset(j, n) < |s|
    ensures Chunks(s, n)[j] == s[Offset(j, n) .. Min(Offset(j, n) + n, |s|)]
    decreases j
  {
    if j > 0 {
      ChunkStep(s, n, j);
      ChunkFrom(s[n..], n, j - 1);
      SliceShift(s, n, Offset(j - 1, n));
    }
  }

  /** Past the first group, group j of s is group j - 1 of the rest. */
  lemma ChunkStep<T>(s: seq<T>, n: nat, j: nat)
    requires n > 0 && 0 < j < |Chunks(s, n)|
    ensures n < |s|
    ensures j - 1 < |Chunks(s[n..], n)|
    ensures Chunks(s, n)[j] == Chunks(s[n..], n)[j - 1]
  {
    var k := Min(n, |s|);
    assert Chunks(s, n) == [s[..k]] + Chunks(s[k..], n);
  }

  /** A window of s[n..] is the same window of s moved by n. */
  lemma SliceShift<T>(s: seq<T>, n: nat, o: nat)
    requires n <= |s| && o < |s| - n
    ensures s[n..][o .. Min(o + n, |s| - n)] == s[o + n .. Min(o + n + n, |s|)]
  {
  }
}
