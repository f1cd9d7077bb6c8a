// Knight moves on the 8x8 board and the knight-move graph they span
// (frontend/src/lib/chess/knight.ts, lines 3-23).

module Knight {
  import opened Coords

  datatype Delta = Delta(df: int, dr: int)

  /** KNIGHT_DELTAS, in the order knightMoves tries them. */
  const KnightDeltas: seq<Delta> := [
    Delta(1, 2), Delta(2, 1), Delta(2, -1), Delta(1, -2),
    Delta(-1, -2), Delta(-2, -1), Delta(-2, 1), Delta(-1, 2)
  ]

  function Abs(x: int): nat {
    if x < 0 then -x else x
  }

  /** Reference definition of the graph: the file and rank differ by 1 and 2, in either order. */
  predicate IsKnightMove(a: Coord, b: Coord) {
    var i, j := CoordToIdx(a), CoordToIdx(b);
    var df, dr := Abs(j.f - i.f), Abs(j.r - i.r);
    (df == 1 && dr == 2) || (df == 2 && dr == 1)
  }

  /** Delta number k leads from a to the on-board square b. */
  predicate ByDelta(a: Coord, k: int, b: Coord)
    requires 0 <= k < 8
  {
    var i := CoordToIdx(a);
    var d := KnightDeltas[k];
    InsideBoard(i.f + d.df, i.r + d.dr) && b == IdxToCoord(i.f + d.df, i.r + d.dr)
  }

  /** What knightMoves has collected after trying the first k deltas. */
  function MovesUpTo(c: Coord, k: nat): seq<Coord>
    requires k <= 8
  {
    if k == 0 then []
    else
      var i := CoordToIdx(c);
      var d := KnightDeltas[k - 1];
      var nf, nr := i.f + d.df, i.r + d.dr;
      MovesUpTo(c, k - 1) + (if InsideBoard(nf, nr) then [IdxToCoord(nf, nr)] else [])
  }

  /** The list knightMoves returns. */
  function Neighbours(c: Coord): seq<Coord> {
    MovesUpTo(c, 8)
  }

  /** knightMoves: try every delta in turn and keep the on-board targets. */
  method KnightMoves(from: Coord) returns (res: seq<Coord>)
    ensures res == Neighbours(from)
  {
    var i := CoordToIdx(from);
    res := [];
    for k := 0 to |KnightDeltas|
      invariant res == MovesUpTo(from, k)
    {
      var d := KnightDeltas[k];
      var nf, nr := i.f + d.df, i.r + d.dr;
      if InsideBoard(nf, nr) {
        res := res + [IdxToCoord(nf, nr)];
      }
    }
  }

  /** Trying delta k - 1 adds exactly its target, when that is on the board. */
  lemma MovesUpToStep(c: Coord, k: nat, b: Coord)
    requires 0 < k <= 8
    ensures b in MovesUpTo(c, k) <==> b in MovesUpTo(c, k - 1) || ByDelta(c, k - 1, b)
  {
    var i := CoordToIdx(c);
    var d := KnightDeltas[k - 1];
    var nf, nr := i.f + d.df, i.r + d.dr;
    var last := if InsideBoard(nf, nr) then [IdxToCoord(nf, nr)] else [];
    assert MovesUpTo(c, k) == MovesUpTo(c, k - 1) + last;
  }

  lemma {:induction false} MovesUpToMembers(c: Coord, k: nat, b: Coord)
    requires k <= 8
    ensures b in MovesUpTo(c, k) <==> exists j :: 0 <= j < k && ByDelta(c, j, b)
  {
    if k > 0 {
      MovesUpToMembers(c, k - 1, b);
      MovesUpToStep(c, k, b);
      if ByDelta(c, k - 1, b) {
        assert exists j :: 0 <= j < k && ByDelta(c, j, b);
      }
    }
  }

  lemma ByDeltaIsKnightMove(a: Coord, k: int, b: Coord)
    requires 0 <= k < 8
    ensures ByDelta(a, k, b) ==> IsKnightMove(a, b)
  {
  }

  /** The delta that leads from a to b when b is one knight move away. */
  lemma KnightMoveHasDelta(a: Coord, b: Coord) returns (k: int)
    requires IsKnightMove(a, b)
    ensures 0 <= k < 8 && ByDelta(a, k, b)
  {
    var i, j := CoordToIdx(a), CoordToIdx(b);
    var df, dr := j.f - i.f, j.r - i.r;
    k := if df == 1 && dr == 2 then 0
      else if df == 2 && dr == 1 then 1
      else if df == 2 && dr == -1 then 2
      else if df == 1 && dr == -2 then 3
      else if df == -1 && dr == -2 then 4
      else if df == -2 && dr == -1 then 5
      else if df == -2 && dr == 1 then 6
      else 7;
    CoordRoundTrip(b);
  }

  /** knightMoves returns exactly the squares one knight move away. */
  lemma NeighboursAreKnightMoves(a: Coord, b: Coord)
    ensures b in Neighbours(a) <==> IsKnightMove(a, b)
  {
    MovesUpToMembers(a, 8, b);
    if IsKnightMove(a, b) {
      var k := KnightMoveHasDelta(a, b);
    }
    if b in Neighbours(a) {
      var k :| 0 <= k < 8 && ByDelta(a, k, b);
      ByDeltaIsKnightMove(a, k, b);
    }
  }

  /** A square is never its own neighbour. */
  lemma NotOwnNeighbour(a: Coord)
    ensures a !in Neighbours(a)
  {
    NeighboursAreKnightMoves(a, a);
  }

  /** The knight-move graph is undirected. */
  lemma NeighboursSymmetric(a: Coord, b: Coord)
    ensures b in Neighbours(a) <==> a in Neighbours(b)
  {
    NeighboursAreKnightMoves(a, b);
    NeighboursAreKnightMoves(b, a);
  }

  lemma {:induction false} MovesUpToDistinct(c: Coord, k: nat)
    requires k <= 8
    ensures |MovesUpTo(c, k)| <= k
    ensures forall x, y :: 0 <= x < y < |MovesUpTo(c, k)| ==> MovesUpTo(c, k)[x] != MovesUpTo(c, k)[y]
  {
    if k > 0 {
      MovesUpToDistinct(c, k - 1);
      var i := CoordToIdx(c);
      var d := KnightDeltas[k - 1];
      var nf, nr := i.f + d.df, i.r + d.dr;
      if InsideBoard(nf, nr) {
        var prefix := MovesUpTo(c, k - 1);
        var n := IdxToCoord(nf, nr);
        forall x | 0 <= x < |prefix| ensures prefix[x] != n {
          MovesUpToMembers(c, k - 1, prefix[x]);
          var j :| 0 <= j < k - 1 && ByDelta(c, j, prefix[x]);
          IdxToCoordInjective(i.f + KnightDeltas[j].df, i.r + KnightDeltas[j].dr, nf, nr);
        }
      }
    }
  }

  /** knightMoves lists no square twice and finds between 2 (a corner) and 8 squares. */
  lemma NeighboursCount(c: Coord)
    ensures forall x, y :: 0 <= x < y < |Neighbours(c)| ==> Neighbours(c)[x] != Neighbours(c)[y]
    ensures 2 <= |Neighbours(c)| <= 8
  {
    MovesUpToDistinct(c, 8);
    var i := CoordToIdx(c);
    // Towards the centre on both axes there is always room for (1, 2) and (2, 1).
    var sf := if i.f < 4 then 1 else -1;
    var sr := if i.r < 4 then 1 else -1;
    var n1 := IdxToCoord(i.f + sf, i.r + 2 * sr);
    var n2 := IdxToCoord(i.f + 2 * sf, i.r + sr);
    IdxRoundTrip(i.f + sf, i.r + 2 * sr);
    IdxRoundTrip(i.f + 2 * sf, i.r + sr);
    NeighboursAreKnightMoves(c, n1);
    NeighboursAreKnightMoves(c, n2);
    assert n1 != n2 by {
      IdxToCoordInjective(i.f + sf, i.r + 2 * sr, i.f + 2 * sf, i.r + sr);
    }
    TwoMembers(Neighbours(c), n1, n2);
  }

  lemma TwoMembers<T>(s: seq<T>, x: T, y: T)
    requires x in s && y in s && x != y
    ensures |s| >= 2
  {
  }

  // ----- walks in the knight-move graph -----

  /** Every consecutive pair is a knight move. */
  predicate IsWalk(w: seq<Coord>) {
    forall i :: 0 <= i < |w| - 1 ==> IsKnightMove(w[i], w[i + 1])
  }

  predicate IsWalkBetween(w: seq<Coord>, a: Coord, b: Coord) {
    |w| > 0 && w[0] == a && w[|w| - 1] == b && IsWalk(w)
  }

  function Reverse<T>(s: seq<T>): (r: seq<T>)
    ensures |r| == |s|
    ensures forall i :: 0 <= i < |s| ==> r[i] == s[|s| - 1 - i]
  {
    seq(|s|, i requires 0 <= i < |s| => s[|s| - 1 - i])
  }

  /** A walk followed by a knight move is a walk. */
  lemma WalkSnoc(w: seq<Coord>, x: Coord)
    requires IsWalk(w) && (w != [] ==> IsKnightMove(w[|w| - 1], x))
    ensures IsWalk(w + [x])
  {
    var u := w + [x];
    forall i | 0 <= i < |u| - 1 ensures IsKnightMove(u[i], u[i + 1]) {
      if i < |w| - 1 {
        assert u[i] == w[i] && u[i + 1] == w[i + 1];
      }
    }
  }

  /** A walk read backwards is a walk between the same squares the other way round. */
  lemma ReverseWalk(w: seq<Coord>, a: Coord, b: Coord)
    requires IsWalkBetween(w, a, b)
    ensures IsWalkBetween(Reverse(w), b, a)
  {
    var r := Reverse(w);
    forall i | 0 <= i < |r| - 1 ensures IsKnightMove(r[i], r[i + 1]) {
      assert IsKnightMove(w[|w| - 2 - i], w[|w| - 1 - i]);
    }
  }

  lemma JoinWalks(v: seq<Coord>, w: seq<Coord>, a: Coord, b: Coord, c: Coord)
    requires IsWalkBetween(v, a, b) && IsWalkBetween(w, b, c)
    ensures IsWalkBetween(v + w[1..], a, c)
  {
    var u := v + w[1..];
    forall i | 0 <= i < |u| - 1 ensures IsKnightMove(u[i], u[i + 1]) {
      if i < |v| - 1 {
        assert u[i] == v[i] && u[i + 1] == v[i + 1];
      } else {
        assert u[i] == w[i - |v| + 1] && u[i + 1] == w[i - |v| + 2];
      }
    }
  }

  /** x is within n knight moves of a (never, for negative n). */
  ghost predicate InBall(a: Coord, n: int, x: Coord)
    decreases n
  {
    n >= 0 &&
    (x == a || (n > 0 && (InBall(a, n - 1, x) || exists p :: InBall(a, n - 1, p) && IsKnightMove(p, x))))
  }

  lemma {:induction false} BallMonotone(a: Coord, m: int, n: int, x: Coord)
    requires m <= n && InBall(a, m, x)
    ensures InBall(a, n, x)
    decreases n - m
  {
    if m < n {
      BallMonotone(a, m, n - 1, x);
    }
  }

  /** The end of a walk of k moves from a is within k moves of a. */
  lemma {:induction false} WalkInBall(w: seq<Coord>, a: Coord)
    requires |w| > 0 && w[0] == a && IsWalk(w)
    ensures InBall(a, |w| - 1, w[|w| - 1])
  {
    if |w| > 1 {
      var v := w[..|w| - 1];
      assert IsWalk(v) by {
        forall i | 0 <= i < |v| - 1 ensures IsKnightMove(v[i], v[i + 1]) {
          assert v[i] == w[i] && v[i + 1] == w[i + 1];
        }
      }
      WalkInBall(v, a);
      assert IsKnightMove(w[|w| - 2], w[|w| - 1]);
    }
  }

  // ----- the board is connected -----

  lemma WalkFromA2()
    ensures IsWalk(["a2", "b4", "c2", "a1"])
  {
    var u: seq<Coord> := ["a2", "b4", "c2", "a1"];
    assert IsKnightMove(u[0], u[1]) && IsKnightMove(u[1], u[2]) && IsKnightMove(u[2], u[3]);
  }

  lemma WalkFromB1()
    ensures IsWalk(["b1", "d2", "b3", "a1"])
  {
    var v: seq<Coord> := ["b1", "d2", "b3", "a1"];
    assert IsKnightMove(v[0], v[1]) && IsKnightMove(v[1], v[2]) && IsKnightMove(v[2], v[3]);
  }

  lemma WalkFromB2()
    ensures IsWalk(["b2", "c4", "e3", "c2", "a1"])
  {
    var w: seq<Coord> := ["b2", "c4", "e3", "c2", "a1"];
    assert IsKnightMove(w[0], w[1]) && IsKnightMove(w[1], w[2]);
    assert IsKnightMove(w[2], w[3]) && IsKnightMove(w[3], w[4]);
  }

  /** Walks to a1 from the four squares nearest to it, spelled out. */
  ghost function CornerWalk(c: Coord): (w: seq<Coord>)
    requires CoordToIdx(c).f <= 1 && CoordToIdx(c).r <= 1
    ensures IsWalkBetween(w, c, "a1") && |w| <= 5
  {
    WalkFromA2();
    WalkFromB1();
    WalkFromB2();
    var i := CoordToIdx(c);
    CoordRoundTrip(c);
    if i.f == 0 && i.r == 0 then [c]
    else if i.f == 0 then ["a2", "b4", "c2", "a1"]
    else if i.r == 0 then ["b1", "d2", "b3", "a1"]
    else ["b2", "c4", "e3", "c2", "a1"]
  }

  /** A knight move that lowers file + rank, from any square not next to a1. */
  function Descend(c: Coord): (n: Coord)
    requires CoordToIdx(c).f >= 2 || CoordToIdx(c).r >= 2
    ensures IsKnightMove(c, n)
    ensures CoordToIdx(n).f + CoordToIdx(n).r < CoordToIdx(c).f + CoordToIdx(c).r
  {
    var i := CoordToIdx(c);
    var f, r := i.f, i.r;
    if f >= 2 && r >= 1 then IdxToCoord(f - 2, r - 1)
    else if f >= 1 && r >= 2 then IdxToCoord(f - 1, r - 2)
    else if r == 0 then IdxToCoord(f - 2, r + 1)
    else IdxToCoord(f + 1, r - 2)
  }

  /** An explicit walk from c to a1. */
  ghost function WalkToCorner(c: Coord): (w: seq<Coord>)
    ensures IsWalkBetween(w, c, "a1")
    ensures |w| <= CoordToIdx(c).f + CoordToIdx(c).r + 5
    decreases CoordToIdx(c).f + CoordToIdx(c).r
  {
    if CoordToIdx(c).f <= 1 && CoordToIdx(c).r <= 1 then CornerWalk(c)
    else
      var next := Descend(c);
      var rest := WalkToCorner(next);
      JoinWalks([c, next], rest, c, next, "a1");
      [c, next] + rest[1..]
  }

  /** Any two squares are joined by a walk. */
  ghost function ConnectingWalk(a: Coord, b: Coord): (w: seq<Coord>)
    ensures IsWalkBetween(w, a, b) && |w| <= 40
  {
    var wa, wb := WalkToCorner(a), WalkToCorner(b);
    ReverseWalk(wb, b, "a1");
    JoinWalks(wa, Reverse(wb), a, "a1", b);
    wa + Reverse(wb)[1..]
  }

  // ----- distance -----

  /** The first level from n on, up to 64, whose ball around a holds b. */
  ghost function Level(a: Coord, b: Coord, n: nat): nat
    decreases 64 - n
  {
    if n >= 64 || InBall(a, n, b) then n else Level(a, b, n + 1)
  }

  /** The least number of knight moves from a to b. */
  ghost function Distance(a: Coord, b: Coord): nat {
    Level(a, b, 0)
  }

  lemma {:induction false} LevelIsFirst(a: Coord, b: Coord, n: nat, bound: nat)
    requires n <= bound <= 64 && InBall(a, bound, b) && !InBall(a, n - 1, b)
    ensures InBall(a, Level(a, b, n), b) && !InBall(a, Level(a, b, n) - 1, b)
    decreases bound - n
  {
    if !InBall(a, n, b) {
      LevelIsFirst(a, b, n + 1, bound);
    }
  }

  /** b is within Distance(a, b) moves of a, and not within one move fewer. */
  lemma DistanceIsLevel(a: Coord, b: Coord)
    ensures InBall(a, Distance(a, b), b) && !InBall(a, Distance(a, b) - 1, b)
  {
    var w := ConnectingWalk(a, b);
    WalkInBall(w, a);
    LevelIsFirst(a, b, 0, |w| - 1);
  }

  /** The level at which b first enters the ball around a is the distance. */
  lemma DistanceUnique(a: Coord, b: Coord, n: int)
    requires InBall(a, n, b) && !InBall(a, n - 1, b)
    ensures Distance(a, b) == n
  {
    DistanceIsLevel(a, b);
    var d := Distance(a, b);
    if d < n {
      BallMonotone(a, d, n - 1, b);
    } else if n < d {
      BallMonotone(a, n, d - 1, b);
    }
  }

  /** No walk from a to b is shorter than the distance. */
  lemma WalkAtLeastDistance(w: seq<Coord>, a: Coord, b: Coord)
    requires IsWalkBetween(w, a, b)
    ensures |w| - 1 >= Distance(a, b)
  {
    WalkInBall(w, a);
    DistanceIsLevel(a, b);
    var d := Distance(a, b);
    if |w| - 1 < d {
      BallMonotone(a, |w| - 1, d - 1, b);
    }
  }

  lemma DistanceZero(a: Coord, b: Coord)
    ensures Distance(a, b) == 0 <==> a == b
  {
    DistanceIsLevel(a, b);
    if a == b {
      DistanceUnique(a, b, 0);
    }
  }

  /** Being within m moves of a bounds the distance by m. */
  lemma BallBoundsDistance(a: Coord, m: int, x: Coord)
    requires InBall(a, m, x)
    ensures Distance(a, x) <= m
  {
    DistanceIsLevel(a, x);
    var d := Distance(a, x);
    if d > m {
      BallMonotone(a, m, d - 1, x);
    }
  }

  /** One knight move changes the distance from a by at most one. */
  lemma DistanceStep(a: Coord, p: Coord, x: Coord)
    requires IsKnightMove(p, x)
    ensures Distance(a, x) <= Distance(a, p) + 1
  {
    var n := Distance(a, p);
    DistanceIsLevel(a, p);
    assert InBall(a, n + 1, x);
    BallBoundsDistance(a, n + 1, x);
  }

  /** Every square other than a has a neighbour one move closer to a. */
  lemma DistancePredecessor(a: Coord, x: Coord) returns (p: Coord)
    requires x != a
    ensures IsKnightMove(p, x) && Distance(a, p) == Distance(a, x) - 1
  {
    var n := Distance(a, x);
    DistanceIsLevel(a, x);
    DistanceZero(a, x);
    p :| InBall(a, n - 1, p) && IsKnightMove(p, x);
    BallBoundsDistance(a, n - 1, p);
    DistanceStep(a, p, x);
  }

  /** Squares whose file + rank have the same parity as a's. */
  predicate SameParity(a: Coord, b: Coord) {
    (CoordToIdx(a).f + CoordToIdx(a).r) % 2 == (CoordToIdx(b).f + CoordToIdx(b).r) % 2
  }

  /** A knight move always changes the parity of file + rank (the square colour). */
  lemma KnightMoveFlipsParity(a: Coord, b: Coord)
    requires IsKnightMove(a, b)
    ensures !SameParity(a, b)
  {
  }

  /** Within one move of b1 every square is b1 itself or has the other parity. */
  lemma NearB1Parity(x: Coord)
    requires InBall("b1", 1, x)
    ensures x == "b1" || !SameParity(x, "b1")
  {
    if x != "b1" {
      var p :| InBall("b1", 0, p) && IsKnightMove(p, x);
      KnightMoveFlipsParity(p, x);
    }
  }

  /** c5 has the other parity from b1, so it is no knight move from a square within one move of b1. */
  lemma NotOneMoveFromNearB1(p: Coord)
    requires InBall("b1", 1, p)
    ensures !IsKnightMove(p, "c5")
  {
    NearB1Parity(p);
    if IsKnightMove(p, "c5") {
      KnightMoveFlipsParity(p, "c5");
    }
  }

  /** The fallback task b1 -> c5 needs exactly three moves. */
  lemma FallbackDistance()
    ensures Distance("b1", "c5") == 3
  {
    var w: seq<Coord> := ["b1", "c3", "e4", "c5"];
    assert IsWalk(w);
    WalkInBall(w, "b1");
    forall p | InBall("b1", 1, p) ensures !IsKnightMove(p, "c5") {
      NotOneMoveFromNearB1(p);
    }
    DistanceUnique("b1", "c5", 3);
  }
}
