// Squares of the 8x8 board and their (file, rank) indices
// (frontend/src/lib/chess/coord.ts).

module Coords {

  /** A square written the algebraic way: a file letter 'a'..'h' then a rank digit '1'..'8'. */
  predicate IsCoord(s: string) {
    |s| == 2 && 'a' <= s[0] <= 'h' && '1' <= s[1] <= '8'
  }

  type Coord = s: string | IsCoord(s) witness "a1"

  /** Zero-based file and rank indices; rank 0 is rank 1 (the bottom-up convention). */
  datatype Idx = Idx(f: int, r: int)

  predicate InsideBoard(f: int, r: int) {
    f >= 0 && f < 8 && r >= 0 && r < 8
  }

  /** 'a' -> 0 for the file, '1' -> 0 for the rank. */
  function CoordToIdx(c: Coord): (i: Idx)
    ensures InsideBoard(i.f, i.r)
  {
    Idx(c[0] as int - 'a' as int, c[1] as int - '1' as int)
  }

  /** The inverse of CoordToIdx; the source's cast to Coord is only sound on the board. */
  function IdxToCoord(f: int, r: int): (c: Coord)
    requires InsideBoard(f, r)
    ensures c[0] as int - 'a' as int == f && c[1] as int - '1' as int == r
  {
    [(97 + f) as char, (49 + r) as char]
  }

  lemma IdxRoundTrip(f: int, r: int)
    requires InsideBoard(f, r)
    ensures CoordToIdx(IdxToCoord(f, r)) == Idx(f, r)
  {
  }

  lemma CoordRoundTrip(c: Coord)
    ensures IdxToCoord(CoordToIdx(c).f, CoordToIdx(c).r) == c
  {
    var d := IdxToCoord(CoordToIdx(c).f, CoordToIdx(c).r);
    assert d[0] == c[0] && d[1] == c[1];
  }

  lemma IdxToCoordInjective(f1: int, r1: int, f2: int, r2: int)
    requires InsideBoard(f1, r1) && InsideBoard(f2, r2)
    ensures IdxToCoord(f1, r1) == IdxToCoord(f2, r2) <==> f1 == f2 && r1 == r2
  {
    if IdxToCoord(f1, r1) == IdxToCoord(f2, r2) {
      IdxRoundTrip(f1, r1);
      IdxRoundTrip(f2, r2);
    }
  }

  /** insideBoard accepts exactly the index pairs of some square. */
  lemma InsideBoardIsSquare(f: int, r: int)
    ensures InsideBoard(f, r) <==> exists c: Coord :: CoordToIdx(c) == Idx(f, r)
  {
    if InsideBoard(f, r) {
      IdxRoundTrip(f, r);
      assert CoordToIdx(IdxToCoord(f, r)) == Idx(f, r);
    }
  }

  /** All squares in file-major order: index 8 * f + r holds IdxToCoord(f, r). */
  function AllCoords(): (s: seq<Coord>)
    ensures |s| == 64
    ensures forall k :: 0 <= k < 64 ==> s[k] == IdxToCoord(k / 8, k % 8)
  {
    seq(64, k requires 0 <= k < 64 => IdxToCoord(k / 8, k % 8))
  }

  lemma AllCoordsComplete(c: Coord)
    ensures c in AllCoords()
  {
    var i := CoordToIdx(c);
    CoordRoundTrip(c);
    var k := 8 * i.f + i.r;
    assert k / 8 == i.f && k % 8 == i.r;
    assert AllCoords()[k] == c;
  }

  lemma AllCoordsDistinct(j: int, k: int)
    requires 0 <= j < 64 && 0 <= k < 64 && j != k
    ensures AllCoords()[j] != AllCoords()[k]
  {
    IdxToCoordInjective(j / 8, j % 8, k / 8, k % 8);
  }

  /** The set of all squares. */
  function Board(): set<Coord> {
    set c | c in AllCoords()
  }

  lemma {:induction false} DistinctSeqCard(s: seq<Coord>)
    requires forall j, k :: 0 <= j < k < |s| ==> s[j] != s[k]
    ensures |set c | c in s| == |s|
  {
    if s != [] {
      DistinctSeqCard(s[1..]);
      assert (set c | c in s) == {s[0]} + (set c | c in s[1..]);
    }
  }

  /** There are exactly 64 distinct squares, and every Coord is one of them. */
  lemma BoardHas64Squares()
    ensures |Board()| == 64
    ensures forall c: Coord :: c in Board()
  {
    forall j, k | 0 <= j < k < 64 ensures AllCoords()[j] != AllCoords()[k] {
      AllCoordsDistinct(j, k);
    }
    DistinctSeqCard(AllCoords());
    forall c: Coord ensures c in Board() {
      AllCoordsComplete(c);
    }
  }
}
