// The square-finding game: how its board names the cells, and the score counters
// (frontend/src/features/coord-blitz/CoordBlitz.tsx).

module CoordBlitz {
  import opened Coords
  import opened BoardOrientation
  import opened Helpers
  import opened ColorGuesser
  import Knight

  /** RANKS as this game declares it: bottom-up, 1 to 8. */
  const Ranks: seq<int> := [1, 2, 3, 4, 5, 6, 7, 8]

  /** RANKS holds 1..8, so index j is rank j + 1. */
  lemma BlitzRankNumber(j: int)
    requires 0 <= j < 8
    ensures Ranks[j] == j + 1
  {
  }

  /** displayRanks: RANKS, reversed when the board is flipped. */
  function BlitzDisplayRanks(flipped: bool): (s: seq<int>)
    ensures |s| == 8
    ensures forall i :: 0 <= i < 8 ==> s[i] == Ranks[if flipped then 7 - i else i]
  {
    if flipped then Knight.Reverse(Ranks) else Ranks
  }

  /** The rank shown in display row i: 8 - i when flipped, i + 1 otherwise. */
  lemma BlitzDisplayRank(flipped: bool, i: int)
    requires 0 <= i < 8
    ensures BlitzDisplayRanks(flipped)[i] == if flipped then 8 - i else i + 1
  {
    BlitzRankNumber(if flipped then 7 - i else i);
  }

  /** The rank labels beside the board, top row first: displayRanks read backwards. */
  function RankLabels(flipped: bool): (s: seq<int>)
    ensures |s| == 8
    ensures forall i :: 0 <= i < 8 ==> s[i] == BlitzDisplayRanks(flipped)[7 - i]
  {
    Knight.Reverse(BlitzDisplayRanks(flipped))
  }

  /** The label of display row i: i + 1 when flipped, 8 - i otherwise. */
  lemma RankLabel(flipped: bool, i: int)
    requires 0 <= i < 8
    ensures RankLabels(flipped)[i] == if flipped then i + 1 else 8 - i
  {
    BlitzDisplayRank(flipped, 7 - i);
  }

  /** toCoord as written: the cell in board row rIdx is named with displayRanks[rIdx]. */
  function ToCoordAsWritten(flipped: bool, fIdx: int, rIdx: int): (c: Coord)
    requires InsideBoard(fIdx, rIdx)
  {
    var file, rank := DisplayFiles(flipped)[fIdx], BlitzDisplayRanks(flipped)[rIdx];
    DisplayFileLetter(flipped, fIdx);
    BlitzDisplayRank(flipped, rIdx);
    assert 'a' <= file <= 'h' && 1 <= rank <= 8;
    [file, RankChar(rank)]
  }

  /** As written, the rank in every cell's name differs from the label of its row, and every
      cell is drawn in the colour opposite to the square it is named after. */
  lemma ToCoordAsWrittenMisnames(flipped: bool, fIdx: int, rIdx: int)
    requires InsideBoard(fIdx, rIdx)
    ensures ToCoordAsWritten(flipped, fIdx, rIdx)[1] != RankChar(RankLabels(flipped)[rIdx])
    ensures IsLightSquare(fIdx, rIdx) == !IsLightCoord(ToCoordAsWritten(flipped, fIdx, rIdx))
  {
    var fi := if flipped then 7 - fIdx else fIdx;
    var ri := if flipped then 7 - rIdx else rIdx;
    assert InsideBoard(fi, ri);
    LightSquareTopDown(fi, ri);
    HalfTurnKeepsColour(fIdx, rIdx);
    assert IsLightSquare(fIdx, rIdx) == IsLightSquare(fi, ri);
    DisplayFileLetter(flipped, fIdx);
    BlitzDisplayRank(flipped, rIdx);
    RankLabel(flipped, rIdx);
    var c := ToCoordAsWritten(flipped, fIdx, rIdx);
    assert BlitzDisplayRanks(flipped)[rIdx] == ri + 1;
    assert RankLabels(flipped)[rIdx] == 8 - ri;
    assert c == IdxToCoord(fi, ri);
  }

  /** For instance, unflipped, the top-left cell, labelled a8 and drawn light, is named a1. */
  lemma TopLeftCellNamedA1()
    ensures ToCoordAsWritten(false, 0, 0) == "a1" && RankLabels(false)[0] == 8 && IsLightSquare(0, 0)
  {
    DisplayFileLetter(false, 0);
    BlitzDisplayRank(false, 0);
    RankLabel(false, 0);
    assert ToCoordAsWritten(false, 0, 0) == IdxToCoord(0, 0);
  }

  /** toCoord naming each cell after the labels of its column and row. */
  function ToCoordCorrected(flipped: bool, fIdx: int, rIdx: int): (c: Coord)
    requires InsideBoard(fIdx, rIdx)
  {
    DisplayFileLetter(flipped, fIdx);
    RankLabel(flipped, rIdx);
    [DisplayFiles(flipped)[fIdx], RankChar(RankLabels(flipped)[rIdx])]
  }

  /** Corrected, every cell's name agrees with its labels and with the colour it is drawn in. */
  lemma ToCoordCorrectedMatchesBoard(flipped: bool, fIdx: int, rIdx: int)
    requires InsideBoard(fIdx, rIdx)
    ensures ToCoordCorrected(flipped, fIdx, rIdx) == ToCoord(flipped, fIdx, rIdx)
    ensures ToCoordCorrected(flipped, fIdx, rIdx)[0] == DisplayFiles(flipped)[fIdx]
    ensures ToCoordCorrected(flipped, fIdx, rIdx)[1] == RankChar(RankLabels(flipped)[rIdx])
    ensures IsLightSquare(fIdx, rIdx) == IsLightCoord(ToCoordCorrected(flipped, fIdx, rIdx))
  {
    var m := MapIdx(flipped, rIdx, fIdx);
    var f, r := m.fi, 7 - m.ri;
    assert InsideBoard(f, r);
    LightSquareTopDown(f, r);
    HalfTurnKeepsColour(fIdx, rIdx);
    assert IsLightSquare(fIdx, rIdx) == IsLightSquare(f, 7 - r);
    RankNumber(m.ri);
    RankLabel(flipped, rIdx);
    assert RankLabels(flipped)[rIdx] == RanksTopDown[m.ri];
    var c := ToCoordCorrected(flipped, fIdx, rIdx);
    assert c == ToCoord(flipped, fIdx, rIdx);
    assert c == IdxToCoord(f, r);
  }

  /** The game state: running or not, the square to find, hits and clicks. */
  class Blitz {
    var active: bool
    var target: Coord
    var score: nat
    var tries: nat

    /** Hits are clicks. */
    ghost predicate Valid()
      reads this
    {
      score <= tries
    }

    /** The initial state: stopped, target e4, no clicks. */
    constructor()
      ensures Valid() && !active && target == "e4" && score == 0 && tries == 0
    {
      active := false;
      target := "e4";
      score := 0;
      tries := 0;
    }

    /** start: counters to zero, a fresh target, running. */
    method Start(next: Coord)
      modifies this
      ensures Valid() && active && score == 0 && tries == 0 && target == next
    {
      score := 0;
      tries := 0;
      target := next;
      active := true;
    }

    /** stop: only stops; the counters and the target are kept. */
    method Stop()
      requires Valid()
      modifies this
      ensures Valid() && !active
      ensures target == old(target) && score == old(score) && tries == old(tries)
    {
      active := false;
    }

    /** handleSquareClick: ignored while stopped; otherwise one more click, and a hit scores and
        draws the next target. */
    method HandleSquareClick(c: Coord, next: Coord)
      requires Valid()
      modifies this
      ensures Valid() && active == old(active)
      ensures !old(active) ==> target == old(target) && score == old(score) && tries == old(tries)
      ensures old(active) ==> tries == old(tries) + 1
      ensures old(active) && c == old(target) ==> score == old(score) + 1 && target == next
      ensures old(active) && c != old(target) ==> score == old(score) && target == old(target)
    {
      if !active {
        return;
      }
      tries := tries + 1;
      if c == target {
        score := score + 1;
        target := next;
      }
    }
  }
}
