// Board orientation: which file and rank each display column and row shows, and the
// square a display cell stands for (frontend/src/hooks/useBoardOrientation.ts,
// with FILES and RANKS_TOPDOWN from frontend/src/lib/chess/constants.ts).

module BoardOrientation {
  import opened Coords
  import Knight

  /** FILES: the file letters in board order, 'a' to 'h'. */
  const Files: seq<char> := ['a', 'b', 'c', 'd', 'e', 'f', 'g', 'h']

  /** RANKS_TOPDOWN: the rank numbers from the top row of an unflipped board down, 8 to 1. */
  const RanksTopDown: seq<int> := [8, 7, 6, 5, 4, 3, 2, 1]

  /** The decimal digit a rank number 1..8 prints as inside a template string. */
  function RankChar(n: int): (c: char)
    requires 1 <= n <= 8
    ensures '1' <= c <= '8' && c as int - '1' as int == n - 1
  {
    (48 + n) as char
  }

  /** FILES holds the letters a..h, so index j is the letter 'a' + j. */
  lemma FileLetter(j: int)
    requires 0 <= j < 8
    ensures Files[j] as int == 'a' as int + j
  {
  }

  /** RANKS_TOPDOWN holds 8..1, so index j is rank 8 - j. */
  lemma RankNumber(j: int)
    requires 0 <= j < 8
    ensures RanksTopDown[j] == 8 - j
  {
  }

  /** displayFiles: FILES left to right, or read backwards when the board is flipped. */
  function DisplayFiles(flipped: bool): (s: seq<char>)
    ensures |s| == 8
    ensures forall i :: 0 <= i < 8 ==> s[i] == Files[if flipped then 7 - i else i]
  {
    if flipped then Knight.Reverse(Files) else Files
  }

  /** displayRanks: RANKS_TOPDOWN top to bottom, or read backwards when the board is flipped. */
  function DisplayRanks(flipped: bool): (s: seq<int>)
    ensures |s| == 8
    ensures forall i :: 0 <= i < 8 ==> s[i] == RanksTopDown[if flipped then 7 - i else i]
  {
    if flipped then Knight.Reverse(RanksTopDown) else RanksTopDown
  }

  /** The letter in display column i: 'a' + i, or 'h' - i when the board is flipped. */
  lemma DisplayFileLetter(flipped: bool, i: int)
    requires 0 <= i < 8
    ensures DisplayFiles(flipped)[i] as int == if flipped then 'h' as int - i else 'a' as int + i
  {
    FileLetter(if flipped then 7 - i else i);
  }

  /** A row and a column: a display cell, or an index pair into the top-down board array. */
  datatype Cell = Cell(ri: int, fi: int)

  /** mapIdx: the board-array cell shown at a display cell; both indices mirror when flipped. */
  function MapIdx(flipped: bool, rankIdx: int, fileIdx: int): (m: Cell)
    ensures !flipped ==> m == Cell(rankIdx, fileIdx)
    ensures flipped ==> m.ri + rankIdx == 7 && m.fi + fileIdx == 7
  {
    if flipped then Cell(7 - rankIdx, 7 - fileIdx) else Cell(rankIdx, fileIdx)
  }

  /** mapIdx undoes itself. */
  lemma MapIdxInvolution(flipped: bool, rankIdx: int, fileIdx: int)
    ensures var m := MapIdx(flipped, rankIdx, fileIdx);
            MapIdx(flipped, m.ri, m.fi) == Cell(rankIdx, fileIdx)
  {
  }

  /** toCoord: the square at display column fileIdx and display row rankIdx. It names the same
      square as FILES[fi] followed by RANKS_TOPDOWN[ri] for the cell mapIdx gives, which is the
      square board[ri][fi] holds. The source casts to Coord, so only on-board indices are meant. */
  function ToCoord(flipped: bool, fileIdx: int, rankIdx: int): (c: Coord)
    requires InsideBoard(fileIdx, rankIdx)
    ensures var m := MapIdx(flipped, rankIdx, fileIdx);
            && InsideBoard(m.fi, m.ri)
            && c == [Files[m.fi], RankChar(RanksTopDown[m.ri])]
            && c == IdxToCoord(m.fi, 7 - m.ri)
  {
    var m := MapIdx(flipped, rankIdx, fileIdx);
    FileLetter(m.fi);
    RankNumber(m.ri);
    [DisplayFiles(flipped)[fileIdx], RankChar(DisplayRanks(flipped)[rankIdx])]
  }

  /** The display cell a square is drawn in: the inverse of toCoord. */
  function CellOf(flipped: bool, c: Coord): (p: Cell)
    ensures InsideBoard(p.fi, p.ri)
  {
    var i := CoordToIdx(c);
    if flipped then Cell(i.r, 7 - i.f) else Cell(7 - i.r, i.f)
  }

  /** Each display cell names a square, and that square is drawn back in the same cell. */
  lemma CellOfToCoord(flipped: bool, fileIdx: int, rankIdx: int)
    requires InsideBoard(fileIdx, rankIdx)
    ensures CellOf(flipped, ToCoord(flipped, fileIdx, rankIdx)) == Cell(rankIdx, fileIdx)
  {
    var m := MapIdx(flipped, rankIdx, fileIdx);
    IdxRoundTrip(m.fi, 7 - m.ri);
  }

  /** Each square is named by the cell it is drawn in: with the lemma above, toCoord is a
      bijection from the 64 display cells onto the 64 squares, for either flip. */
  lemma ToCoordCellOf(flipped: bool, c: Coord)
    ensures var p := CellOf(flipped, c);
            ToCoord(flipped, p.fi, p.ri) == c
  {
    var p := CellOf(flipped, c);
    var i := CoordToIdx(c);
    assert InsideBoard(p.fi, p.ri);
    var m := MapIdx(flipped, p.ri, p.fi);
    assert m.fi == i.f && 7 - m.ri == i.r;
    CoordRoundTrip(c);
  }

  /** Distinct display cells name distinct squares. */
  lemma ToCoordInjective(flipped: bool, f1: int, r1: int, f2: int, r2: int)
    requires InsideBoard(f1, r1) && InsideBoard(f2, r2)
    ensures ToCoord(flipped, f1, r1) == ToCoord(flipped, f2, r2) <==> f1 == f2 && r1 == r2
  {
    if ToCoord(flipped, f1, r1) == ToCoord(flipped, f2, r2) {
      CellOfToCoord(flipped, f1, r1);
      CellOfToCoord(flipped, f2, r2);
    }
  }

  /** Flipping the board is a half turn: flipped cell (f, r) shows unflipped cell (7 - f, 7 - r). */
  lemma FlipIsHalfTurn(fileIdx: int, rankIdx: int)
    requires InsideBoard(fileIdx, rankIdx)
    ensures ToCoord(true, fileIdx, rankIdx) == ToCoord(false, 7 - fileIdx, 7 - rankIdx)
  {
  }
}
