// Square colour by index parity and the piece-image path (frontend/src/lib/chess/helpers.ts).

module Helpers {
  import opened Text

  /** isLightSquare: light exactly when the index sum is even. JavaScript's remainder keeps the
      dividend's sign, but an even sum gives 0 or -0, both equal to 0, so the test is parity for
      every integer, as Dafny's remainder is. */
  predicate IsLightSquare(fileIdx: int, rankIdx: int) {
    (fileIdx + rankIdx) % 2 == 0
  }

  /** Horizontal and vertical neighbours have opposite colours. */
  lemma NeighboursOppositeColour(fileIdx: int, rankIdx: int)
    ensures IsLightSquare(fileIdx + 1, rankIdx) != IsLightSquare(fileIdx, rankIdx)
    ensures IsLightSquare(fileIdx, rankIdx + 1) != IsLightSquare(fileIdx, rankIdx)
  {
  }

  /** Mirroring both indices (7 - f, 7 - r) keeps the colour. */
  lemma HalfTurnKeepsColour(fileIdx: int, rankIdx: int)
    ensures IsLightSquare(7 - fileIdx, 7 - rankIdx) == IsLightSquare(fileIdx, rankIdx)
  {
  }

  const PiecesDir: string := "/pieces/"
  const Svg: string := ".svg"

  predicate IsColour(color: string) {
    color == "w" || color == "b"
  }

  /** pieceSrc: the image path for a colour and a piece letter, the letter in upper case. */
  function PieceSrc(color: string, pieceType: string): (src: string)
    ensures |src| == |PiecesDir| + |color| + |pieceType| + |Svg|
    ensures src[..|PiecesDir|] == PiecesDir && src[|src| - |Svg|..] == Svg
    ensures src[|PiecesDir|..|PiecesDir| + |color|] == color
    ensures src[|PiecesDir| + |color|..|src| - |Svg|] == Upper(pieceType)
  {
    PiecesDir + color + Upper(pieceType) + Svg
  }

  /** The piece letters chess.js uses. */
  predicate IsPieceLetter(t: string) {
    |t| == 1 && t[0] in "pnbrqk"
  }

  /** Different pieces get different images. */
  lemma PieceSrcInjective(c1: string, t1: string, c2: string, t2: string)
    requires IsColour(c1) && IsColour(c2) && IsPieceLetter(t1) && IsPieceLetter(t2)
    ensures PieceSrc(c1, t1) == PieceSrc(c2, t2) <==> c1 == c2 && t1 == t2
  {
    if PieceSrc(c1, t1) == PieceSrc(c2, t2) {
      assert PieceSrc(c1, t1)[8] == c1[0] && PieceSrc(c2, t2)[8] == c2[0];
      assert PieceSrc(c1, t1)[9] == UpperChar(t1[0]) && PieceSrc(c2, t2)[9] == UpperChar(t2[0]);
    }
  }

  /** The knight icon on the knight-routes board as written: pieceSrc is handed the piece set as
      a third argument in front, so the set lands in the colour slot, "w" becomes the piece
      letter and the "n" is dropped. */
  function KnightIconAsWritten(pieceSet: string): (src: string) {
    PieceSrc(pieceSet, "w")
  }

  /** The path of a piece image inside a piece-set folder, as the shared piece component
      (frontend/src/components/board/PieceImage.tsx:28) builds it. */
  function PieceSetSrc(pieceSet: string, color: string, pieceType: string): (src: string) {
    PiecesDir + pieceSet + "/" + color + Upper(pieceType) + Svg
  }

  /** The knight icon with the path the component evidently means. */
  function KnightIcon(pieceSet: string): (src: string) {
    PieceSetSrc(pieceSet, "w", "n")
  }

  /** As written, the knight icon is "/pieces/<set>W.svg", never the set's white-knight image. */
  lemma KnightIconAsWrittenIsWrong(pieceSet: string)
    ensures KnightIconAsWritten(pieceSet) == PiecesDir + pieceSet + "W" + Svg
    ensures KnightIconAsWritten(pieceSet) != KnightIcon(pieceSet)
    ensures KnightIconAsWritten("cburnett") == "/pieces/cburnettW.svg"
  {
    assert |KnightIconAsWritten(pieceSet)| != |KnightIcon(pieceSet)|;
  }

  /** The corrected path is the set's folder followed by the file pieceSrc names, and it tells
      every piece of every set apart. */
  lemma KnightIconIsInSetFolder(pieceSet: string)
    ensures KnightIcon(pieceSet) == PiecesDir + pieceSet + "/" + PieceSrc("w", "n")[|PiecesDir|..]
    ensures KnightIcon(pieceSet) == PiecesDir + pieceSet + "/wN.svg"
  {
  }

  lemma PieceSetSrcInjective(s1: string, c1: string, t1: string, s2: string, c2: string, t2: string)
    requires IsColour(c1) && IsColour(c2) && IsPieceLetter(t1) && IsPieceLetter(t2)
    ensures PieceSetSrc(s1, c1, t1) == PieceSetSrc(s2, c2, t2) <==> s1 == s2 && c1 == c2 && t1 == t2
  {
    var p1 := PieceSetSrc(s1, c1, t1);
    var p2 := PieceSetSrc(s2, c2, t2);
    if p1 == p2 {
      var n := 8 + |s1|;
      assert |s1| == |s2|;
      assert s1 == p1[8..n] && s2 == p2[8..n];
      assert p1[n + 1] == c1[0] && p2[n + 1] == c2[0];
      assert p1[n + 2] == UpperChar(t1[0]) && p2[n + 2] == UpperChar(t2[0]);
    }
  }
}
