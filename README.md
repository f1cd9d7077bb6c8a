# ChessFocus in Dafny: knight routes and the mini-games around them

This project models the logic of the ChessFocus training frontend and proves what the code
promises. The centre is the knight-routes drill:

- **Move generation and search.** Knight move generation and the breadth-first search for a
  shortest knight path. The search is proved to return a walk whose length is the true knight
  distance, for every pair of squares.
- **Coordinates.** The square/index bijection.
- **The drill session.** The random task sampler and the click-by-click controller: the path the
  user builds, the solve counter, and the grading of a solution as optimal.

Around the centre sit smaller pieces:

- **Board orientation.** Display files and ranks under a flip, and the mapping from a display
  cell to its square.
- **Square colour.** The two parity conventions, `isLightSquare` on indices and `isLightCoord` on
  names, and how they relate.
- **Colour quiz and square-finding game.** Their counters, kept as classes whose methods update
  fields.
- **Blind chess.** The typed-move parser with its whitespace normalisation and regular
  expression, what a submission does to the input state, and the numbered move list.
- **Appearance settings.** Hex colour parsing and encoding, the theme palette choice, and the
  setters.

Modules, one per source file:

- `Coords` (coord.ts).
- `Knight` (knight moves, walks, and the reference knight distance).
- `KnightSearch` (the breadth-first search).
- `KnightRoutes` (KnightRoutes.tsx).
- `BoardOrientation` (useBoardOrientation.ts and constants.ts).
- `Helpers` (helpers.ts).
- `ColorGuesser` and `CoordBlitz` (the two games).
- `BlindBoard` (BlindBoard.tsx).
- `Text` (the JavaScript string built-ins the parser uses).
- `Appearance` (AppearanceContext.tsx).
- `Wrappers` (the Option type).

Modelling choices:

- **Classes and methods.** Stateful code that changes things step by step is modelled as methods
  with loops and invariants. These are the knight move loop, the search, the sampler and the
  move-list pairing. State a component updates in place is a class with fields.
- **Randomness.** Random draws are an oracle parameter: `randomCoord(i)` is the i-th draw.
- **The chess engine.** `tryMove` is an opaque oracle parameter that answers whether the engine
  made the move.
- **Distance.** The knight distance used as the reference is defined independently of the
  search. It is the least n such that the target lies within n knight moves, where
  "within n moves" is a recursive ball predicate.

## Model

| member | source | states |
|---|---|---|
| Coords.CoordToIdx | frontend/src/lib/chess/coord.ts:11-15 | the indices of every square lie on the board |
| Coords.IdxToCoord | frontend/src/lib/chess/coord.ts:17-19 | the file letter is 'a' + f and the rank digit is '1' + r |
| Coords.IdxRoundTrip | frontend/src/lib/chess/coord.ts:11-19 | coordToIdx(idxToCoord(f, r)) == (f, r) on the board |
| Coords.CoordRoundTrip | frontend/src/lib/chess/coord.ts:1-19 | idxToCoord(coordToIdx(c)) == c for every square |
| Coords.IdxToCoordInjective | frontend/src/lib/chess/coord.ts:17-19 | two on-board index pairs name the same square iff they are equal |
| Coords.InsideBoard | frontend/src/lib/chess/coord.ts:21-23 | on the board iff some square has these indices (Coords.InsideBoardIsSquare) |
| Coords.InsideBoardIsSquare | frontend/src/lib/chess/coord.ts:21-23 | insideBoard(f, r) holds iff some square has file index f and rank index r |
| Coords.BoardHas64Squares | frontend/src/lib/chess/coord.ts:1-9 | there are exactly 64 squares and every Coord is one of them |
| Knight.KnightMoves | frontend/src/lib/chess/knight.ts:14-23 | the loop over the eight deltas returns the reference neighbour list, in delta order |
| Knight.Neighbours | frontend/src/lib/chess/knight.ts:14-23 | the deltas applied in order and filtered by insideBoard; its members are exactly the knight moves (Knight.NeighboursAreKnightMoves) |
| Knight.NeighboursAreKnightMoves | frontend/src/lib/chess/knight.ts:3-12 | b is among knightMoves(a) iff b differs from a by (±1, ±2) or (±2, ±1) |
| Knight.NotOwnNeighbour | frontend/src/lib/chess/knight.ts:3-12 | no square is its own knight move |
| Knight.NeighboursSymmetric | frontend/src/lib/chess/knight.ts:3-12 | b in knightMoves(a) iff a in knightMoves(b) |
| Knight.NeighboursCount | frontend/src/lib/chess/knight.ts:14-23 | knightMoves has no duplicates and returns between 2 and 8 squares |
| Knight.ReverseWalk | frontend/src/lib/chess/knight.ts:49 | reversing a knight walk from a to b gives a knight walk from b to a |
| Knight.JoinWalks | frontend/src/lib/chess/knight.ts:42-50 | a walk a to b followed by a walk b to c is a walk a to c |
| Knight.ConnectingWalk | frontend/src/lib/chess/knight.ts:42-54 | any two squares are joined by a knight walk of at most 39 moves, so the search always finds a path |
| Knight.DistanceIsLevel | frontend/src/lib/chess/knight.ts:25-57 | the target lies within Distance moves and not within one fewer |
| Knight.DistanceZero | frontend/src/lib/chess/knight.ts:33 | the distance is 0 iff the squares are equal |
| Knight.WalkAtLeastDistance | frontend/src/lib/chess/knight.ts:31-40 | no knight walk between two squares has fewer moves than their distance |
| Knight.DistanceStep | frontend/src/lib/chess/knight.ts:34-38 | if p is one knight move from x, x is at most one move further from the origin than p |
| Knight.DistancePredecessor | frontend/src/lib/chess/knight.ts:36 | every square other than the origin has a knight-move predecessor one step closer |
| Knight.FallbackDistance | frontend/src/features/knight-routes/KnightRoutes.tsx:29-31 | the fallback task b1 to c5 is exactly three moves long |
| KnightSearch.BfsShortestKnightPath | frontend/src/lib/chess/knight.ts:25-57 | the path is a knight walk from `from` to `to` with Distance(from, to) moves, and dist is that number (never Infinity on the 8x8 board) |
| KnightSearch.Explore | frontend/src/lib/chess/knight.ts:27-40 | the queue loop ends with a predecessor tree whose levels are exact distances, with `to` discovered |
| KnightSearch.Discover | frontend/src/lib/chess/knight.ts:34-39 | every knight move of the dequeued square is discovered; the queue only grows at its end, old predecessor entries are kept, and the squares appended are exactly the knight moves missing from the map before, each with the dequeued square as predecessor |
| KnightSearch.ReadBack | frontend/src/lib/chess/knight.ts:42-50 | following predecessors from `to` and reversing gives a walk from `from` to `to` of level(to) moves |
| KnightSearch.ClosedHoldsAll | frontend/src/lib/chess/knight.ts:31-40 | a set holding `from` and closed under knight moves holds every square |
| KnightSearch.ShortestPathToSelf | frontend/src/lib/chess/knight.ts:33-54 | searching from a square to itself gives [from] and 0 |
| KnightSearch.ShortestPathIsMinimal | frontend/src/lib/chess/knight.ts:31-54 | the reported distance is finite and no knight walk is shorter |
| KnightRoutes.FirstAcceptable | frontend/src/features/knight-routes/KnightRoutes.tsx:20-28 | the attempt found is below maxTries and its pair differs and lies at least minDist apart |
| KnightRoutes.MakeRandomTask | frontend/src/features/knight-routes/KnightRoutes.tsx:19-32 | the loop returns the first acceptable drawn pair, else b1 to c5, each with a correct shortest path |
| KnightRoutes.SampledTaskIsAcceptable | frontend/src/features/knight-routes/KnightRoutes.tsx:20-31 | every task has start != target and a finite distance, which is at least minDist for a drawn pair and for the fallback when minDist <= 3 |
| KnightRoutes.Session.Current | frontend/src/features/knight-routes/KnightRoutes.tsx:41 | the knight stands at the end of a knight walk from the start, so at least the knight distance from the start in moves |
| KnightRoutes.Session.IsDone | frontend/src/features/knight-routes/KnightRoutes.tsx:84 | done iff the path is a knight walk from the start to the target |
| KnightRoutes.Session.MoveCount | frontend/src/features/knight-routes/KnightRoutes.tsx:85 | no moves exactly while the path is just the start, and never fewer moves than the knight distance from the start to the current square |
| KnightRoutes.Session.IsOptimal | frontend/src/features/knight-routes/KnightRoutes.tsx:86 | optimal iff done in exactly the knight distance from start to target, although the code compares against the memoised search result |
| KnightRoutes.Session.constructor | frontend/src/features/knight-routes/KnightRoutes.tsx:39-51 | the first task is sampled with minDist 2 and 200 tries, the path is [start], nothing is solved |
| KnightRoutes.Session.OnSquareClick | frontend/src/features/knight-routes/KnightRoutes.tsx:59-75 | a click on the current square or a non-knight-move square changes nothing; a legal click appends the square, adds one solve exactly on the target, and keeps the path a knight walk from the start |
| KnightRoutes.Session.OnReset | frontend/src/features/knight-routes/KnightRoutes.tsx:77-81 | the path returns to [start]; task and solve count stay |
| KnightRoutes.Session.OnNewTask | frontend/src/features/knight-routes/KnightRoutes.tsx:82 | a fresh task is sampled with minDist 2, the path restarts, the solve count stays |
| KnightRoutes.Session.TaskChanged | frontend/src/features/knight-routes/KnightRoutes.tsx:43-57 | a new task resets the path to its start and recomputes the memoised shortest path |
| KnightRoutes.DoneIsAtLeastShortest | frontend/src/features/knight-routes/KnightRoutes.tsx:84-86 | a finished path has at least the shortest number of moves, and is optimal iff it has the true distance |
| KnightRoutes.SolveAgain | frontend/src/features/knight-routes/KnightRoutes.tsx:59-75 | after a solve, leaving the target and coming back extends the path and counts another solve |
| KnightRoutes.IndexOf | frontend/src/features/knight-routes/KnightRoutes.tsx:128-133 | indexOf gives the first position holding x, or -1 exactly when x is absent |
| KnightRoutes.LookedUpIndices | frontend/src/features/knight-routes/KnightRoutes.tsx:128-133 | the looked-up file index and top-down rank index are the cell mapIdx gives |
| KnightRoutes.SquareLightAsWritten | frontend/src/features/knight-routes/KnightRoutes.tsx:134-135 | the colour drawn is the opposite of the named square's (KnightRoutes.SquareLightAsWrittenIsInverted) |
| KnightRoutes.SquareLightAsWrittenIsInverted | frontend/src/features/knight-routes/KnightRoutes.tsx:126-135 | as written, every cell is drawn in the colour opposite to the square it names |
| KnightRoutes.DarkA1DrawnLight | frontend/src/features/knight-routes/KnightRoutes.tsx:126-135 | as written, the cell naming a1, a dark square, is drawn light |
| KnightRoutes.SquareLightMatchesName | frontend/src/features/knight-routes/KnightRoutes.tsx:126-135 | with the top-down index, every cell is drawn in the colour of the square it names |
| BoardOrientation.DisplayFiles | frontend/src/hooks/useBoardOrientation.ts:6-9 | column i shows FILES[i], or FILES[7 - i] when flipped |
| BoardOrientation.DisplayRanks | frontend/src/hooks/useBoardOrientation.ts:10-13 | row i shows RANKS_TOPDOWN[i], or RANKS_TOPDOWN[7 - i] when flipped |
| BoardOrientation.DisplayFileLetter | frontend/src/hooks/useBoardOrientation.ts:6-9 | column i shows letter 'a' + i, or 'h' - i when flipped |
| BoardOrientation.MapIdx | frontend/src/hooks/useBoardOrientation.ts:15-19 | mapIdx is the identity unflipped and mirrors both indices flipped |
| BoardOrientation.MapIdxInvolution | frontend/src/hooks/useBoardOrientation.ts:15-19 | applying mapIdx twice gives back the display cell |
| BoardOrientation.ToCoord | frontend/src/hooks/useBoardOrientation.ts:15-23 | toCoord(f, r) is FILES[fi] followed by RANKS_TOPDOWN[ri] for (ri, fi) = mapIdx(r, f), the square board[ri][fi] holds |
| BoardOrientation.CellOfToCoord | frontend/src/hooks/useBoardOrientation.ts:21-23 | the cell a square is drawn in, applied to toCoord, gives back the cell |
| BoardOrientation.ToCoordCellOf | frontend/src/hooks/useBoardOrientation.ts:21-23 | every square is toCoord of some cell, for either flip |
| BoardOrientation.ToCoordInjective | frontend/src/hooks/useBoardOrientation.ts:21-23 | two cells name the same square iff they are the same cell |
| BoardOrientation.FlipIsHalfTurn | frontend/src/hooks/useBoardOrientation.ts:6-23 | flipped toCoord(f, r) equals unflipped toCoord(7 - f, 7 - r) |
| Helpers.NeighboursOppositeColour | frontend/src/lib/chess/helpers.ts:1-2 | horizontally or vertically adjacent cells have opposite colours |
| Helpers.HalfTurnKeepsColour | frontend/src/lib/chess/helpers.ts:1-2 | mirroring both indices keeps the colour |
| Helpers.IsLightSquare | frontend/src/lib/chess/helpers.ts:1-2 | neighbouring cells alternate and a half turn keeps the colour; with a top-down rank index it agrees with isLightCoord (ColorGuesser.LightSquareTopDown) |
| Helpers.PieceSrc | frontend/src/lib/chess/helpers.ts:4-6 | the path is "/pieces/", then the colour, then the upper-cased piece letter, then ".svg", with the lengths adding up |
| Helpers.PieceSrcInjective | frontend/src/lib/chess/helpers.ts:4-6 | different colour/piece pairs get different image paths |
| Helpers.KnightIconAsWrittenIsWrong | frontend/src/features/knight-routes/KnightRoutes.tsx:161 | as written, the knight icon is "/pieces/" + set + "W.svg", never the set's white knight |
| Helpers.KnightIconIsInSetFolder | frontend/src/components/board/PieceImage.tsx:28 | corrected, the icon is the set folder followed by the file pieceSrc names, "wN.svg" |
| Helpers.PieceSetSrcInjective | frontend/src/components/board/PieceImage.tsx:28 | different set/colour/piece triples get different image paths |
| Helpers.KnightIconAsWritten | frontend/src/features/knight-routes/KnightRoutes.tsx:161 | the path the three-argument call builds, shown wrong by Helpers.KnightIconAsWrittenIsWrong |
| ColorGuesser.CornerColours | frontend/src/features/color-guesser/ColorGuesser.tsx:17-22 | a1 and h8 are dark, h1 and a8 light |
| ColorGuesser.LightSquareTopDown | frontend/src/lib/chess/helpers.ts:1-2 | isLightSquare(f, 7 - r) == isLightCoord(idxToCoord(f, r)), and with the bottom-up index the two always disagree |
| ColorGuesser.KnightMoveChangesColour | frontend/src/features/color-guesser/ColorGuesser.tsx:17-22 | every knight move lands on the other colour |
| ColorGuesser.IsLightCoord | frontend/src/features/color-guesser/ColorGuesser.tsx:17-22 | a1 and h8 dark, h1 and a8 light, every knight move changes colour, and the top-down isLightSquare agrees (CornerColours, KnightMoveChangesColour, LightSquareTopDown) |
| ColorGuesser.Accuracy | frontend/src/features/color-guesser/ColorGuesser.tsx:42-45 | 0 with no tries; otherwise the nearest integer to 100·correct/tries, halves rounded up |
| ColorGuesser.AccuracyIsPercentage | frontend/src/features/color-guesser/ColorGuesser.tsx:42-45 | with correct <= tries the accuracy is at most 100, and exactly 100 when all answers are right |
| ColorGuesser.Quiz.constructor | frontend/src/features/color-guesser/ColorGuesser.tsx:28-35 | inactive, zero counters, the first drawn square |
| ColorGuesser.Quiz.ResetAll | frontend/src/features/color-guesser/ColorGuesser.tsx:47-58 | inactive, all counters zero, a fresh square |
| ColorGuesser.Quiz.Start | frontend/src/features/color-guesser/ColorGuesser.tsx:60-79 | active, counters and square kept |
| ColorGuesser.Quiz.Stop | frontend/src/features/color-guesser/ColorGuesser.tsx:81-85 | inactive, counters and square kept |
| ColorGuesser.Quiz.TimeUp | frontend/src/features/color-guesser/ColorGuesser.tsx:65-75 | when the countdown reaches zero the run ends as stop() ends it: inactive, counters and square kept |
| ColorGuesser.Quiz.NextTask | frontend/src/features/color-guesser/ColorGuesser.tsx:103-105 | only the square changes |
| ColorGuesser.Quiz.OnAnswer | frontend/src/features/color-guesser/ColorGuesser.tsx:107-122 | no-op when inactive; otherwise tries + 1, and a right answer adds to correct and streak while a wrong one zeroes the streak; streak <= correct <= tries is kept |
| ColorGuesser.QuizAccuracyIsPercentage | frontend/src/features/color-guesser/ColorGuesser.tsx:42-45 | in every reachable quiz state (the counters onAnswer keeps) the shown accuracy is at most 100 |
| CoordBlitz.BlitzDisplayRanks | frontend/src/features/coord-blitz/CoordBlitz.tsx:26-29 | row i holds RANKS[i], or RANKS[7 - i] when flipped |
| CoordBlitz.RankLabels | frontend/src/features/coord-blitz/CoordBlitz.tsx:105-128 | the label beside row i is displayRanks read backwards |
| CoordBlitz.ToCoordAsWritten | frontend/src/features/coord-blitz/CoordBlitz.tsx:31-33 | each cell's name disagrees with its row label and its drawn colour (CoordBlitz.ToCoordAsWrittenMisnames) |
| CoordBlitz.ToCoordAsWrittenMisnames | frontend/src/features/coord-blitz/CoordBlitz.tsx:31-33 | as written, each cell's name has a rank other than its row label (lines 105-128), and its drawn colour is opposite to the named square's |
| CoordBlitz.TopLeftCellNamedA1 | frontend/src/features/coord-blitz/CoordBlitz.tsx:31-33 | as written, the unflipped top-left cell is labelled rank 8 and drawn light (lines 105-139), and named a1 |
| CoordBlitz.ToCoordCorrectedMatchesBoard | frontend/src/features/coord-blitz/CoordBlitz.tsx:31-33 | corrected, each cell is named after its labels, names the square toCoord of the shared orientation hook names, and is drawn in that square's colour |
| CoordBlitz.Blitz.constructor | frontend/src/features/coord-blitz/CoordBlitz.tsx:15-18 | stopped, target e4, zero counters |
| CoordBlitz.Blitz.Start | frontend/src/features/coord-blitz/CoordBlitz.tsx:38-44 | counters zero, a fresh target, running |
| CoordBlitz.Blitz.Stop | frontend/src/features/coord-blitz/CoordBlitz.tsx:46-48 | only stops; counters and target kept |
| CoordBlitz.Blitz.HandleSquareClick | frontend/src/features/coord-blitz/CoordBlitz.tsx:50-57 | no-op when stopped; otherwise tries + 1, and a hit adds to score and draws a new target while a miss changes neither; score <= tries is kept |
| Text.TrimSplit | frontend/src/features/blind-chess/BlindBoard.tsx:121 | trim removes only spaces: the text is spaces, the trimmed text, spaces |
| Text.RemoveSpaces | frontend/src/features/blind-chess/BlindBoard.tsx:121 | the result has no whitespace and is no longer than the input |
| Text.RemoveSpacesConcat | frontend/src/features/blind-chess/BlindBoard.tsx:121 | removing spaces distributes over concatenation |
| Text.Trim | frontend/src/features/blind-chess/BlindBoard.tsx:121 | the text is leading spaces, the trimmed text, trailing spaces (Text.TrimSplit) |
| Text.Lower | frontend/src/features/blind-chess/BlindBoard.tsx:121 | keeps the length, fixes text without capitals (Text.LowerOfLowercase) and distributes over concatenation (Text.LowerConcat) |
| Text.LowerOfLowercase | frontend/src/features/blind-chess/BlindBoard.tsx:121 | text without capitals is its own lower case |
| Text.LowerChar | frontend/src/features/blind-chess/BlindBoard.tsx:121 | capitals map to the matching small letter, everything else is kept |
| Text.UpperChar | frontend/src/lib/chess/helpers.ts:5 | small letters map to the matching capital, everything else is kept |
| BlindBoard.Normalise | frontend/src/features/blind-chess/BlindBoard.tsx:121 | the normalised text has no whitespace |
| BlindBoard.NormaliseWithoutTrim | frontend/src/features/blind-chess/BlindBoard.tsx:121 | trimming makes no difference once all spaces are removed |
| BlindBoard.SpacesIgnored | frontend/src/features/blind-chess/BlindBoard.tsx:118-121 | inserting whitespace anywhere does not change the normalised text |
| BlindBoard.MatchMove | frontend/src/features/blind-chess/BlindBoard.tsx:122 | a match carries a promotion letter from qrbn or none |
| BlindBoard.MatchSpelled | frontend/src/features/blind-chess/BlindBoard.tsx:122 | every square, optional - or space, square, optional qrbn spelling matches with its own groups |
| BlindBoard.SpelledMatch | frontend/src/features/blind-chess/BlindBoard.tsx:122 | every match is such a spelling of the move it returns |
| BlindBoard.ParseMoveText | frontend/src/features/blind-chess/BlindBoard.tsx:121-122 | any accepted spelling, padded with whitespace, parses to its move (BlindBoard.PaddedSpellingParses); every match is a spelling (BlindBoard.SpelledMatch) |
| BlindBoard.NormaliseSpelling | frontend/src/features/blind-chess/BlindBoard.tsx:121 | normalising a spelling only drops a space separator |
| BlindBoard.PaddedSpellingParses | frontend/src/features/blind-chess/BlindBoard.tsx:118-122 | a move typed in any accepted spelling, with whitespace around it, parses to that move |
| BlindBoard.MoveInput.constructor | frontend/src/features/blind-chess/BlindBoard.tsx:28-29 | empty text, no error, no moves |
| BlindBoard.MoveInput.Attempt | frontend/src/features/blind-chess/BlindBoard.tsx:119-133 | the error is cleared; an unparsable text sets the format error and tries nothing; a parsed move is handed to tryMove as from/to only |
| BlindBoard.MoveInput.SubmitTextMove | frontend/src/features/blind-chess/BlindBoard.tsx:119-142 | format error and text kept on a bad parse; illegal-move error and text kept when the game refuses; text cleared and the move played when it accepts |
| BlindBoard.MoveInput.SubmitTextMoveAsWritten | frontend/src/features/blind-chess/BlindBoard.tsx:119-142 | as written (with tryMoveAndNotify at lines 87-96), a legal move is played yet the illegal-move error is shown and the text stays |
| BlindBoard.Rows | frontend/src/features/blind-chess/BlindBoard.tsx:144-150 | ceil(n/2) rows; row k is numbered first + k and holds half-moves 2k and 2k + 1 |
| BlindBoard.PairedMoves | frontend/src/features/blind-chess/BlindBoard.tsx:144-150 | the stepping loop builds exactly those rows, numbered from 1 |
| BlindBoard.UnpairRows | frontend/src/features/blind-chess/BlindBoard.tsx:144-150 | reading the rows White then Black gives back the history |
| Appearance.HexValueBound | frontend/src/context/AppearanceContext.tsx:65 | k hex digits are worth less than 16^k |
| Appearance.HexValueConcat | frontend/src/context/AppearanceContext.tsx:65 | the value of two digit strings joined is front·16^len(back) + back |
| Appearance.HexValue | frontend/src/context/AppearanceContext.tsx:65 | k digits are worth less than 16^k (HexValueBound), joined digits read positionally (HexValueConcat), and it inverts toString(16) (ToHexValue) |
| Appearance.DropFirstHash | frontend/src/context/AppearanceContext.tsx:57 | replace drops at most one character, and a text without '#' is kept as it is |
| Appearance.DropFirstHashSplit | frontend/src/context/AppearanceContext.tsx:57 | with a '#' present, exactly the first '#' is dropped and the text before and after it is kept in order |
| Appearance.Expand | frontend/src/context/AppearanceContext.tsx:58-64 | the shorthand's digit i/2 is at position i of the six digits |
| Appearance.HexToRgb | frontend/src/context/AppearanceContext.tsx:56-67 | every channel lies in 0..255 |
| Appearance.HexToRgbPairs | frontend/src/context/AppearanceContext.tsx:56-67 | the channels are the values of the three digit pairs |
| Appearance.ShorthandDoubles | frontend/src/context/AppearanceContext.tsx:58-64 | "#abc" reads like "#aabbcc" |
| Appearance.ToHex | frontend/src/context/AppearanceContext.tsx:79 | toString(16) prints at least one hex digit |
| Appearance.ToHexValue | frontend/src/context/AppearanceContext.tsx:79 | parsing toString(16) gives back the number |
| Appearance.ToHexDigits | frontend/src/context/AppearanceContext.tsx:79 | a number in [16^k, 16^(k+1)) prints as k + 1 lower-case digits |
| Appearance.RgbToHex | frontend/src/context/AppearanceContext.tsx:79 | the encoding is '#' followed by six lower-case hex digits |
| Appearance.RgbToHexRoundTrip | frontend/src/context/AppearanceContext.tsx:56-79 | hexToRgb of the encoding gives back (r, g, b) |
| Appearance.ThemeColors | frontend/src/context/AppearanceContext.tsx:42-50 | the custom entry holds the default custom colours |
| Appearance.PalettesAreHexColours | frontend/src/context/AppearanceContext.tsx:35-50 | every palette colour is a colour hexToRgb reads |
| Appearance.Colors | frontend/src/context/AppearanceContext.tsx:122-126 | the custom pair under the custom theme, otherwise the theme's palette |
| Appearance.ColorsIgnoreCustomUnlessChosen | frontend/src/context/AppearanceContext.tsx:122-126 | outside the custom theme the custom colours have no effect |
| Appearance.SetPieceSet | frontend/src/context/AppearanceContext.tsx:135 | only the piece set changes |
| Appearance.SetTheme | frontend/src/context/AppearanceContext.tsx:136 | only the theme changes |
| Appearance.SetCustomLight | frontend/src/context/AppearanceContext.tsx:137-138 | only the light custom colour changes, and the theme becomes custom |
| Appearance.SetCustomDark | frontend/src/context/AppearanceContext.tsx:139-140 | only the dark custom colour changes, and the theme becomes custom |
| Appearance.CustomColourTakesEffect | frontend/src/context/AppearanceContext.tsx:122-140 | setting a custom colour shows it at once, whatever theme was on |
| Appearance.ThemeAndPieceSetColours | frontend/src/context/AppearanceContext.tsx:122-136 | a non-custom theme shows its palette; the piece set never changes colours |
| Appearance.CustomPairShown | frontend/src/context/AppearanceContext.tsx:122-140 | choosing custom after setting both colours shows exactly those |

## Left out

- Randomness: `Math.random` behind `randomCoord` (KnightRoutes, ColorGuesser) and `randomTarget` (CoordBlitz) is an oracle parameter. A run of the sampler reads draws 2i and 2i + 1 for attempt i.
- Timing: the search's `rt_ms` and `performance.now`. Also left out are the drill's `startTs`/`userRtMs`, the quiz's `timeLeft` countdown driven by `requestAnimationFrame`, and the game's `startedAt`. These are wall-clock and floating point. The one place a clock changes a modelled field is the quiz countdown: once the 60 seconds are up it sets `active` to false. That is modelled as ColorGuesser.Quiz.TimeUp, which the caller runs when the time is over.
- ColorGuesser.Quiz.OnAnswer: the 400 ms `setTimeout` that clears the flash and calls `nextTask` is not part of the method. `NextTask` is a separate method the caller runs afterwards. The `flash` field is cosmetic and left out.
- ColorGuesser.Accuracy: `Math.round` of a double is computed on exact rationals, with halves rounded up as `Math.round` does. Double rounding error in `correct / tries * 100` is not modelled.
- The keyboard handlers (Space, W, B) only call the modelled methods and are left out.
- The chess engine (chess.js) is outside the model. `tryMove` is an oracle that says whether the engine made the move, and an accepted move is recorded in `played`. Left out for the same reason:
  - `select`/`selectWithTargets`, which `submitTextMove` calls around the move;
  - `handleSounds`, `onMove` and the click-to-move path;
  - the queen promotion inside `tryMove`.
- BlindBoard: the game history that `pairedMoves` reads is a generic sequence. SAN strings are not modelled.
- Text.Lower and Text.Upper: only ASCII letters change case. JavaScript's full Unicode case mapping is not modelled. The parser's grammar is ASCII, so a non-ASCII letter makes the text unparsable either way.
- Colour arithmetic: `mix`'s floating-point interpolation, `rgbaString` and `clamp01` are left out. The model keeps the integer hex encoding at the end of `mix` (line 79).
- Appearance.HexToRgb: only colours of three or six hex digits after the first '#' are modelled. JavaScript's `parseInt`, `NaN` and shift behaviour on other input is not.
- DOM and storage: `applyCssVariables`, the `localStorage` load and save, the merge with a stored object, and the `useAppearance` context lookup.
- Rendering: JSX, board components and square highlighting are left out. The colour and naming of board cells are the exception; they are modelled because the findings concern them.
- BoardOrientation.ToCoord: only on-board indices are modelled. The source casts whatever it builds to `Coord`.
- KnightSearch.ReadBack: the in-place `path.reverse()` is a reversal of a value sequence, and the JavaScript `Map` is a Dafny `map`. The search's queue and map are values reassigned by the loop.
- Piece-set names and the sorted `PIECE_SETS` table are left out; a piece set is any string.

## Findings

| source | as written | input that shows it | evidently intended | confidence | as-written member | corrected member |
|---|---|---|---|---|---|---|
| frontend/src/features/knight-routes/KnightRoutes.tsx:126-135 | the cell colour is `isLightSquare(fileIdx, 7 - rankIdxTopDown)`, a bottom-up rank index given to a function that expects it top-down | unflipped cell (0, 7) names a1, a dark square, and is drawn light; every square is inverted | `isLightSquare(fileIdx, rankIdxTopDown)`, which agrees with `isLightCoord` | not executed | KnightRoutes.SquareLightAsWrittenIsInverted | KnightRoutes.SquareLightMatchesName |
| frontend/src/features/coord-blitz/CoordBlitz.tsx:26-33,105-133 | cells are named with `displayRanks[rIdx]` (bottom-up 1..8), but the row labels are displayRanks reversed | unflipped top-left cell: labelled rank 8 and drawn light, yet named a1, so clicking the labelled a8 counts as a1 | name each cell after its labels, as the shared orientation hook does | not executed | CoordBlitz.ToCoordAsWrittenMisnames | CoordBlitz.ToCoordCorrectedMatchesBoard |
| frontend/src/features/blind-chess/BlindBoard.tsx:87-96,133-141 | `tryMoveAndNotify` tests `result?.ok`, but `tryMove` returns a boolean (frontend/src/hooks/useChessGame.ts:35-39), so the test is always false | typing "e2e4" at the start: the move is played, yet "Illegaler Zug" is shown and the text stays | test the boolean itself, so that a made move clears the text and no error is shown | not executed; medium: BlindBoard.tsx:36-48 also takes `lastMove` and `undoLastMove`, which the hook at useChessGame.ts:41-51 does not return, so the component may target another version of the hook whose `tryMove` returns an object; the chess.js version is unknown, and in chess.js 1.x an illegal `move` throws | BlindBoard.MoveInput.SubmitTextMoveAsWritten | BlindBoard.MoveInput.SubmitTextMove |
| frontend/src/features/knight-routes/KnightRoutes.tsx:161 | `pieceSrc(pieceSet, "w", "n")` passes three arguments to the two-parameter `pieceSrc(color, type)` (frontend/src/lib/chess/helpers.ts:4-6) | piece set "cburnett" gives "/pieces/cburnettW.svg" | the set's white knight, "/pieces/cburnett/wN.svg", as the shared piece component builds it | not executed | Helpers.KnightIconAsWrittenIsWrong | Helpers.KnightIconIsInSetFolder |
