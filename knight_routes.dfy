// The knight-routes drill: random task sampling and the click-by-click session
// (frontend/src/features/knight-routes/KnightRoutes.tsx).

module KnightRoutes {
  import opened Coords
  import opened Knight
  import opened KnightSearch
  import opened Wrappers
  import opened BoardOrientation
  import opened Helpers
  import opened ColorGuesser

  /** A drill: where the knight starts, where it must go, and the search result for the pair. */
  datatype Task = Task(start: Coord, target: Coord, shortest: ShortestPath)

  ghost predicate ValidTask(t: Task) {
    IsShortestPath(t.shortest, t.start, t.target)
  }

  /** The pair makeRandomTask falls back to when every draw was rejected. */
  const FallbackStart: Coord := "b1"
  const FallbackTarget: Coord := "c5"

  /** Attempt i reads the oracle twice: draw 2i is the start, draw 2i + 1 the target. */
  function StartOf(randomCoord: nat -> Coord, i: nat): Coord {
    randomCoord(2 * i)
  }

  function TargetOf(randomCoord: nat -> Coord, i: nat): Coord {
    randomCoord(2 * i + 1)
  }

  /** A drawn pair is kept when the squares differ and lie at least minDist moves apart. */
  ghost predicate Acceptable(start: Coord, target: Coord, minDist: int) {
    start != target && Distance(start, target) >= minDist
  }

  /** Reference definition of the sampling: the first acceptable attempt among i .. maxTries - 1. */
  ghost function FirstAcceptable(randomCoord: nat -> Coord, minDist: int, maxTries: int, i: nat): (r: Option<nat>)
    ensures r.Some? ==> i <= r.value < maxTries &&
                        Acceptable(StartOf(randomCoord, r.value), TargetOf(randomCoord, r.value), minDist)
    decreases maxTries - i
  {
    if i >= maxTries then None
    else if Acceptable(StartOf(randomCoord, i), TargetOf(randomCoord, i), minDist) then Some(i)
    else FirstAcceptable(randomCoord, minDist, maxTries, i + 1)
  }

  /** The start and target makeRandomTask settles on: the first acceptable draw, else the fallback pair. */
  ghost function SampledPair(randomCoord: nat -> Coord, minDist: int, maxTries: int): (Coord, Coord) {
    match FirstAcceptable(randomCoord, minDist, maxTries, 0)
    case Some(i) => (StartOf(randomCoord, i), TargetOf(randomCoord, i))
    case None => (FallbackStart, FallbackTarget)
  }

  /** makeRandomTask: rejection sampling with at most maxTries attempts, then the fixed b1 -> c5 task. */
  method MakeRandomTask(minDist: int, maxTries: int, randomCoord: nat -> Coord) returns (t: Task)
    ensures ValidTask(t)
    ensures (t.start, t.target) == SampledPair(randomCoord, minDist, maxTries)
  {
    var i: nat := 0;
    while i < maxTries
      invariant FirstAcceptable(randomCoord, minDist, maxTries, 0) == FirstAcceptable(randomCoord, minDist, maxTries, i)
      decreases maxTries - i
    {
      var start := randomCoord(2 * i);
      var target := randomCoord(2 * i + 1);
      if target == start {
        i := i + 1;
        continue;
      }
      var shortest := BfsShortestKnightPath(start, target);
      if shortest.dist != Infinity && shortest.dist.n >= minDist {
        return Task(start, target, shortest);
      }
      i := i + 1;
    }
    var shortest := BfsShortestKnightPath(FallbackStart, FallbackTarget);
    t := Task(FallbackStart, FallbackTarget, shortest);
  }

  /** Every task differs in start and target, and meets minDist whenever minDist is at most the fallback's 3. */
  lemma SampledTaskIsAcceptable(randomCoord: nat -> Coord, minDist: int, maxTries: int, t: Task)
    requires ValidTask(t)
    requires (t.start, t.target) == SampledPair(randomCoord, minDist, maxTries)
    ensures t.start != t.target
    ensures t.shortest.dist.Finite? && t.shortest.dist.n == Distance(t.start, t.target)
    ensures FirstAcceptable(randomCoord, minDist, maxTries, 0).Some? || minDist <= 3 ==> t.shortest.dist.n >= minDist
  {
    FallbackDistance();
  }

  /** The drill in progress: the task, its memoised shortest path, the user's path and the solve count. */
  class Session {
    var task: Task
    var shortest: ShortestPath
    var path: seq<Coord>
    var solved: nat

    /** The user's path starts at the task's start and follows knight moves. */
    ghost predicate Valid()
      reads this
    {
      && ValidTask(task)
      && IsShortestPath(shortest, task.start, task.target)
      && |path| > 0 && path[0] == task.start && IsWalk(path)
    }

    /** The square the knight stands on: the end of a knight walk from the start, so at least the
        knight distance away in moves. */
    function Current(): (c: Coord)
      reads this
      requires Valid()
      ensures IsWalkBetween(path, task.start, c)
      ensures Distance(task.start, c) <= |path| - 1
    {
      var c := path[|path| - 1];
      WalkAtLeastDistance(path, task.start, c);
      c
    }

    /** isDone: the path is a knight walk from the start to the target. */
    function IsDone(): (b: bool)
      reads this
      requires Valid()
      ensures b <==> IsWalkBetween(path, task.start, task.target)
    {
      Current() == task.target
    }

    /** moveCount: the moves made so far; none exactly while the knight has not left the start, and
        never fewer than the knight distance from the start to where it stands. */
    function MoveCount(): (n: nat)
      reads this
      requires Valid()
      ensures n == 0 <==> path == [task.start]
      ensures n >= Distance(task.start, Current())
    {
      |path| - 1
    }

    /** isOptimal: done, in exactly as many moves as the knight distance from start to target. */
    function IsOptimal(): (b: bool)
      reads this
      requires Valid()
      ensures b <==> IsDone() && |path| - 1 == Distance(task.start, task.target)
    {
      IsDone() && Finite(MoveCount()) == shortest.dist
    }

    /** The initial state: a task drawn with minDist 2 and 200 tries, the path at its start, nothing solved. */
    constructor(randomCoord: nat -> Coord)
      ensures Valid() && solved == 0 && path == [task.start]
      ensures (task.start, task.target) == SampledPair(randomCoord, 2, 200)
    {
      var t := MakeRandomTask(2, 200, randomCoord);
      var memo := BfsShortestKnightPath(t.start, t.target);
      task := t;
      path := [t.start];
      solved := 0;
      shortest := memo;
    }

    /** onSquareClick: a click on the current square or on a square no knight move away changes nothing;
        otherwise the square is appended, and reaching the target counts one more solve. */
    method OnSquareClick(coord: Coord)
      requires Valid()
      modifies this
      ensures Valid()
      ensures task == old(task) && shortest == old(shortest)
      ensures var cur := old(path)[|old(path)| - 1];
              if coord != cur && IsKnightMove(cur, coord) then
                path == old(path) + [coord] && solved == old(solved) + (if coord == task.target then 1 else 0)
              else
                path == old(path) && solved == old(solved)
    {
      var cur := path[|path| - 1];
      if coord == cur {
        return;
      }
      var legalNext := KnightMoves(cur);
      NeighboursAreKnightMoves(cur, coord);
      if coord !in legalNext {
        return;
      }
      WalkSnoc(path, coord);
      path := path + [coord];
      if coord == task.target {
        solved := solved + 1;
      }
    }

    /** onReset: back to the start square; the task and the solve count stay. */
    method OnReset()
      requires Valid()
      modifies this
      ensures Valid()
      ensures path == [task.start]
      ensures task == old(task) && shortest == old(shortest) && solved == old(solved)
    {
      path := [task.start];
    }

    /** onNewTask: draw a fresh task with minDist 2; the task-change effect then follows. */
    method OnNewTask(randomCoord: nat -> Coord)
      requires Valid()
      modifies this
      ensures Valid()
      ensures path == [task.start] && solved == old(solved)
      ensures (task.start, task.target) == SampledPair(randomCoord, 2, 200)
    {
      var t := MakeRandomTask(2, 200, randomCoord);
      TaskChanged(t);
    }

    /** The effect that runs when the task changes: the path restarts at the new start and the
        memoised shortest path is recomputed; the solve count stays. */
    method TaskChanged(t: Task)
      requires ValidTask(t)
      modifies this
      ensures Valid()
      ensures task == t && path == [t.start] && solved == old(solved)
    {
      var memo := BfsShortestKnightPath(t.start, t.target);
      task := t;
      path := [t.start];
      shortest := memo;
    }
  }

  /** A finished path is never shorter than the shortest one; it is optimal exactly when it is as long. */
  lemma DoneIsAtLeastShortest(s: Session)
    requires s.Valid() && s.IsDone()
    ensures s.shortest.dist.Finite? && s.MoveCount() >= s.shortest.dist.n
    ensures s.IsOptimal() <==> s.MoveCount() == Distance(s.task.start, s.task.target)
  {
    ShortestPathIsMinimal(s.shortest, s.task.start, s.task.target, s.path);
  }

  /** Nothing locks a solved task: the knight can leave the target and come back, and that counts again. */
  method SolveAgain(s: Session, away: Coord)
    requires s.Valid() && s.IsDone() && IsKnightMove(s.task.target, away)
    modifies s
    ensures s.Valid() && s.IsDone()
    ensures s.path == old(s.path) + [away, s.task.target]
    ensures s.solved == old(s.solved) + 1
  {
    s.OnSquareClick(away);
    s.OnSquareClick(s.task.target);
  }

  // ----- the colour of the drawn squares -----

  /** indexOf: the first position of x in s, or -1 when x does not occur. */
  function IndexOf<T(==)>(s: seq<T>, x: T): (i: int)
    ensures -1 <= i < |s|
    ensures i >= 0 ==> s[i] == x && forall j :: 0 <= j < i ==> s[j] != x
    ensures i == -1 ==> x !in s
  {
    if s == [] then -1
    else if s[0] == x then 0
    else var k := IndexOf(s[1..], x); if k == -1 then -1 else k + 1
  }

  lemma IndexOfDistinct<T>(s: seq<T>, k: int)
    requires 0 <= k < |s|
    requires forall i, j :: 0 <= i < j < |s| ==> s[i] != s[j]
    ensures IndexOf(s, s[k]) == k
  {
  }

  /** The board looks up the file index and the top-down rank index of a display cell; they are
      the cell mapIdx gives. */
  lemma LookedUpIndices(flipped: bool, fIdx: int, rIdx: int)
    requires InsideBoard(fIdx, rIdx)
    ensures IndexOf(Files, DisplayFiles(flipped)[fIdx]) == MapIdx(flipped, rIdx, fIdx).fi
    ensures IndexOf(RanksTopDown, DisplayRanks(flipped)[rIdx]) == MapIdx(flipped, rIdx, fIdx).ri
  {
    var m := MapIdx(flipped, rIdx, fIdx);
    forall i, j | 0 <= i < j < 8
      ensures Files[i] != Files[j] && RanksTopDown[i] != RanksTopDown[j]
    {
      FileLetter(i);
      FileLetter(j);
      RankNumber(i);
      RankNumber(j);
    }
    IndexOfDistinct(Files, m.fi);
    IndexOfDistinct(RanksTopDown, m.ri);
    assert Files[m.fi] == DisplayFiles(flipped)[fIdx];
    assert RanksTopDown[m.ri] == DisplayRanks(flipped)[rIdx];
  }

  /** The colour of a cell as written: the top-down rank index is turned bottom-up (7 - index)
      before isLightSquare, which expects it top-down. */
  predicate SquareLightAsWritten(flipped: bool, fIdx: int, rIdx: int)
    requires InsideBoard(fIdx, rIdx)
  {
    var fileIdx := IndexOf(Files, DisplayFiles(flipped)[fIdx]);
    var rankIdxTopDown := IndexOf(RanksTopDown, DisplayRanks(flipped)[rIdx]);
    IsLightSquare(fileIdx, 7 - rankIdxTopDown)
  }

  /** The colour of a cell with the top-down index isLightSquare expects. */
  predicate SquareLight(flipped: bool, fIdx: int, rIdx: int)
    requires InsideBoard(fIdx, rIdx)
  {
    var fileIdx := IndexOf(Files, DisplayFiles(flipped)[fIdx]);
    var rankIdxTopDown := IndexOf(RanksTopDown, DisplayRanks(flipped)[rIdx]);
    IsLightSquare(fileIdx, rankIdxTopDown)
  }

  /** As written, every square of the knight-routes board gets the wrong colour. */
  lemma SquareLightAsWrittenIsInverted(flipped: bool, fIdx: int, rIdx: int)
    requires InsideBoard(fIdx, rIdx)
    ensures SquareLightAsWritten(flipped, fIdx, rIdx) == !IsLightCoord(ToCoord(flipped, fIdx, rIdx))
  {
    var m := MapIdx(flipped, rIdx, fIdx);
    var f, r := m.fi, 7 - m.ri;
    assert InsideBoard(f, r);
    LightSquareTopDown(f, r);
    var c := ToCoord(flipped, fIdx, rIdx);
    assert c == IdxToCoord(f, r);
    LookedUpIndices(flipped, fIdx, rIdx);
    assert SquareLightAsWritten(flipped, fIdx, rIdx) == IsLightSquare(f, r);
  }

  /** For instance, the unflipped bottom-left cell names a1, a dark square, and is drawn light. */
  lemma DarkA1DrawnLight()
    ensures ToCoord(false, 0, 7) == "a1" && !IsLightCoord("a1") && SquareLightAsWritten(false, 0, 7)
  {
    SquareLightAsWrittenIsInverted(false, 0, 7);
    assert ToCoord(false, 0, 7) == IdxToCoord(0, 0);
    CornerColours();
  }

  /** Corrected, each cell is drawn in the colour of the square it names, for either flip. */
  lemma SquareLightMatchesName(flipped: bool, fIdx: int, rIdx: int)
    requires InsideBoard(fIdx, rIdx)
    ensures SquareLight(flipped, fIdx, rIdx) == IsLightCoord(ToCoord(flipped, fIdx, rIdx))
  {
    var m := MapIdx(flipped, rIdx, fIdx);
    var f, r := m.fi, 7 - m.ri;
    assert InsideBoard(f, r);
    LightSquareTopDown(f, r);
    var c := ToCoord(flipped, fIdx, rIdx);
    assert c == IdxToCoord(f, r);
    LookedUpIndices(flipped, fIdx, rIdx);
    assert SquareLight(flipped, fIdx, rIdx) == IsLightSquare(f, 7 - r);
  }
}
