// Breadth-first search for a shortest knight path
// (frontend/src/lib/chess/knight.ts, lines 25-57).

module KnightSearch {
  import opened Coords
  import opened Knight
  import opened Wrappers

  /** A move count, or the Infinity the search reports when it found no path. */
  datatype Dist = Finite(n: nat) | Infinity

  /** The search result without its wall-clock timing. */
  datatype ShortestPath = ShortestPath(path: seq<Coord>, dist: Dist)

  /** A correct answer: a walk from `from` to `to` with the least possible number of moves, and that number. */
  ghost predicate IsShortestPath(s: ShortestPath, from: Coord, to: Coord) {
    && IsWalkBetween(s.path, from, to)
    && |s.path| - 1 == Distance(from, to)
    && s.dist == Finite(|s.path| - 1)
  }

  // ----- what the search keeps true -----

  /** The predecessor map is a tree rooted at `from`: each other discovered square was reached by a knight
      move from a discovered square one level up. */
  ghost predicate Tree(from: Coord, prev: map<Coord, Option<Coord>>, d: map<Coord, nat>) {
    && prev.Keys == d.Keys
    && from in prev && prev[from] == None && d[from] == 0
    && (forall v {:trigger prev[v]} :: v in prev && v != from ==>
          prev[v].Some? && prev[v].value in prev && IsKnightMove(prev[v].value, v) &&
          d[v] == d[prev[v].value] + 1)
  }

  /** The level of every discovered square is its distance from `from`. */
  ghost predicate Exact(from: Coord, d: map<Coord, nat>) {
    forall v {:trigger Distance(from, v)} :: v in d ==> d[v] == Distance(from, v)
  }

  /** The queue holds distinct discovered, unfinished squares, in level order, on levels lo and lo + 1. */
  ghost predicate Frontier(q: seq<Coord>, d: map<Coord, nat>, done: set<Coord>, lo: nat) {
    && (forall i :: 0 <= i < |q| ==> q[i] in d && q[i] !in done && lo <= d[q[i]] <= lo + 1)
    && (forall i, j :: 0 <= i < j < |q| ==> q[i] != q[j] && d[q[i]] <= d[q[j]])
  }

  /** Finished squares have all their neighbours discovered, and every square closer than `level` is finished. */
  ghost predicate Finished(from: Coord, prev: map<Coord, Option<Coord>>, d: map<Coord, nat>,
                           done: set<Coord>, level: nat)
    requires prev.Keys == d.Keys
  {
    && done <= prev.Keys
    && (forall p, x :: p in done && IsKnightMove(p, x) ==> x in prev)
    && (forall p :: p in done ==> d[p] <= level)
    && (forall x :: Distance(from, x) < level ==> x in done)
  }

  /** Everything within `level` moves has been discovered. */
  lemma BallDiscovered(from: Coord, prev: map<Coord, Option<Coord>>, d: map<Coord, nat>,
                       done: set<Coord>, level: nat, x: Coord)
    requires Tree(from, prev, d) && Finished(from, prev, d, done, level)
    requires Distance(from, x) <= level
    ensures x in prev
  {
    if x != from && Distance(from, x) == level {
      var p := DistancePredecessor(from, x);
    }
  }

  /** A square first discovered from a square on `level` lies exactly level + 1 moves away. */
  lemma NewSquareLevel(from: Coord, prev: map<Coord, Option<Coord>>, d: map<Coord, nat>,
                       done: set<Coord>, level: nat, cur: Coord, y: Coord)
    requires Tree(from, prev, d) && Exact(from, d) && Finished(from, prev, d, done, level)
    requires cur in d && d[cur] == level && IsKnightMove(cur, y) && y !in prev
    ensures Distance(from, y) == level + 1
  {
    DistanceStep(from, cur, y);
    if Distance(from, y) <= level {
      BallDiscovered(from, prev, d, done, level, y);
    }
  }

  /** When the queue moves on to level + 1, every square within `level` moves is finished. */
  lemma AdvanceLevel(from: Coord, prev: map<Coord, Option<Coord>>, d: map<Coord, nat>,
                     done: set<Coord>, level: nat, q: seq<Coord>)
    requires Tree(from, prev, d) && Exact(from, d) && Finished(from, prev, d, done, level)
    requires Frontier(q, d, done, level) && q != [] && d[q[0]] == level + 1
    requires forall v :: v in prev ==> v in done || v in q
    ensures forall x :: Distance(from, x) < level + 1 ==> x in done
  {
    forall x | Distance(from, x) < level + 1 ensures x in done {
      BallDiscovered(from, prev, d, done, level, x);
    }
  }

  /** Every discovered square is finished or still queued; `cur`, when given, is being expanded. */
  ghost predicate Covered(prev: map<Coord, Option<Coord>>, done: set<Coord>, q: seq<Coord>, cur: Option<Coord>) {
    forall v :: v in prev ==> v in done || Some(v) == cur || v in q
  }

  /** What holds at the head of the queue loop. */
  ghost predicate QueueState(from: Coord, q: seq<Coord>, prev: map<Coord, Option<Coord>>, d: map<Coord, nat>,
                             done: set<Coord>, level: nat)
  {
    && Tree(from, prev, d) && Exact(from, d)
    && Frontier(q, d, done, level) && (q != [] ==> d[q[0]] == level)
    && Finished(from, prev, d, done, level)
    && Covered(prev, done, q, None)
  }

  /** What holds while the knight moves of `cur` are being discovered. */
  ghost predicate ExpandState(from: Coord, cur: Coord, q: seq<Coord>, prev: map<Coord, Option<Coord>>,
                              d: map<Coord, nat>, done: set<Coord>, level: nat)
  {
    && Tree(from, prev, d) && Exact(from, d)
    && Frontier(q, d, done, level) && Finished(from, prev, d, done, level)
    && cur in prev && cur !in done && cur !in q && d[cur] == level
    && Covered(prev, done, q, Some(cur))
  }

  lemma InitialState(from: Coord)
    ensures QueueState(from, [from], map[from := None], map[from := 0], {}, 0)
  {
    DistanceZero(from, from);
  }

  /** Taking the head off the queue starts its expansion. */
  lemma DequeueStep(from: Coord, q: seq<Coord>, prev: map<Coord, Option<Coord>>, d: map<Coord, nat>,
                    done: set<Coord>, level: nat)
    requires QueueState(from, q, prev, d, done, level) && q != []
    ensures ExpandState(from, q[0], q[1..], prev, d, done, level)
  {
    var q' := q[1..];
    forall v | v in prev ensures v in done || Some(v) == Some(q[0]) || v in q' {
      if v in q && v != q[0] {
        var i :| 0 <= i < |q| && q[i] == v;
        assert q'[i - 1] == v;
      }
    }
  }

  /** Discovering a new knight move of `cur` keeps the expansion state. */
  lemma DiscoverStep(from: Coord, cur: Coord, q: seq<Coord>, prev: map<Coord, Option<Coord>>,
                     d: map<Coord, nat>, done: set<Coord>, level: nat, nxt: Coord)
    requires ExpandState(from, cur, q, prev, d, done, level)
    requires IsKnightMove(cur, nxt) && nxt !in prev
    ensures ExpandState(from, cur, q + [nxt], prev[nxt := Some(cur)], d[nxt := level + 1], done, level)
  {
    NewSquareLevel(from, prev, d, done, level, cur, nxt);
    var prev', d', q' := prev[nxt := Some(cur)], d[nxt := level + 1], q + [nxt];
    assert Tree(from, prev', d');
    assert Exact(from, d');
    FrontierGrows(q, d, done, level, nxt);
    assert Finished(from, prev', d', done, level);
    assert Covered(prev', done, q', Some(cur)) by {
      forall v | v in prev' ensures v in done || Some(v) == Some(cur) || v in q' {
        if v != nxt && v !in done && v != cur {
          assert v in q;
        }
      }
    }
  }

  lemma FrontierGrows(q: seq<Coord>, d: map<Coord, nat>, done: set<Coord>, level: nat, nxt: Coord)
    requires Frontier(q, d, done, level) && nxt !in d && nxt !in done
    ensures Frontier(q + [nxt], d[nxt := level + 1], done, level)
  {
    var q', d' := q + [nxt], d[nxt := level + 1];
    forall i, j | 0 <= i < j < |q'| ensures q'[i] != q'[j] && d'[q'[i]] <= d'[q'[j]] {
      if j < |q| {
        assert q'[i] == q[i] && q'[j] == q[j];
      }
    }
  }

  /** Once all knight moves of `cur` are discovered it is finished, and the queue loop state holds again. */
  lemma FinishStep(from: Coord, cur: Coord, q: seq<Coord>, prev: map<Coord, Option<Coord>>,
                   d: map<Coord, nat>, done: set<Coord>, level: nat)
    requires ExpandState(from, cur, q, prev, d, done, level)
    requires forall x :: IsKnightMove(cur, x) ==> x in prev
    ensures QueueState(from, q, prev, d, done + {cur}, if q != [] && d[q[0]] == level + 1 then level + 1 else level)
  {
    if q != [] && d[q[0]] == level + 1 {
      AdvanceLevel(from, prev, d, done + {cur}, level, q);
    }
  }

  /** A set that holds `from` and is closed under knight moves holds every square. */
  lemma ClosedHoldsAll(from: Coord, to: Coord, s: set<Coord>)
    requires from in s
    requires forall p, x :: p in s && IsKnightMove(p, x) ==> x in s
    ensures to in s
  {
    var w := ConnectingWalk(from, to);
    var i := 0;
    while i < |w| - 1
      invariant 0 <= i < |w| && w[i] in s
    {
      assert IsKnightMove(w[i], w[i + 1]);
      i := i + 1;
    }
  }

  // ----- the search -----

  /** bfsShortestKnightPath: explore breadth-first from `from`, then read the path back from `to`. */
  method BfsShortestKnightPath(from: Coord, to: Coord) returns (result: ShortestPath)
    ensures IsShortestPath(result, from, to)
  {
    var prev;
    ghost var d;
    prev, d := Explore(from, to);
    var path := ReadBack(from, to, prev, d);
    result := ShortestPath(path, if |path| > 0 then Finite(|path| - 1) else Infinity);
  }

  /** The queue loop: dequeue a square, stop at `to`, otherwise discover its knight moves. */
  method Explore(from: Coord, to: Coord) returns (prev: map<Coord, Option<Coord>>, ghost d: map<Coord, nat>)
    ensures Tree(from, prev, d) && Exact(from, d) && to in prev
  {
    var q: seq<Coord> := [from];
    prev := map[from := None];
    d := map[from := 0];
    ghost var done: set<Coord> := {};
    ghost var level: nat := 0;
    ghost var found := false;
    InitialState(from);
    BoardHas64Squares();

    while q != []
      invariant QueueState(from, q, prev, d, done, level)
      invariant !found
      decreases Board() - done
    {
      DequeueStep(from, q, prev, d, done, level);
      var cur := q[0];
      q := q[1..];
      if cur == to {
        found := true;
        break;
      }
      q, prev, d := Discover(from, cur, q, prev, d, done, level);
      FinishStep(from, cur, q, prev, d, done, level);
      done := done + {cur};
      if q != [] && d[q[0]] == level + 1 {
        level := level + 1;
      }
    }
    if !found {
      ClosedHoldsAll(from, to, prev.Keys);
    }
  }

  /** The first i knight moves have been discovered. */
  ghost predicate Seen(moves: seq<Coord>, i: int, prev: map<Coord, Option<Coord>>) {
    forall j :: 0 <= j < i && j < |moves| ==> moves[j] in prev
  }

  lemma SeenNext(moves: seq<Coord>, i: nat, prev: map<Coord, Option<Coord>>, v: Option<Coord>)
    requires i < |moves| && Seen(moves, i, prev)
    ensures Seen(moves, i + 1, prev[moves[i] := v])
  {
  }

  lemma AllMovesSeen(cur: Coord, moves: seq<Coord>, prev: map<Coord, Option<Coord>>)
    requires moves == Neighbours(cur) && Seen(moves, |moves|, prev)
    ensures forall x :: IsKnightMove(cur, x) ==> x in prev
  {
    forall x | IsKnightMove(cur, x) ensures x in prev {
      NeighboursAreKnightMoves(cur, x);
    }
  }

  /** After looking at the squares `seen`: the queue grew only at its end, old entries of prev are kept,
      and the squares appended are exactly those of `seen` missing from prev before, each with
      predecessor `cur`. */
  ghost predicate Appended(cur: Coord, q0: seq<Coord>, prev0: map<Coord, Option<Coord>>,
                           q: seq<Coord>, prev: map<Coord, Option<Coord>>, seen: seq<Coord>) {
    && q0 <= q
    && (forall v :: v in prev0 ==> v in prev && prev[v] == prev0[v])
    && (forall v :: v in prev ==> v in prev0 || v in q[|q0|..])
    && (forall x :: x in q[|q0|..] <==> x in seen && x !in prev0)
    && (forall x :: x in q[|q0|..] ==> x in prev && prev[x] == Some(cur))
  }

  lemma AppendedAdd(cur: Coord, q0: seq<Coord>, prev0: map<Coord, Option<Coord>>,
                    q: seq<Coord>, prev: map<Coord, Option<Coord>>, seen: seq<Coord>, nxt: Coord)
    requires Appended(cur, q0, prev0, q, prev, seen) && nxt !in prev
    ensures Appended(cur, q0, prev0, q + [nxt], prev[nxt := Some(cur)], seen + [nxt])
  {
    assert (q + [nxt])[|q0|..] == q[|q0|..] + [nxt];
    assert q0 <= q + [nxt];
  }

  lemma AppendedSkip(cur: Coord, q0: seq<Coord>, prev0: map<Coord, Option<Coord>>,
                     q: seq<Coord>, prev: map<Coord, Option<Coord>>, seen: seq<Coord>, nxt: Coord)
    requires Appended(cur, q0, prev0, q, prev, seen) && nxt in prev
    ensures Appended(cur, q0, prev0, q, prev, seen + [nxt])
  {
  }

  /** The inner loop: enqueue every knight move of `cur` not seen before, recording `cur` as its predecessor.
      The queue only grows at its end, old entries of prev stay, and the squares appended are exactly
      the knight moves of `cur` missing from prev before. */
  method Discover(from: Coord, cur: Coord, q0: seq<Coord>, prev0: map<Coord, Option<Coord>>,
                  ghost d0: map<Coord, nat>, ghost done: set<Coord>, ghost level: nat)
    returns (q: seq<Coord>, prev: map<Coord, Option<Coord>>, ghost d: map<Coord, nat>)
    requires ExpandState(from, cur, q0, prev0, d0, done, level)
    ensures ExpandState(from, cur, q, prev, d, done, level)
    ensures forall x :: IsKnightMove(cur, x) ==> x in prev
    ensures q0 <= q
    ensures forall v :: v in prev0 ==> v in prev && prev[v] == prev0[v]
    ensures forall x :: x in q[|q0|..] <==> IsKnightMove(cur, x) && x !in prev0
    ensures forall x :: x in q[|q0|..] ==> x in prev && prev[x] == Some(cur)
  {
    q, prev, d := q0, prev0, d0;
    var moves := KnightMoves(cur);
    assert q0[|q0|..] == [];
    for i := 0 to |moves|
      invariant ExpandState(from, cur, q, prev, d, done, level)
      invariant Seen(moves, i, prev)
      invariant Appended(cur, q0, prev0, q, prev, moves[..i])
    {
      var nxt := moves[i];
      assert moves[..i + 1] == moves[..i] + [nxt];
      if nxt !in prev {
        NeighboursAreKnightMoves(cur, nxt);
        DiscoverStep(from, cur, q, prev, d, done, level, nxt);
        SeenNext(moves, i, prev, Some(cur));
        AppendedAdd(cur, q0, prev0, q, prev, moves[..i], nxt);
        prev := prev[nxt := Some(cur)];
        d := d[nxt := level + 1];
        q := q + [nxt];
      } else {
        SeenNext(moves, i, prev, prev[nxt]);
        AppendedSkip(cur, q0, prev0, q, prev, moves[..i], nxt);
      }
    }
    AllMovesSeen(cur, moves, prev);
    assert moves[..|moves|] == moves;
    forall x ensures x in moves <==> IsKnightMove(cur, x) {
      NeighboursAreKnightMoves(cur, x);
    }
  }

  /** Follow the predecessors from `to` back to `from`, then reverse: a walk of d[to] moves. */
  method ReadBack(from: Coord, to: Coord, prev: map<Coord, Option<Coord>>, ghost d: map<Coord, nat>)
    returns (path: seq<Coord>)
    requires Tree(from, prev, d) && to in prev
    ensures IsWalkBetween(path, from, to) && |path| == d[to] + 1
  {
    path := [];
    var c: Option<Coord> := Some(to);
    while c.Some?
      invariant c.Some? ==> c.value in prev && |path| + d[c.value] == d[to]
      invariant c.Some? && path != [] ==> IsKnightMove(path[|path| - 1], c.value)
      invariant c.None? ==> |path| == d[to] + 1 && path[|path| - 1] == from
      invariant if path == [] then c == Some(to) else path[0] == to
      invariant IsWalk(path)
      decreases if c.Some? then d[c.value] + 1 else 0
    {
      WalkSnoc(path, c.value);
      path := path + [c.value];
      c := if c.value in prev then prev[c.value] else None;
    }
    ReverseWalk(path, to, from);
    path := Reverse(path);
  }

  /** From a square to itself the search answers [from] and 0. */
  lemma ShortestPathToSelf(s: ShortestPath, from: Coord)
    requires IsShortestPath(s, from, from)
    ensures s.path == [from] && s.dist == Finite(0)
  {
    DistanceZero(from, from);
  }

  /** The reported distance is finite and no walk between the two squares is shorter. */
  lemma ShortestPathIsMinimal(s: ShortestPath, from: Coord, to: Coord, w: seq<Coord>)
    requires IsShortestPath(s, from, to) && IsWalkBetween(w, from, to)
    ensures s.dist.Finite? && s.dist.n <= |w| - 1
  {
    WalkAtLeastDistance(w, from, to);
  }
}
