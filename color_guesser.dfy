// The square-colour quiz: the colour of a named square and the answer counters
// (frontend/src/features/color-guesser/ColorGuesser.tsx).

module ColorGuesser {
  import opened Coords
  import opened Helpers
  import opened Knight

  /** isLightCoord: file index from the letter, rank index from the digit minus one; light when
      the sum is odd, so a1 is dark. */
  predicate IsLightCoord(c: Coord) {
    var fileIdx := c[0] as int - 97;
    var rankIdx := (c[1] as int - 48) - 1;
    (fileIdx + rankIdx) % 2 == 1
  }

  /** a1 and h8 are dark, h1 and a8 light, as on a real board. */
  lemma CornerColours()
    ensures !IsLightCoord("a1") && !IsLightCoord("h8") && IsLightCoord("h1") && IsLightCoord("a8")
  {
  }

  /** isLightSquare agrees with isLightCoord when it is given a top-down rank index (row 0 is
      rank 8), and disagrees on every square when given the bottom-up one of coordToIdx. */
  lemma LightSquareTopDown(f: int, r: int)
    requires InsideBoard(f, r)
    ensures IsLightSquare(f, 7 - r) == IsLightCoord(IdxToCoord(f, r))
    ensures IsLightSquare(f, r) == !IsLightCoord(IdxToCoord(f, r))
  {
  }

  /** The colour of a square does not depend on which way the board is drawn: every knight move
      lands on the other colour. */
  lemma KnightMoveChangesColour(a: Coord, b: Coord)
    requires IsKnightMove(a, b)
    ensures IsLightCoord(a) != IsLightCoord(b)
  {
  }

  /** accuracy: the rounded percentage of right answers, 0 before the first answer. The source
      rounds a double; here the quotient is exact and a half rounds up, as Math.round does. */
  function Accuracy(tries: nat, correct: nat): (a: nat)
    ensures tries == 0 ==> a == 0
    ensures tries > 0 ==> a * (2 * tries) <= 200 * correct + tries < (a + 1) * (2 * tries)
  {
    if tries == 0 then 0 else (200 * correct + tries) / (2 * tries)
  }

  lemma MulMonotone(x: int, y: int, k: nat)
    requires x <= y
    ensures x * k <= y * k
  {
  }

  /** With no more right answers than answers, accuracy is a percentage; all right gives 100. */
  lemma AccuracyIsPercentage(tries: nat, correct: nat)
    requires correct <= tries
    ensures Accuracy(tries, correct) <= 100
    ensures tries > 0 && correct == tries ==> Accuracy(tries, correct) == 100
  {
    if tries > 0 {
      var a := Accuracy(tries, correct);
      var t2 := 2 * tries;
      if a > 100 {
        MulMonotone(101, a, t2);
      }
      if correct == tries && a < 100 {
        MulMonotone(a + 1, 100, t2);
      }
    }
  }

  /** The two answer buttons: "w" answers light, "b" answers dark. */
  datatype Btn = W | B

  /** The quiz counters and the square being asked about. */
  class Quiz {
    var active: bool
    var tries: nat
    var correct: nat
    var streak: nat
    var coord: Coord

    /** A streak is a run of right answers, and right answers are answers. */
    ghost predicate Valid()
      reads this
    {
      streak <= correct <= tries
    }

    /** The initial state: inactive, no answers, a random square. */
    constructor(first: Coord)
      ensures Valid() && !active && tries == 0 && correct == 0 && streak == 0 && coord == first
    {
      active := false;
      tries := 0;
      correct := 0;
      streak := 0;
      coord := first;
    }

    /** resetAll: inactive, all counters zero, a fresh square. */
    method ResetAll(next: Coord)
      modifies this
      ensures Valid() && !active && tries == 0 && correct == 0 && streak == 0 && coord == next
    {
      active := false;
      tries := 0;
      correct := 0;
      streak := 0;
      coord := next;
    }

    /** start: active again; the counters and the square are kept. */
    method Start()
      requires Valid()
      modifies this
      ensures Valid() && active
      ensures tries == old(tries) && correct == old(correct) && streak == old(streak) && coord == old(coord)
    {
      active := true;
    }

    /** stop: inactive; the counters and the square are kept. */
    method Stop()
      requires Valid()
      modifies this
      ensures Valid() && !active
      ensures tries == old(tries) && correct == old(correct) && streak == old(streak) && coord == old(coord)
    {
      active := false;
    }

    /** The countdown tick once the 60 seconds are up: the run ends exactly as stop() ends it.
        The clock itself is not modelled; the caller runs this when the time is over. */
    method TimeUp()
      requires Valid()
      modifies this
      ensures Valid() && !active
      ensures tries == old(tries) && correct == old(correct) && streak == old(streak) && coord == old(coord)
    {
      active := false;
    }

    /** nextTask: a fresh square to ask about. */
    method NextTask(next: Coord)
      requires Valid()
      modifies this
      ensures Valid() && coord == next
      ensures active == old(active) && tries == old(tries) && correct == old(correct) && streak == old(streak)
    {
      coord := next;
    }

    /** onAnswer: ignored while inactive; otherwise one more answer, and a right one extends the
        streak while a wrong one ends it. */
    method OnAnswer(btn: Btn)
      requires Valid()
      modifies this
      ensures Valid()
      ensures active == old(active) && coord == old(coord)
      ensures !old(active) ==> tries == old(tries) && correct == old(correct) && streak == old(streak)
      ensures old(active) ==> tries == old(tries) + 1
      ensures old(active) && IsLightCoord(coord) == (btn == W) ==>
                correct == old(correct) + 1 && streak == old(streak) + 1
      ensures old(active) && IsLightCoord(coord) != (btn == W) ==>
                correct == old(correct) && streak == 0
    {
      if !active {
        return;
      }
      var isLight := IsLightCoord(coord);
      var answeredLight := btn == W;
      tries := tries + 1;
      if isLight == answeredLight {
        correct := correct + 1;
        streak := streak + 1;
      } else {
        streak := 0;
      }
    }
  }

  /** Whatever the answers, the shown accuracy stays a percentage. */
  lemma QuizAccuracyIsPercentage(q: Quiz)
    requires q.Valid()
    ensures Accuracy(q.tries, q.correct) <= 100
  {
    AccuracyIsPercentage(q.tries, q.correct);
  }
}
