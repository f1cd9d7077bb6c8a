// Blind chess: the typed-move parser, what a submission does to the input state, and the
// numbered move list (frontend/src/features/blind-chess/BlindBoard.tsx).

module BlindBoard {
  import opened Coords
  import opened Text
  import opened Wrappers

  // ----- normalisation -----

  /** The normalisation before matching: trim, lower-case, drop every space. */
  function Normalise(text: string): (s: string)
    ensures NoSpace(s)
  {
    RemoveSpaces(Lower(Trim(text)))
  }

  lemma {:induction false} LowerOfSpaces(w: string)
    requires AllSpace(w)
    ensures AllSpace(Lower(w))
  {
    forall i | 0 <= i < |w| ensures IsSpace(Lower(w)[i]) {
      LowerKeepsSpaces(w[i]);
    }
  }

  /** Lower-casing and removing the spaces of a string that is spaces, a middle, and spaces
      leaves what the middle alone gives. */
  lemma SpacesAround(head: string, mid: string, tail: string)
    requires AllSpace(head) && AllSpace(tail)
    ensures RemoveSpaces(Lower(head + mid + tail)) == RemoveSpaces(Lower(mid))
  {
    var lh, lm, lt := Lower(head), Lower(mid), Lower(tail);
    LowerOfSpaces(head);
    LowerOfSpaces(tail);
    RemoveSpacesOfSpaces(lh);
    RemoveSpacesOfSpaces(lt);
    calc {
      RemoveSpaces(Lower(head + mid + tail));
      { LowerConcat(head + mid, tail); LowerConcat(head, mid); }
      RemoveSpaces(lh + lm + lt);
      { RemoveSpacesConcat(lh + lm, lt); RemoveSpacesConcat(lh, lm); }
      RemoveSpaces(lh) + RemoveSpaces(lm) + RemoveSpaces(lt);
      { assert RemoveSpaces(lh) == [] && RemoveSpaces(lt) == []; }
      RemoveSpaces(lm);
    }
  }

  /** Removing the spaces of the lower-cased text, with or without trimming, gives the same string. */
  lemma NormaliseWithoutTrim(text: string)
    ensures Normalise(text) == RemoveSpaces(Lower(text))
  {
    var head, tail := TrimSplit(text);
    SpacesAround(head, Trim(text), tail);
  }

  /** Spaces anywhere in the input make no difference: "e2 e4" reads as "e2e4". */
  lemma SpacesIgnored(a: string, w: string, b: string)
    requires AllSpace(w)
    ensures Normalise(a + w + b) == Normalise(a + b)
  {
    var la, lw, lb := Lower(a), Lower(w), Lower(b);
    LowerOfSpaces(w);
    RemoveSpacesOfSpaces(lw);
    calc {
      Normalise(a + w + b);
      { NormaliseWithoutTrim(a + w + b); }
      RemoveSpaces(Lower(a + w + b));
      { LowerConcat(a + w, b); LowerConcat(a, w); }
      RemoveSpaces(la + lw + lb);
      { RemoveSpacesConcat(la + lw, lb); RemoveSpacesConcat(la, lw); }
      RemoveSpaces(la) + RemoveSpaces(lw) + RemoveSpaces(lb);
      { assert RemoveSpaces(la) + RemoveSpaces(lw) == RemoveSpaces(la); }
      RemoveSpaces(la) + RemoveSpaces(lb);
      { RemoveSpacesConcat(la, lb); }
      RemoveSpaces(la + lb);
      { LowerConcat(a, b); }
      RemoveSpaces(Lower(a + b));
      { NormaliseWithoutTrim(a + b); }
      Normalise(a + b);
    }
  }

  // ----- the move grammar -----

  /** The three capture groups: the two squares and the optional promotion letter. */
  datatype Move = Move(from: Coord, to: Coord, promotion: Option<char>)

  predicate IsSeparator(sep: string) {
    sep == "" || sep == "-" || sep == " "
  }

  predicate ValidPromotion(p: Option<char>) {
    p.None? || p.value in "qrbn"
  }

  /** Reference definition of the grammar: a move written out as square, separator, square,
      optional promotion letter. */
  function Spell(m: Move, sep: string): string {
    m.from + sep + m.to + (if m.promotion.Some? then [m.promotion.value] else [])
  }

  /** The anchored match of ^([a-h][1-8])[- ]?([a-h][1-8])([qrbn])?$ and its groups. */
  function MatchMove(s: string): (m: Option<Move>)
    ensures m.Some? ==> ValidPromotion(m.value.promotion)
  {
    if |s| < 4 || !IsCoord(s[..2]) then None
    else
      var rest := if s[2] == '-' || s[2] == ' ' then s[3..] else s[2..];
      if |rest| < 2 || !IsCoord(rest[..2]) then None
      else if |rest| == 2 then Some(Move(s[..2], rest[..2], None))
      else if |rest| == 3 && rest[2] in "qrbn" then Some(Move(s[..2], rest[..2], Some(rest[2])))
      else None
  }

  /** Every spelling of a move matches, with the groups it was spelled from. */
  lemma MatchSpelled(m: Move, sep: string)
    requires IsSeparator(sep) && ValidPromotion(m.promotion)
    ensures MatchMove(Spell(m, sep)) == Some(m)
  {
    var s := Spell(m, sep);
    assert s[..2] == m.from;
    var rest := if s[2] == '-' || s[2] == ' ' then s[3..] else s[2..];
    assert rest == m.to + (if m.promotion.Some? then [m.promotion.value] else []);
    assert rest[..2] == m.to;
  }

  /** Every match is a spelling of the move it returns: with the lemma above, MatchMove accepts
      exactly the strings of the grammar. */
  lemma SpelledMatch(s: string) returns (sep: string)
    requires MatchMove(s).Some?
    ensures IsSeparator(sep) && s == Spell(MatchMove(s).value, sep)
  {
    sep := if s[2] == '-' || s[2] == ' ' then [s[2]] else "";
    var rest := if s[2] == '-' || s[2] == ' ' then s[3..] else s[2..];
    assert s == s[..2] + sep + rest;
    var m := MatchMove(s).value;
    if |rest| == 2 {
      assert rest == m.to;
    } else {
      assert rest == m.to + [m.promotion.value];
    }
  }

  /** The parse of the typed text: normalise, then match. */
  function ParseMoveText(text: string): Option<Move> {
    MatchMove(Normalise(text))
  }

  lemma SpellingHasNoCapitals(m: Move, sep: string)
    requires IsSeparator(sep) && ValidPromotion(m.promotion)
    ensures forall i :: 0 <= i < |Spell(m, sep)| ==> !('A' <= Spell(m, sep)[i] <= 'Z')
  {
    var promo := if m.promotion.Some? then [m.promotion.value] else [];
    var spelled := Spell(m, sep);
    forall i | 0 <= i < |spelled| ensures !('A' <= spelled[i] <= 'Z') {
      if i < 2 {
        assert spelled[i] == m.from[i];
      } else if i < 2 + |sep| {
        assert spelled[i] == sep[i - 2];
      } else if i < 4 + |sep| {
        assert spelled[i] == m.to[i - 2 - |sep|];
      } else {
        assert spelled[i] == promo[i - 4 - |sep|];
      }
    }
  }

  lemma RemoveSpacesConcat4(a: string, b: string, c: string, d: string)
    ensures RemoveSpaces(a + b + c + d) == RemoveSpaces(a) + RemoveSpaces(b) + RemoveSpaces(c) + RemoveSpaces(d)
  {
    calc {
      RemoveSpaces(a + b + c + d);
      { RemoveSpacesConcat(a + b + c, d); }
      RemoveSpaces(a + b + c) + RemoveSpaces(d);
      { RemoveSpacesConcat(a + b, c); }
      RemoveSpaces(a + b) + RemoveSpaces(c) + RemoveSpaces(d);
      { RemoveSpacesConcat(a, b); }
      RemoveSpaces(a) + RemoveSpaces(b) + RemoveSpaces(c) + RemoveSpaces(d);
    }
  }

  lemma RemoveSpacesOfSeparator(sep: string)
    requires IsSeparator(sep)
    ensures RemoveSpaces(sep) == if sep == " " then "" else sep
  {
    if sep == " " {
      RemoveSpacesOfSpaces(sep);
    } else {
      RemoveSpacesIdentity(sep);
    }
  }

  lemma RemoveSpacesOfSpelling(m: Move, sep: string)
    requires IsSeparator(sep) && ValidPromotion(m.promotion)
    ensures RemoveSpaces(Spell(m, sep)) == Spell(m, if sep == " " then "" else sep)
  {
    var promo := if m.promotion.Some? then [m.promotion.value] else [];
    RemoveSpacesOfSeparator(sep);
    RemoveSpacesIdentity(m.from);
    RemoveSpacesIdentity(m.to);
    RemoveSpacesIdentity(promo);
    RemoveSpacesConcat4(m.from, sep, m.to, promo);
  }

  /** Normalising a spelling only drops a space separator. */
  lemma NormaliseSpelling(m: Move, sep: string)
    requires IsSeparator(sep) && ValidPromotion(m.promotion)
    ensures Normalise(Spell(m, sep)) == Spell(m, if sep == " " then "" else sep)
  {
    NormaliseWithoutTrim(Spell(m, sep));
    SpellingHasNoCapitals(m, sep);
    LowerOfLowercase(Spell(m, sep));
    RemoveSpacesOfSpelling(m, sep);
  }

  /** A move typed in any accepted spelling, with spaces around it, parses to that move. */
  lemma PaddedSpellingParses(m: Move, sep: string, before: string, after: string)
    requires IsSeparator(sep) && ValidPromotion(m.promotion)
    requires AllSpace(before) && AllSpace(after)
    ensures ParseMoveText(before + Spell(m, sep) + after) == Some(m)
  {
    var spelled := Spell(m, sep);
    SpacesIgnored([], before, spelled + after);
    assert [] + before + (spelled + after) == before + spelled + after;
    assert [] + (spelled + after) == spelled + after + [];
    SpacesIgnored(spelled, after, []);
    assert spelled + [] == spelled;
    NormaliseSpelling(m, sep);
    MatchSpelled(m, if sep == " " then "" else sep);
  }

  // ----- submitting a typed move -----

  const FormatError: string := "Format: e2e4 oder e7e8q (Promotion)."
  const IllegalMoveError: string := "Illegaler Zug / falsche Quelle/Ziel oder nicht am Zug."

  /** What tryMoveAndNotify reports for a move tryMove did or did not make, as written: it reads
      an `ok` property off the boolean tryMove returns, a boolean has none, and the undefined it
      gets is falsy. */
  function NotifiedAsWritten(moved: bool): (ok: bool) {
    false
  }

  /** What tryMoveAndNotify evidently means to report: whether the move was made. */
  function Notified(moved: bool): (ok: bool) {
    moved
  }

  /** The text field, its error line, and the moves the game has taken from this input. The game
      itself is chess.js; tryMove(from, to) says whether it accepts the move, always promoting
      to a queen, and an accepted move is recorded in `played`. */
  class MoveInput {
    var moveText: string
    var inputError: Option<string>
    var played: seq<(Coord, Coord)>

    constructor()
      ensures moveText == "" && inputError == None && played == []
    {
      moveText := "";
      inputError := None;
      played := [];
    }

    /** The part of submitTextMove both versions share: clear the error, parse, report a bad
        format, or hand the squares to the game. */
    method Attempt(tryMove: (Coord, Coord) -> bool) returns (parsed: Option<Move>, moved: bool)
      modifies this
      ensures parsed == ParseMoveText(old(moveText)) && moveText == old(moveText)
      ensures parsed.None? ==> !moved && inputError == Some(FormatError) && played == old(played)
      ensures parsed.Some? ==>
                && inputError == None
                && moved == tryMove(parsed.value.from, parsed.value.to)
                && played == old(played) + (if moved then [(parsed.value.from, parsed.value.to)] else [])
    {
      inputError := None;
      var raw := Normalise(moveText);
      parsed := MatchMove(raw);
      if parsed.None? {
        inputError := Some(FormatError);
        moved := false;
        return;
      }
      var from, to := parsed.value.from, parsed.value.to;
      moved := tryMove(from, to);
      if moved {
        played := played + [(from, to)];
      }
    }

    /** submitTextMove: a text that does not parse sets the format error and keeps the text; a
        parsed move the game refuses sets the illegal-move error and keeps the text; a move the
        game makes clears the text. The promotion letter is not passed on. */
    method SubmitTextMove(tryMove: (Coord, Coord) -> bool)
      modifies this
      ensures var p := ParseMoveText(old(moveText));
              && (p.None? ==>
                    inputError == Some(FormatError) && moveText == old(moveText) && played == old(played))
              && (p.Some? && tryMove(p.value.from, p.value.to) ==>
                    inputError == None && moveText == "" && played == old(played) + [(p.value.from, p.value.to)])
              && (p.Some? && !tryMove(p.value.from, p.value.to) ==>
                    inputError == Some(IllegalMoveError) && moveText == old(moveText) && played == old(played))
    {
      var parsed, moved := Attempt(tryMove);
      if parsed.None? {
        return;
      }
      var ok := Notified(moved);
      if !ok {
        inputError := Some(IllegalMoveError);
        return;
      }
      moveText := "";
    }

    /** submitTextMove as written: a legal move is made, yet the illegal-move error is shown and
        the text stays, because the report of tryMoveAndNotify is always false. */
    method SubmitTextMoveAsWritten(tryMove: (Coord, Coord) -> bool)
      modifies this
      ensures var p := ParseMoveText(old(moveText));
              && (p.None? ==>
                    inputError == Some(FormatError) && moveText == old(moveText) && played == old(played))
              && (p.Some? && tryMove(p.value.from, p.value.to) ==>
                    inputError == Some(IllegalMoveError) && moveText == old(moveText) &&
                    played == old(played) + [(p.value.from, p.value.to)])
              && (p.Some? && !tryMove(p.value.from, p.value.to) ==>
                    inputError == Some(IllegalMoveError) && moveText == old(moveText) && played == old(played))
    {
      var parsed, moved := Attempt(tryMove);
      if parsed.None? {
        return;
      }
      var ok := NotifiedAsWritten(moved);
      // ok is false whatever tryMove did, so the branch that clears the text is never taken
      assert !ok;
      inputError := Some(IllegalMoveError);
    }
  }

  // ----- the numbered move list -----

  /** One line of the move list: its number, White's move and Black's reply if there is one. */
  datatype Row<T> = Row(n: nat, w: T, b: Option<T>)

  /** Row k of the list built from history, numbering from first. */
  function RowAt<T>(history: seq<T>, first: nat, k: nat): Row<T>
    requires 2 * k < |history|
  {
    Row(first + k, history[2 * k], if 2 * k + 1 < |history| then Some(history[2 * k + 1]) else None)
  }

  /** The move list, two half-moves per row. */
  function Rows<T>(history: seq<T>, first: nat): (rows: seq<Row<T>>)
    ensures |rows| == (|history| + 1) / 2
    ensures forall k :: 0 <= k < |rows| ==> rows[k] == RowAt(history, first, k)
    decreases |history|
  {
    if |history| == 0 then []
    else if |history| == 1 then [Row(first, history[0], None)]
    else
      var tail := Rows(history[2..], first + 1);
      assert forall k :: 1 <= k < |tail| + 1 ==> tail[k - 1] == RowAt(history, first, k) by {
        forall k | 1 <= k < |tail| + 1 ensures tail[k - 1] == RowAt(history, first, k) {
          assert history[2..][2 * (k - 1)] == history[2 * k];
          if 2 * k + 1 < |history| {
            assert history[2..][2 * (k - 1) + 1] == history[2 * k + 1];
          }
        }
      }
      [Row(first, history[0], Some(history[1]))] + tail
  }

  /** pairedMoves: walks the history two half-moves at a time. */
  method PairedMoves<T>(history: seq<T>) returns (out: seq<Row<T>>)
    ensures out == Rows(history, 1)
  {
    out := [];
    var i := 0;
    while i < |history|
      invariant 0 <= i <= |history| + 1 && i % 2 == 0
      invariant |out| == i / 2
      invariant forall k :: 0 <= k < |out| ==> out[k] == RowAt(history, 1, k)
      decreases |history| - i
    {
      var b := if i + 1 < |history| then Some(history[i + 1]) else None;
      out := out + [Row(i / 2 + 1, history[i], b)];
      i := i + 2;
    }
  }

  /** Reading the list row by row, White then Black, gives back the history. */
  function Unpair<T>(rows: seq<Row<T>>): seq<T> {
    if rows == [] then []
    else [rows[0].w] + (if rows[0].b.Some? then [rows[0].b.value] else []) + Unpair(rows[1..])
  }

  lemma {:induction false} UnpairRows<T>(history: seq<T>, first: nat)
    ensures Unpair(Rows(history, first)) == history
    decreases |history|
  {
    if |history| == 1 {
      assert Rows(history, first) == [Row(first, history[0], None)];
      assert Unpair(Rows(history, first)) == [history[0]] + Unpair(Rows(history, first)[1..]);
    } else if |history| >= 2 {
      var rows := Rows(history, first);
      UnpairRows(history[2..], first + 1);
      assert rows[1..] == Rows(history[2..], first + 1);
      assert history == [history[0], history[1]] + history[2..];
    }
  }
}
