/** What holds of every board reachable by clicks from a freshly filled one:
    exactly one cell is active (present and displayed) until the game is over,
    the cells before it are gone, and the header and answer slot match it. */
module Progress {
  import opened JeopardyData
  import opened Reveal

  /** The answer slot as it must be for the active cell `n`. If `n` is the
      second slot of a category holding the same record as the first, that
      record already shows its answer while the slot is hidden; otherwise the
      slot is hidden and reads "?" before the first click, is displayed and
      reads "?" with the question up, and reads the answer after the second
      click. */
  predicate SlotAgrees(b: BoardState, n: int)
    requires Shaped(b) && 0 <= n < |b.clues|
  {
    if n % 2 == 1 && SameClue(b.picks, n - 1, n) then
      b.showing[n] == Answer && !b.slotVisible && b.slotText == "?"
    else
      match b.showing[n]
      case Hidden => !b.slotVisible && b.slotText == "?"
      case Question => b.slotVisible && b.slotText == "?"
      case Answer => b.slotVisible && b.slotText == b.clues[n].answer
  }

  /** The board with active cell `next` (`next == |b.clues|` once the game
      is over). */
  predicate Inv(b: BoardState, next: int) {
    Shaped(b) &&
    |b.clues| > 0 && |b.clues| % 2 == 0 &&
    (forall j :: 0 <= j < |b.clues| ==> b.clues[j].categoryId in b.headers) &&
    (forall i, j :: 0 <= i < |b.clues| && 0 <= j < |b.clues| && i / 2 == j / 2 ==>
      b.clues[i].categoryId == b.clues[j].categoryId) &&
    0 <= next <= |b.clues| &&
    b.phase != Idle && (b.phase == Over <==> next == |b.clues|) &&
    b.present == Range(next, |b.clues|) &&
    b.visible == (if next < |b.clues| then {next} else {}) &&
    b.shownHeaders == (if next < |b.clues| then {b.clues[next].categoryId} else {}) &&
    (forall j :: 0 <= j < next ==> b.showing[j] == Answer) &&
    (forall j :: next < j < |b.clues| ==>
      b.showing[j] == if SameClue(b.picks, next, j) then b.showing[next] else Hidden) &&
    (next < |b.clues| ==> SlotAgrees(b, next))
  }

  /** A freshly filled board, from category records whose clues refer back
      to them, starts with cell 0 active. */
  lemma InitialInv(categories: seq<Category>, picks: seq<nat>)
    requires |categories| > 0 && PicksFit(categories, picks) && WellFormed(categories)
    ensures Inv(Initial(categories, picks), 0)
  {
    var b := Initial(categories, picks);
    forall j | 0 <= j < |b.clues| ensures b.clues[j].categoryId == categories[j / 2].id {
      assert b.clues[j] == categories[j / 2].clues[picks[j]];
    }
    forall j | 0 <= j < |b.clues| ensures b.clues[j].categoryId in b.headers {
      assert categories[j / 2].id in HeaderIds(categories);
    }
  }

  /** While the game is in play the active cell is the only one a click can
      reach; once it is over none is. */
  lemma OneActiveCell(b: BoardState, next: int, i: int)
    requires Inv(b, next)
    ensures Clickable(b, i) <==> b.phase == Playing && i == next
  {
    if b.phase == Playing && i == next {
      assert Between(next, next, |b.clues|);
    }
  }

  /** Where the active cell is after a click: it moves on exactly when the
      active cell, showing its answer, was clicked. */
  function Advance(b: BoardState, next: int, t: Target): int
    requires Inv(b, next)
  {
    if b.phase == Playing && t == Cell(next) && b.showing[next] == Answer then next + 1 else next
  }

  lemma {:induction false} RemoveKeepsInv(b: BoardState, next: int)
    requires Inv(b, next) && b.phase == Playing && b.showing[next] == Answer
    ensures Inv(Click(b, Cell(next)), next + 1)
  {
    OneActiveCell(b, next, next);
    var r := Click(b, Cell(next));
    var n := |b.clues|;
    assert r == Remove(b, next);
    assert r.present == Range(next + 1, n) by {
      forall x ensures x in r.present <==> x in Range(next + 1, n) {
        assert x in Range(next + 1, n) <==> Between(next + 1, x, n);
        assert x in b.present <==> Between(next, x, n);
      }
    }
    assert next + 1 < n ==> next + 1 in r.present by {
      assert next + 1 < n ==> Between(next + 1, next + 1, n);
    }
    if next % 2 == 0 {
      assert b.clues[next].categoryId == b.clues[next + 1].categoryId;
    } else if next + 1 < n {
      assert b.clues[next + 1].categoryId in b.headers;
      assert !SameClue(b.picks, next, next + 1);
    }
    if next + 1 < n {
      forall j | next + 1 < j < n
        ensures r.showing[j] == if SameClue(r.picks, next + 1, j) then r.showing[next + 1] else Hidden
      {
        assert !SameClue(b.picks, next, j) || j == next + 1;
      }
    }
  }

  /** Every click keeps the invariant, moving the active cell as `Advance`
      says. */
  lemma ClickKeepsInv(b: BoardState, next: int, t: Target)
    requires Inv(b, next)
    ensures Inv(Click(b, t), Advance(b, next, t))
  {
    if t.Cell? && Clickable(b, t.index) {
      OneActiveCell(b, next, t.index);
      var r := Click(b, t);
      match b.showing[next]
      case Hidden =>
        assert !(next % 2 == 1 && SameClue(b.picks, next - 1, next));
        assert forall j :: next < j < |b.clues| ==>
          r.showing[j] == if SameClue(b.picks, next, j) then Question else Hidden;
      case Question =>
        assert !(next % 2 == 1 && SameClue(b.picks, next - 1, next));
      case Answer =>
        RemoveKeepsInv(b, next);
    }
  }

  /** A cell whose record was already answered through the other slot of its
      category (both slots picked the same clue) leaves the table on its
      first click. */
  lemma DuplicatePickRemovedAtOnce(b: BoardState, next: int)
    requires Inv(b, next) && b.phase == Playing && next % 2 == 1
    requires b.picks[next - 1] == b.picks[next]
    ensures b.showing[next] == Answer
    ensures next !in Click(b, Cell(next)).present
  {
    OneActiveCell(b, next, next);
  }

  /** Applies a run of clicks in order. No click of the run lowers any
      record's `showing` or brings a removed cell back. */
  function Run(b: BoardState, clicks: seq<Target>): (r: BoardState)
    requires Shaped(b)
    ensures Shaped(r)
    ensures r.clues == b.clues && r.picks == b.picks && r.headers == b.headers
    ensures |r.showing| == |b.showing|
    ensures forall j :: 0 <= j < |b.showing| ==> Rank(b.showing[j]) <= Rank(r.showing[j])
    ensures r.present <= b.present
    decreases |clicks|
  {
    if clicks == [] then b else Run(Click(b, clicks[0]), clicks[1..])
  }

  lemma {:induction false} RunAppend(b: BoardState, s: seq<Target>, t: seq<Target>)
    requires Shaped(b)
    ensures Run(b, s + t) == Run(Run(b, s), t)
    decreases |s|
  {
    if s == [] {
      assert s + t == t;
    } else {
      assert (s + t)[1..] == s[1..] + t;
      RunAppend(Click(b, s[0]), s[1..], t);
    }
  }

  lemma RunThree(b: BoardState, c: Target)
    requires Shaped(b)
    ensures Run(b, [c, c, c]) == Click(Click(Click(b, c), c), c)
  {
    var r1 := Click(b, c);
    var r2 := Click(r1, c);
    assert [c, c, c][1..] == [c, c] && [c, c][1..] == [c] && [c][1..] == [];
    assert Run(b, [c, c, c]) == Run(r1, [c, c]);
    assert Run(r1, [c, c]) == Run(r2, [c]);
  }

  /** One click on the active cell either takes it off the board or moves
      its record one step towards the answer. */
  lemma ClickActive(b: BoardState, next: int)
    requires Inv(b, next) && b.phase == Playing
    ensures var r := Click(b, Cell(next));
      Inv(r, next + 1) ||
      (Inv(r, next) && r.phase == Playing && Rank(r.showing[next]) == Rank(b.showing[next]) + 1)
  {
    OneActiveCell(b, next, next);
    ClickKeepsInv(b, next, Cell(next));
  }

  /** A click on a cell that already left the board changes nothing. */
  lemma ClickPast(b: BoardState, next: int, i: int)
    requires Inv(b, next) && i < next
    ensures Click(b, Cell(i)) == b
  {
    OneActiveCell(b, next, i);
  }

  /** Three clicks on the active cell always take it off the board, whatever
      state its record was in. */
  lemma ThreeClicksRemove(b: BoardState, next: int)
    requires Inv(b, next) && b.phase == Playing
    ensures Inv(Run(b, [Cell(next), Cell(next), Cell(next)]), next + 1)
  {
    var c := Cell(next);
    RunThree(b, c);
    var r1 := Click(b, c);
    var r2 := Click(r1, c);
    ClickActive(b, next);
    if Inv(r1, next + 1) {
      ClickPast(r1, next + 1, next);
      ClickPast(r2, next + 1, next);
    } else {
      ClickActive(r1, next);
      if Inv(r2, next + 1) {
        ClickPast(r2, next + 1, next);
      } else {
        ClickActive(r2, next);
      }
    }
  }

  /** Clicking each cell three times, in order. */
  function Script(from: int, to: int): (s: seq<Target>)
    decreases to - from
  {
    if from >= to then [] else [Cell(from), Cell(from), Cell(from)] + Script(from + 1, to)
  }

  /** The game can always be finished: from any reachable board, clicking
      every remaining cell three times in order ends in the game-over state
      with nothing left on the board. */
  lemma {:induction false} PlayToEnd(b: BoardState, next: int)
    requires Inv(b, next)
    ensures var r := Run(b, Script(next, |b.clues|));
      Inv(r, |b.clues|) && r.phase == Over && r.present == {} && r.visible == {} && r.shownHeaders == {}
    decreases |b.clues| - next
  {
    var n := |b.clues|;
    if next == n {
      assert Script(next, n) == [];
      assert forall x :: x !in b.present by {
        forall x ensures x !in b.present { assert !Between(n, x, n); }
      }
    } else {
      var three := [Cell(next), Cell(next), Cell(next)];
      ThreeClicksRemove(b, next);
      RunAppend(b, three, Script(next + 1, n));
      PlayToEnd(Run(b, three), next + 1);
    }
  }
}
