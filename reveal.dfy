/** The board and its clue-reveal state machine as values: what `fillTable`
    builds and what one click does to it (`handleClick`). */
module Reveal {
  import opened JeopardyData

  /** A clue's `showing` field: null, 'question' or 'answer'. */
  datatype Showing = Hidden | Question | Answer

  /** How far a clue has been revealed; a click never lowers it. */
  function Rank(s: Showing): nat {
    match s
    case Hidden => 0
    case Question => 1
    case Answer => 2
  }

  /** Whether the page holds no board (before the first game and while
      loading), a board in play, or the game-over text that replaced the board. */
  datatype Phase = Idle | Playing | Over

  /** What a click lands on: the board cell with a given clue number, or any
      other element of the page (a header, the answer slot, a row). */
  datatype Target = Cell(index: int) | Elsewhere

  /** Everything the game's state consists of.
      - `categories`, `clues`: the two arrays; `clues` is the flat board, slots
        `2k` and `2k+1` filled from category `k`.
      - `picks[i]`: which clue of its category slot `i` refers to. Two slots of
        one category with the same pick hold the SAME clue record.
      - `showing[i]`: the `showing` field of the record in slot `i`.
      - `present`: clue numbers of the cells still in the table;
        `visible`: those displayed.
      - `headers`: ids of the header cells of the table; `shownHeaders`: those
        displayed. A header is addressed by its category id.
      - `slotVisible`, `slotText`: the shared answer slot under the table. */
  datatype BoardState = BoardState(
    categories: seq<Category>,
    clues: seq<Clue>,
    picks: seq<nat>,
    showing: seq<Showing>,
    present: set<int>,
    visible: set<int>,
    headers: set<CategoryId>,
    shownHeaders: set<CategoryId>,
    slotVisible: bool,
    slotText: string,
    phase: Phase)

  /** `lo <= j < hi`, named so that the membership fact of `Range` has a
      term to trigger on; proofs assert it to bring that fact into play. */
  predicate Between(lo: int, j: int, hi: int) {
    lo <= j < hi
  }

  /** Clue numbers `lo` up to but excluding `hi`. */
  function Range(lo: int, hi: int): set<int> {
    set j | lo <= j < hi && Between(lo, j, hi)
  }

  /** Slots `i` and `j` hold the same clue record. */
  predicate SameClue(picks: seq<nat>, i: int, j: int)
    requires 0 <= i < |picks| && 0 <= j < |picks|
  {
    i / 2 == j / 2 && picks[i] == picks[j]
  }

  /** The representation is consistent: one pick and one `showing` per slot,
      every cell belongs to a slot, only present cells are displayed, only
      existing headers are displayed, and slots holding the same record agree
      on its `showing`. */
  predicate Shaped(b: BoardState) {
    |b.picks| == |b.clues| && |b.showing| == |b.clues| &&
    (forall i :: i in b.present ==> 0 <= i < |b.clues|) &&
    b.visible <= b.present &&
    b.shownHeaders <= b.headers &&
    (forall i, j :: 0 <= i < |b.clues| && 0 <= j < |b.clues| && SameClue(b.picks, i, j) ==>
      b.showing[i] == b.showing[j])
  }

  /** The state before any board exists (also right after a reset). */
  function Cleared(): (r: BoardState)
    ensures Shaped(r)
  {
    BoardState([], [], [], [], {}, {}, {}, {}, false, "?", Idle)
  }

  /** Each slot's pick lies within its category's clue list. */
  predicate PicksFit(categories: seq<Category>, picks: seq<nat>) {
    |picks| == 2 * |categories| &&
    forall i :: 0 <= i < |picks| ==> picks[i] < |categories[i / 2].clues|
  }

  /** Every clue of a category refers back to that category. */
  predicate WellFormed(categories: seq<Category>) {
    forall k, j :: 0 <= k < |categories| && 0 <= j < |categories[k].clues| ==>
      categories[k].clues[j].categoryId == categories[k].id
  }

  /** The flat clue list: category `k`'s picked clues at `2k` and `2k+1`. */
  function Flatten(categories: seq<Category>, picks: seq<nat>): (clues: seq<Clue>)
    requires PicksFit(categories, picks)
    ensures |clues| == 2 * |categories|
  {
    seq(|picks|, i requires 0 <= i < |picks| => categories[i / 2].clues[picks[i]])
  }

  /** Ids of the header cells, one per category. */
  function HeaderIds(categories: seq<Category>): set<CategoryId> {
    set k | 0 <= k < |categories| :: categories[k].id
  }

  /** Displays the header cells with category id `id`, if there are any. */
  function ShowHeader(headers: set<CategoryId>, shown: set<CategoryId>, id: CategoryId): (r: set<CategoryId>)
    ensures forall x :: x != id ==> (x in r <==> x in shown)
    ensures id in r <==> id in shown || id in headers
  {
    if id in headers then shown + {id} else shown
  }

  /** The board `fillTable` builds: every clue unrevealed, every cell present,
      only cell 0 and the header of clue 0's category displayed, the answer
      slot hidden and reading "?". */
  function Initial(categories: seq<Category>, picks: seq<nat>): (r: BoardState)
    requires |categories| > 0 && PicksFit(categories, picks)
    ensures Shaped(r) && r.phase == Playing
    ensures r.categories == categories && r.picks == picks && r.headers == HeaderIds(categories)
    ensures |r.clues| == 2 * |categories|
    ensures forall j :: 0 <= j < |r.showing| ==> r.showing[j] == Hidden
    ensures r.present == Range(0, |r.clues|) && r.visible == {0}
    ensures r.shownHeaders == if r.clues[0].categoryId in r.headers then {r.clues[0].categoryId} else {}
    ensures WellFormed(categories) ==> r.shownHeaders == {categories[0].id}
    ensures !r.slotVisible && r.slotText == "?"
  {
    var clues := Flatten(categories, picks);
    var headers := HeaderIds(categories);
    var showing := seq(|clues|, _ => Hidden);
    assert categories[0].id in headers;
    assert WellFormed(categories) ==> clues[0].categoryId == categories[0].id by {
      assert clues[0] in categories[0].clues;
    }
    assert 0 in Range(0, |clues|) by { assert Between(0, 0, |clues|); }
    assert forall i :: i in Range(0, |clues|) ==> 0 <= i < |clues|;
    assert forall i, j :: 0 <= i < |clues| && 0 <= j < |clues| ==> showing[i] == showing[j];
    BoardState(categories, clues, picks, showing, Range(0, |clues|), {0},
               headers, ShowHeader(headers, {}, clues[0].categoryId), false, "?", Playing)
  }

  /** The board has two slots per category, and both of category `k`'s slots,
      `2k` and `2k+1`, hold clues from that category's own list. */
  lemma InitialPairs(categories: seq<Category>, picks: seq<nat>)
    requires |categories| > 0 && PicksFit(categories, picks)
    ensures var r := Initial(categories, picks);
      |r.clues| == 2 * |categories| &&
      forall k :: 0 <= k < |categories| ==>
        r.clues[2 * k] in categories[k].clues && r.clues[2 * k + 1] in categories[k].clues
  {
    var r := Initial(categories, picks);
    forall k | 0 <= k < |categories|
      ensures r.clues[2 * k] in categories[k].clues && r.clues[2 * k + 1] in categories[k].clues
    {
      assert (2 * k) / 2 == k && (2 * k + 1) / 2 == k;
      assert r.clues[2 * k] == categories[k].clues[picks[2 * k]];
      assert r.clues[2 * k + 1] == categories[k].clues[picks[2 * k + 1]];
    }
  }

  /** A cell can receive a click only while the board is in play, the cell is
      still in the table and it is displayed. */
  predicate Clickable(b: BoardState, i: int) {
    b.phase == Playing && i in b.present && i in b.visible
  }

  /** Sets the `showing` of the record in slot `i`, as seen from every slot
      holding that record. */
  function Mark(showing: seq<Showing>, picks: seq<nat>, i: int, s: Showing): (r: seq<Showing>)
    requires |picks| == |showing| && 0 <= i < |showing|
    ensures |r| == |showing| && r[i] == s
    ensures forall j :: 0 <= j < |showing| && SameClue(picks, i, j) ==> r[j] == s
    ensures forall j :: 0 <= j < |showing| && !SameClue(picks, i, j) ==> r[j] == showing[j]
  {
    seq(|showing|, j requires 0 <= j < |showing| => if SameClue(picks, i, j) then s else showing[j])
  }

  /** The third click on cell `i`: the answer slot is reset and hidden, the
      cell leaves the table, the next cell is displayed, and after the second
      clue of a category that category's header is hidden and either the game
      ends (last slot) or the next category's header is displayed. */
  function Remove(b: BoardState, i: int): (r: BoardState)
    requires Shaped(b) && Clickable(b, i)
    ensures Shaped(r)
  {
    var odd := i % 2 != 0;
    var last := odd && i + 1 == |b.clues|;
    var hidden := if odd then b.shownHeaders - {b.clues[i].categoryId} else b.shownHeaders;
    var shown := if odd && !last then ShowHeader(b.headers, hidden, b.clues[i + 1].categoryId) else hidden;
    var present := b.present - {i};
    b.(slotText := "?", slotVisible := false,
       present := present,
       visible := (b.visible - {i}) + (if i + 1 in present then {i + 1} else {}),
       shownHeaders := shown,
       phase := if last then Over else b.phase)
  }

  /** One click. On a displayed cell it advances that clue's record one step:
      unrevealed to question (the answer slot appears), question to answer
      (the slot shows the answer), answer to removed. Anything else is a
      no-op. The clue list never changes, cells only leave the table, and no
      record's `showing` ever goes back. */
  function Click(b: BoardState, t: Target): (r: BoardState)
    requires Shaped(b)
    ensures Shaped(r)
    ensures r.categories == b.categories && r.clues == b.clues && r.picks == b.picks && r.headers == b.headers
    ensures |r.showing| == |b.showing|
    ensures forall j :: 0 <= j < |b.showing| ==> Rank(b.showing[j]) <= Rank(r.showing[j])
    ensures r.present <= b.present
    ensures !(t.Cell? && Clickable(b, t.index)) ==> r == b
    ensures r.phase == Idle <==> b.phase == Idle
  {
    match t
    case Elsewhere => b
    case Cell(i) =>
      if !Clickable(b, i) then b
      else
        match b.showing[i]
        case Hidden => b.(showing := Mark(b.showing, b.picks, i, Question), slotVisible := true)
        case Question => b.(showing := Mark(b.showing, b.picks, i, Answer), slotText := b.clues[i].answer)
        case Answer => Remove(b, i)
  }

  /** First click on a cell: its record shows the question and the answer slot
      is displayed, its text unchanged. Nothing else changes. */
  lemma ClickHidden(b: BoardState, i: int)
    requires Shaped(b) && Clickable(b, i) && b.showing[i] == Hidden
    ensures var r := Click(b, Cell(i));
      r.showing[i] == Question && r.slotVisible && r.slotText == b.slotText &&
      (forall j :: 0 <= j < |b.showing| ==>
        r.showing[j] == if SameClue(b.picks, i, j) then Question else b.showing[j]) &&
      r.present == b.present && r.visible == b.visible &&
      r.shownHeaders == b.shownHeaders && r.phase == b.phase
  {
  }

  /** Second click: the record shows the answer and the answer slot's text
      becomes that clue's answer. Nothing else changes. */
  lemma ClickQuestion(b: BoardState, i: int)
    requires Shaped(b) && Clickable(b, i) && b.showing[i] == Question
    ensures var r := Click(b, Cell(i));
      r.showing[i] == Answer && r.slotText == b.clues[i].answer &&
      (forall j :: 0 <= j < |b.showing| ==>
        r.showing[j] == if SameClue(b.picks, i, j) then Answer else b.showing[j]) &&
      r.slotVisible == b.slotVisible && r.present == b.present && r.visible == b.visible &&
      r.shownHeaders == b.shownHeaders && r.phase == b.phase
  {
  }

  /** Third click: the answer slot is hidden and reads "?", the cell leaves
      the table for good and the next cell, if any, is displayed. No record's
      `showing` changes. */
  lemma ClickAnswer(b: BoardState, i: int)
    requires Shaped(b) && Clickable(b, i) && b.showing[i] == Answer
    ensures var r := Click(b, Cell(i));
      !r.slotVisible && r.slotText == "?" && r.showing == b.showing &&
      r.present == b.present - {i} && i !in r.present &&
      r.visible == (b.visible - {i}) + (if i + 1 in b.present then {i + 1} else {}) &&
      !Clickable(r, i) && Click(r, Cell(i)) == r
  {
  }

  /** Header effects of the third click. After the first clue of a category
      nothing changes; after the second the category's header is hidden, and
      the game is over exactly when that was the last slot, otherwise the next
      slot's category header is displayed. */
  lemma ClickAnswerHeaders(b: BoardState, i: int)
    requires Shaped(b) && Clickable(b, i) && b.showing[i] == Answer
    ensures var r := Click(b, Cell(i));
      (r.phase == Over <==> i % 2 == 1 && i + 1 == |b.clues|) &&
      (i % 2 == 0 ==> r.shownHeaders == b.shownHeaders) &&
      (i % 2 == 1 && i + 1 == |b.clues| ==>
        r.shownHeaders == b.shownHeaders - {b.clues[i].categoryId} && r.visible == b.visible - {i}) &&
      (i % 2 == 1 && i + 1 < |b.clues| ==>
        var own, following := b.clues[i].categoryId, b.clues[i + 1].categoryId;
        (own != following ==> own !in r.shownHeaders) &&
        (following in b.headers ==> following in r.shownHeaders) &&
        r.shownHeaders - {own, following} == b.shownHeaders - {own, following})
  {
  }
}
