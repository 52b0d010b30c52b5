/** The page's global state and the handlers that change it in place: the
    `categories` and `clues` arrays, the clue records' `showing` fields and
    the board elements. */
module App {
  import opened JeopardyData
  import opened Reveal

  /** The first loop of `fillTable`: one header cell per category, carrying
      the category's id. */
  method HeaderCells(categories: seq<Category>) returns (ids: set<CategoryId>)
    ensures ids == HeaderIds(categories)
  {
    ids := {};
    for k := 0 to |categories|
      invariant ids == HeaderIds(categories[..k])
    {
      assert categories[..k + 1] == categories[..k] + [categories[k]];
      ids := ids + {categories[k].id};
    }
    assert categories[..|categories|] == categories;
  }

  /** The second loop of `fillTable`: for each category, its two picked clues
      are pushed onto the flat list and two cells are made, numbered by a
      counter that starts at -1. */
  method ClueCells(categories: seq<Category>, chosen: seq<nat>) returns (flat: seq<Clue>, cells: set<int>)
    requires PicksFit(categories, chosen)
    ensures flat == Flatten(categories, chosen)
    ensures cells == Range(0, |flat|)
  {
    flat, cells := [], {};
    var i := -1;
    for k := 0 to |categories|
      invariant |flat| == 2 * k && i == 2 * k - 1
      invariant forall j :: 0 <= j < 2 * k ==> flat[j] == categories[j / 2].clues[chosen[j]]
      invariant cells == Range(0, 2 * k)
    {
      var q1 := categories[k].clues[chosen[2 * k]];
      var q2 := categories[k].clues[chosen[2 * k + 1]];
      flat := flat + [q1, q2];
      i := i + 1;
      cells := cells + {i};
      i := i + 1;
      cells := cells + {i};
      assert cells == Range(0, 2 * k + 2) by {
        forall x ensures x in cells <==> x in Range(0, 2 * k + 2) {
          assert x in Range(0, 2 * k) <==> Between(0, x, 2 * k);
          assert x in Range(0, 2 * k + 2) <==> Between(0, x, 2 * k + 2);
        }
      }
    }
  }

  class Jeopardy {
    var categories: seq<Category>
    var clues: seq<Clue>
    var picks: seq<nat>
    var showing: seq<Showing>
    var present: set<int>
    var visible: set<int>
    var headers: set<CategoryId>
    var shownHeaders: set<CategoryId>
    var slotVisible: bool
    var slotText: string
    var phase: Phase

    /** The whole state as a value. */
    function State(): BoardState
      reads this
    {
      BoardState(categories, clues, picks, showing, present, visible,
                 headers, shownHeaders, slotVisible, slotText, phase)
    }

    /** The representation is consistent, and without a board there are no
        clues. */
    ghost predicate Valid()
      reads this
    {
      Shaped(State()) && (phase == Idle ==> clues == [])
    }

    /** The page as loaded: both arrays empty, no board. */
    constructor ()
      ensures Valid() && State() == Cleared()
    {
      categories, clues, picks, showing := [], [], [], [];
      present, visible, headers, shownHeaders := {}, {}, {}, {};
      slotVisible, slotText, phase := false, "?", Idle;
    }

    /** `showLoadingView`: wipes the board and empties both arrays. */
    method Reset()
      modifies this
      ensures Valid() && State() == Cleared()
    {
      categories, clues, picks, showing := [], [], [], [];
      present, visible, headers, shownHeaders := {}, {}, {}, {};
      slotVisible, slotText, phase := false, "?", Idle;
    }

    /** Appends one fetched category record to `categories`. */
    method PushCategory(c: Category)
      requires Valid()
      modifies this`categories
      ensures Valid()
      ensures categories == old(categories) + [c]
    {
      categories := categories + [c];
    }

    /** `fillTable`: one header cell per category, then for each category two
        picked clues pushed onto `clues`, each given the next clue number;
        cell 0 and its category's header are displayed. `chosen[i]` is the
        random pick for slot `i`. */
    method FillTable(chosen: seq<nat>)
      requires Valid() && phase == Idle
      requires |categories| > 0 && PicksFit(categories, chosen)
      modifies this
      ensures Valid()
      ensures State() == Initial(old(categories), chosen)
    {
      var headerIds := HeaderCells(categories);
      var flat, cells := ClueCells(categories, chosen);
      ghost var shown := ShowHeader(headerIds, {}, flat[0].categoryId);
      assert Initial(categories, chosen) ==
        BoardState(categories, flat, chosen, seq(|flat|, _ => Hidden), cells, {0},
                   headerIds, shown, false, "?", Playing);
      clues, picks := flat, chosen;
      showing := seq(|flat|, _ => Hidden);
      present, visible := cells, {0};
      headers := headerIds;
      shownHeaders := ShowHeader(headerIds, {}, flat[0].categoryId);
      slotVisible, slotText := false, "?";
      phase := Playing;
    }

    /** `handleClick`: advances the clicked cell's clue as `Click` says. */
    method HandleClick(t: Target)
      requires Valid()
      modifies this
      ensures Valid()
      ensures State() == Click(old(State()), t)
    {
      if !t.Cell? {
        return;
      }
      var i := t.index;
      if !(phase == Playing && i in present && i in visible) {
        return;
      }
      ghost var before := State();
      if showing[i] == Hidden {
        showing := Mark(showing, picks, i, Question);
        slotVisible := true;
        assert State() == before.(showing := showing, slotVisible := true);
      } else if showing[i] == Question {
        slotText := clues[i].answer;
        showing := Mark(showing, picks, i, Answer);
        assert State() == before.(showing := showing, slotText := slotText);
      } else {
        slotText, slotVisible := "?", false;
        present := present - {i};
        visible := visible - {i};
        if i % 2 != 0 {
          shownHeaders := shownHeaders - {clues[i].categoryId};
          if i + 1 == |clues| {
            phase := Over;
          } else {
            shownHeaders := ShowHeader(headers, shownHeaders, clues[i + 1].categoryId);
          }
        }
        if i + 1 in present {
          visible := visible + {i + 1};
        }
        assert State() == Remove(before, i);
      }
    }
  }
}
