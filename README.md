# Jeopardy board: a verified model of the clue-reveal game

This project models the core of a small browser trivia game (`jeopardy.js`).
The game asks a trivia web service for six random categories, keeping only
those that report at least two clues. It fetches each category's record and
builds a board. The board has one header cell per category and two cells per
category, holding two randomly picked clues. Below the board is one shared
answer slot.

Clicking a displayed cell moves that clue's `showing` field from null to
`'question'` (the answer slot appears), then to `'answer'` (the slot shows the
answer). The third click removes the cell. Removing a cell displays the next
cell. After a category's second cell goes, that category's header is hidden
and the next category's header is displayed. When the last cell goes, the
game-over text replaces the board. Restarting wipes the board and empties the
`categories` and `clues` arrays.

Modules:

- `JeopardyData` (`jeopardy_data.dfy`): the service's records (`Clue`,
  `Category`, `Probe`) and the constants 6 and 2.
- `CategoryIds` (`category_ids.dfy`): the sampling loop of `getCategoryIds`.
  The service's answers to the random requests are an input sequence of
  probes. `Accepted` is the reference definition of what is kept.
- `Reveal` (`reveal.dfy`): the whole page state as a value (`BoardState`).
  `Initial` is the board `fillTable` builds. `Click` is one run of
  `handleClick`, together with one lemma per row of its transition table.
- `Progress` (`progress.dfy`): the invariant of every reachable board. Exactly
  one cell is active until game over, and the headers and answer slot match it.
  The module proves that every click preserves it and that the game can always
  be played to the end.
- `App` (`app.dfy`): class `Jeopardy`. Its fields are the page's global state,
  and its methods reassign them in place (`showLoadingView`, the push of
  fetched categories, `fillTable`, `handleClick`). `Reset`, `FillTable` and
  `HandleClick` are proved to leave exactly the state given by `Cleared`,
  `Initial` and `Click`. `PushCategory` is proved to append its record to
  `categories` and change nothing else.

Two behaviours of the code are modelled as written:

- The doc comment of `handleClick` (jeopardy.js:106-109) says a click on a
  clue showing its answer is ignored. The code (jeopardy.js:121-133) removes
  the cell and advances the board. The model follows the code.
- `fillTable` picks each of a category's two clues independently
  (jeopardy.js:85-86), so both slots can hold the same clue record. The record
  is shared: `clues` holds references, so setting `showing` through one slot
  changes it for the other too. The model keeps a per-slot `picks` sequence.
  `SameClue` says when two slots share a record, and `Mark` updates every slot
  that shares it. As a result, the second cell of such a pair already shows its
  answer when it appears and is removed by its first click
  (`Progress.DuplicatePickRemovedAtOnce`). Even a category with exactly two
  clues is not filled deterministically: each slot still chooses between two.

A click can only land on a displayed element. A hidden or removed cell cannot
be the target of a click, so `Click` treats a click on such a cell as a click
elsewhere. A click on anything other than a board cell does nothing
(jeopardy.js:114).

## Model

| member | source | states |
|---|---|---|
| `CategoryIds.GetCategoryIds` | jeopardy.js:29-40 | Probes are consumed in order until six ids are kept. The result is the first six kept ids. The loop stops at the first probe that completes six. If the probes run out first, the result is `None` after all of them were consumed. |
| `CategoryIds.AcceptedIsOrderedSelection` | jeopardy.js:31-38 | The kept ids are the ids of the probes reporting at least two clues. They are kept in probe order (strictly increasing positions). No such probe is skipped. |
| `CategoryIds.AcceptedMembers` | jeopardy.js:34-36 | An id is kept if and only if some probe with that id reports at least two clues. |
| `CategoryIds.AcceptedAppend` | jeopardy.js:31-38 | Probing in two runs keeps what the first run keeps followed by what the second keeps. Nothing kept is ever dropped. |
| `CategoryIds.AcceptedPrefix` | jeopardy.js:31-38 | What a prefix of the probes keeps is a prefix of what all of them keep. |
| `CategoryIds.DuplicatesKept` | jeopardy.js:34-35 | The same category probed twice is kept twice. |
| `CategoryIds.AllKept` | jeopardy.js:34-35 | When every probe reports at least two clues, every probe's id is kept, in probe order. |
| `CategoryIds.FirstShortProbeDiscarded` | jeopardy.js:34-35 | Probes reporting 1, 2, 3, 2, 2, 2, 2 clues: the first is discarded and the other six are kept in order. |
| `Reveal.Flatten` | jeopardy.js:84-92 | The flat clue list has two entries per category. |
| `Reveal.InitialPairs` | jeopardy.js:84-92 | After construction the board has `2 * |categories|` clues, and slots `2k` and `2k+1` both hold clues from category `k`'s list. |
| `Reveal.Initial` | jeopardy.js:73-100 | On a new board every clue is unrevealed and every cell is present. Only cell 0 is displayed, and exactly the header whose id is clue 0's category id, when such a header exists; with consistent records that header is category 0's. The answer slot is hidden and reads "?". |
| `Reveal.ShowHeader` | jeopardy.js:100 | Displaying a header by id adds that id exactly when a header cell with it exists. Nothing else is displayed or hidden. |
| `Reveal.Mark` | jeopardy.js:116 | Setting a clue's `showing` changes it in that slot and in every slot holding the same record. It changes no slot holding a different record. |
| `Reveal.Click` | jeopardy.js:112-136 | The clue list and its order never change. Cells only leave the table. No record's `showing` ever goes back. A click that does not land on a displayed cell of a board in play changes nothing. |
| `Reveal.ClickHidden` | jeopardy.js:115-117 | A null clue becomes `'question'` and the answer slot is displayed with its text unchanged. Nothing else changes. |
| `Reveal.ClickQuestion` | jeopardy.js:118-120 | A `'question'` clue becomes `'answer'` and the slot's text becomes that clue's answer. Nothing else changes. |
| `Reveal.ClickAnswer` | jeopardy.js:121-123 | An `'answer'` clue's cell is removed and can never be clicked again. The slot reads "?" and is hidden. Cell `index+1`, if present, is displayed. |
| `Reveal.ClickAnswerHeaders` | jeopardy.js:124-132 | Removing an even slot leaves the headers alone. Removing an odd slot hides its category's header. The game is over exactly when the removed slot is the last one, and then no further cell is displayed. Otherwise the next slot's category header is displayed. |
| `Progress.InitialInv` | jeopardy.js:83-100 | A new board built from consistent records satisfies the invariant with cell 0 active. |
| `Progress.OneActiveCell` | jeopardy.js:99-132 | Under the invariant, while the game is in play, the active cell is the only clickable one. After game over none is. |
| `Progress.ClickKeepsInv` | jeopardy.js:112-136 | Every click preserves the invariant. The active cell moves to the next one exactly when it was clicked while showing its answer. |
| `Progress.RemoveKeepsInv` | jeopardy.js:121-133 | Removing the active cell makes the next cell active. The next cell's header becomes the only displayed one and the answer slot is reset. After the last cell the game is over. |
| `Progress.ClickPast` | jeopardy.js:123 | A click on a cell that has already been removed changes nothing. |
| `Progress.ClickActive` | jeopardy.js:115-133 | A click on the active cell either removes it or moves its clue exactly one step forward. |
| `Progress.DuplicatePickRemovedAtOnce` | jeopardy.js:85-123 | When both slots of a category hold the same record, the second cell already shows its answer and its first click removes it. |
| `Progress.Run` | jeopardy.js:182-184 | No sequence of clicks changes the clue list, lowers any record's `showing`, or brings a removed cell back. |
| `Progress.ThreeClicksRemove` | jeopardy.js:115-133 | Three clicks on the active cell always take it off the board. |
| `Progress.PlayToEnd` | jeopardy.js:124-132 | Clicking every remaining cell three times in order ends in game over with no cell present or displayed and no header displayed. |
| `App.HeaderCells` | jeopardy.js:76-80 | The header loop makes one header id per category. |
| `App.ClueCells` | jeopardy.js:83-92 | The clue loop pushes the picked clues in slot order, and its counter numbers the cells 0 to `2 * |categories| - 1`. |
| `App.Jeopardy.constructor` | jeopardy.js:21-22 | The page starts with both arrays empty and no board. |
| `App.Jeopardy.Reset` | jeopardy.js:142-148 | Wiping the board empties `categories` and `clues` and leaves no cell, header or answer slot. |
| `App.Jeopardy.PushCategory` | jeopardy.js:166-168 | A fetched category record is appended to `categories`. |
| `App.Jeopardy.FillTable` | jeopardy.js:68-102 | The state after filling the table is exactly `Reveal.Initial` of the categories and picks. |
| `App.Jeopardy.HandleClick` | jeopardy.js:112-136 | The state after a click is exactly `Reveal.Click` of the state before. |

## Left out

- Network requests (`axios.get`, jeopardy.js:32, 55): the answers to the
  random-category requests are the input sequence of `GetCategoryIds`. The
  fetched category records are the arguments of `PushCategory`.
- Randomness (`Math.random()`, jeopardy.js:32, 85-86): the random offset is
  part of what a probe answers. The clue picks are the `chosen` argument of
  `FillTable`, each required to lie within its category's clue list. The
  program scales the random number by the record's `clues_count`; the model
  assumes that count equals the length of the clue list.
- `CategoryIds.GetCategoryIds`: the program keeps requesting until six
  categories are kept, possibly forever. The model stops with `None` when its
  finite input runs out.
- `App.Jeopardy.FillTable`: requires at least one category. The program would
  fail reading `clues[0]` without one, and it always passes six.
- `App.Jeopardy.FillTable`: requires an empty board and empty `clues`, which
  is how the program always calls it (right after the wipe). Calling it twice
  would append a second table and further clues; that is not modelled.
- `Progress.InitialInv`: assumes every clue of a category refers back to that
  category (`WellFormed`), as the service's records do. The transition
  functions themselves do not assume it.
- Game over: the program replaces the board with a message. The model marks
  the phase `Over`, in which no cell can be clicked. `Progress.PlayToEnd`
  shows that nothing is present or displayed by then.
- The order in which `setupAndStart` calls the parts, `async`/`await`, and the
  event binding (jeopardy.js:164-184) are not modelled. A restart while
  loading is not modelled either.
- Presentation: HTML construction, CSS display values, upper-casing of titles
  and questions, HTML injection through `.html(answer)`, the loading spinner
  and the start button (jeopardy.js:69-98, 143-144, 147, 152-155).
  `console.log` output is not modelled.
