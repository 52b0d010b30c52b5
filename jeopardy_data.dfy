/** Records the trivia web service delivers, as the game keeps them, and the
    constants the game is built around. */
module JeopardyData {

  /** Identifier of a category on the trivia service (`id`, `category_id`). */
  type CategoryId = int

  /** One clue record. `categoryId` is the record's own back-reference to the
      category it belongs to (`category_id`); the game only reads it to find
      that category's header cell. */
  datatype Clue = Clue(question: string, answer: string, categoryId: CategoryId)

  /** One category record as fetched by id: its id, title and clue list. */
  datatype Category = Category(id: CategoryId, title: string, clues: seq<Clue>)

  /** The first entry of the answer to one random-category request: the
      category's id and how many clues the service says it has. */
  datatype Probe = Probe(id: CategoryId, cluesCount: int)

  datatype Option<T> = None | Some(value: T)

  /** Width of the board: how many category ids one game collects. */
  const NumCategories: nat := 6

  /** Fewest clues a sampled category must report to be accepted. */
  const MinClues: int := 2
}
