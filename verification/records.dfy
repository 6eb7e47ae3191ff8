/**
 The values the tracker stores: one question record, and the entries of the
 undo stack.
 */
module Records {

  /** One interview question, as kept in the question bank (the `Question` struct).
      `solvedDate` is free text and is empty while the question is unsolved. */
  datatype Question = Question(
    id: int,
    title: string,
    topic: string,
    difficulty: string,
    notes: string,
    platform: string,
    isSolved: bool,
    solvedDate: string)

  /** The tag of an undo-stack entry: the strings "add", "solve" and "delete". */
  datatype Action = Add | Solve | Delete

  /** One undo-stack entry: what was done, and to which question id. */
  datatype UndoEntry = UndoEntry(action: Action, id: int)

  /** A record whose solved flag and solve date agree: an unsolved question has
      no solve date. Every record the tracker creates or restores is of this kind. */
  predicate DateAgrees(q: Question)
  {
    q.isSolved || q.solvedDate == ""
  }

  /** Every record sits under its own id. */
  ghost predicate KeyedById(m: map<int, Question>)
  {
    forall id :: id in m ==> m[id].id == id
  }
}
