/**
 The primary stores (`questionBank` and the tombstones `deletedQuestions`) as a
 value, the change each command makes to them, and the undo of each change.
 The undo stack is consistent with a store when, entry by entry from the top,
 each entry fits the store and reverting it gives the store the entry below fits.
 */
module UndoLog {
  import opened Records

  /** The question bank and the tombstones of deleted questions. */
  datatype Store = Store(live: map<int, Question>, tombstones: map<int, Question>)

  /** Every record sits under its own id, no id is both live and deleted, and
      no unsolved record carries a solve date. */
  ghost predicate WellKept(s: Store)
  {
    && KeyedById(s.live) && KeyedById(s.tombstones)
    && (forall id :: id in s.live ==> DateAgrees(s.live[id]))
    && (forall id :: id in s.tombstones ==> DateAgrees(s.tombstones[id]))
    && s.live.Keys !! s.tombstones.Keys
  }

  /** `addQuestion`: the new record goes into the bank. */
  function AddRecord(s: Store, q: Question): Store
  {
    Store(s.live[q.id := q], s.tombstones)
  }

  /** `markSolved` on a live, unsolved id. */
  function SolveRecord(s: Store, id: int, date: string): Store
    requires id in s.live
  {
    Store(s.live[id := s.live[id].(isSolved := true, solvedDate := date)], s.tombstones)
  }

  /** `deleteQuestionByID` on a live id: the record moves to the tombstones. */
  function DeleteRecord(s: Store, id: int): Store
    requires id in s.live
  {
    Store(s.live - {id}, s.tombstones[id := s.live[id]])
  }

  /** The entry could be the one the last change to `s` pushed: an added question
      is live and unsolved, a solved one is live and solved, a deleted one is
      gone from the bank and held as a tombstone. */
  ghost predicate Matches(s: Store, e: UndoEntry)
  {
    match e.action
    case Add => e.id in s.live && !s.live[e.id].isSolved
    case Solve => e.id in s.live && s.live[e.id].isSolved
    case Delete => e.id !in s.live && e.id in s.tombstones
  }

  /** What `undoLastAction` does to the stores for the entry it pops. */
  function Revert(s: Store, e: UndoEntry): (r: Store)
    requires Matches(s, e)
    ensures forall id :: id != e.id ==> (id in r.live <==> id in s.live) && (id in r.tombstones <==> id in s.tombstones)
    ensures e.action == Add ==> e.id !in r.live && r.tombstones == s.tombstones
    ensures e.action == Solve ==>
      e.id in r.live && !r.live[e.id].isSolved && r.live[e.id].solvedDate == "" && r.tombstones == s.tombstones
    ensures e.action == Delete ==> e.id in r.live && r.live[e.id] == s.tombstones[e.id] && e.id !in r.tombstones
  {
    match e.action
    case Add => Store(s.live - {e.id}, s.tombstones)
    case Solve => Store(s.live[e.id := s.live[e.id].(isSolved := false, solvedDate := "")], s.tombstones)
    case Delete => Store(s.live[e.id := s.tombstones[e.id]], s.tombstones - {e.id})
  }

  /** The undo stack (top last) is the history of `s`. */
  ghost predicate History(s: Store, log: seq<UndoEntry>)
    decreases |log|
  {
    log == [] ||
    (Matches(s, log[|log| - 1]) && History(Revert(s, log[|log| - 1]), log[..|log| - 1]))
  }

  /** Adding a fresh, unsolved record keeps the stores well kept, and undoing the
      add gives back exactly the stores before it. */
  lemma UndoAdd(s: Store, q: Question)
    requires WellKept(s)
    requires q.id !in s.live && q.id !in s.tombstones
    requires !q.isSolved && q.solvedDate == ""
    ensures WellKept(AddRecord(s, q))
    ensures Matches(AddRecord(s, q), UndoEntry(Add, q.id))
    ensures Revert(AddRecord(s, q), UndoEntry(Add, q.id)) == s
  {
    assert s.live[q.id := q] - {q.id} == s.live;
  }

  /** Solving a live, unsolved record keeps the stores well kept, and undoing the
      solve gives back exactly the stores before it. */
  lemma UndoSolve(s: Store, id: int, date: string)
    requires WellKept(s)
    requires id in s.live && !s.live[id].isSolved
    ensures WellKept(SolveRecord(s, id, date))
    ensures Matches(SolveRecord(s, id, date), UndoEntry(Solve, id))
    ensures Revert(SolveRecord(s, id, date), UndoEntry(Solve, id)) == s
  {
    var q := s.live[id];
    assert q.solvedDate == "";
    assert q.(isSolved := true, solvedDate := date).(isSolved := false, solvedDate := "") == q;
    assert s.live[id := q] == s.live;
  }

  /** Deleting a live record keeps the stores well kept, and undoing the delete
      gives back exactly the stores before it. */
  lemma UndoDelete(s: Store, id: int)
    requires WellKept(s)
    requires id in s.live
    ensures WellKept(DeleteRecord(s, id))
    ensures Matches(DeleteRecord(s, id), UndoEntry(Delete, id))
    ensures Revert(DeleteRecord(s, id), UndoEntry(Delete, id)) == s
  {
    assert id !in s.tombstones;
    assert (s.live - {id})[id := s.live[id]] == s.live;
    assert s.tombstones[id := s.live[id]] - {id} == s.tombstones;
  }

  /** Reverting the entry that fits keeps the stores well kept. */
  lemma RevertKeeps(s: Store, e: UndoEntry)
    requires WellKept(s) && Matches(s, e)
    ensures WellKept(Revert(s, e))
  {
  }

  /** A change whose undo gives back `s` extends the history of `s` by its entry. */
  lemma HistoryPush(s: Store, log: seq<UndoEntry>, s': Store, e: UndoEntry)
    requires History(s, log)
    requires Matches(s', e) && Revert(s', e) == s
    ensures History(s', log + [e])
  {
    assert (log + [e])[..|log|] == log;
  }
}
