/**
 The whole tracker state as a value, one step function per command, and the
 proofs that every step keeps the state consistent and that each undo
 reverses the step below it.
 */
module TrackerState {
  import opened Records
  import opened TopicIndex
  import opened SolvedCounts
  import opened UndoLog

  /** The seven globals of the program. The undo stack's top is its last element. */
  datatype State = State(
    questionBank: map<int, Question>,
    topicMap: map<string, seq<int>>,
    solvedCountByTopic: map<string, int>,
    solvedCountByDate: map<string, int>,
    deletedQuestions: map<int, Question>,
    undoStack: seq<UndoEntry>,
    questionID: int)

  function Stores(s: State): Store
  {
    Store(s.questionBank, s.deletedQuestions)
  }

  /** The state at program start. */
  function Initial(): State
  {
    State(map[], map[], map[], map[], map[], [], 1)
  }

  /** Records sit under their own ids, every id handed out is below
      `questionID`, the topic index and both solved aggregates agree with the
      question bank, and the undo stack is the history that led to the stores. */
  ghost predicate Consistent(s: State)
  {
    && WellKept(Stores(s))
    && 1 <= s.questionID
    && (forall id :: id in s.questionBank ==> 1 <= id < s.questionID)
    && (forall id :: id in s.deletedQuestions ==> 1 <= id < s.questionID)
    && Indexes(s.topicMap, s.questionBank)
    && CountsAgree(s.questionBank, s.solvedCountByTopic, ByTopic)
    && CountsAgree(s.questionBank, s.solvedCountByDate, ByDate)
    && History(Stores(s), s.undoStack)
  }

  /** `addQuestion` (Tracker.cpp:77-107 without its console I/O). */
  function AddStep(s: State, title: string, topic: string, difficulty: string, notes: string, platform: string): (r: State)
    ensures Stores(r) == AddRecord(Stores(s), Question(s.questionID, title, topic, difficulty, notes, platform, false, ""))
    ensures r.questionID == s.questionID + 1
    ensures Ids(r.topicMap, topic) == Ids(s.topicMap, topic) + [s.questionID]
    ensures forall t :: t != topic ==> Ids(r.topicMap, t) == Ids(s.topicMap, t)
    ensures r.solvedCountByTopic == s.solvedCountByTopic && r.solvedCountByDate == s.solvedCountByDate
    ensures r.undoStack == s.undoStack + [UndoEntry(Add, s.questionID)]
  {
    var id := s.questionID;
    var q := Question(id, title, topic, difficulty, notes, platform, false, "");
    s.(questionBank := s.questionBank[id := q],
       topicMap := s.topicMap[topic := Ids(s.topicMap, topic) + [id]],
       undoStack := s.undoStack + [UndoEntry(Add, id)],
       questionID := id + 1)
  }

  /** `markSolved` on a live, unsolved id, with the solve date already resolved. */
  function SolveStep(s: State, id: int, date: string): (r: State)
    requires id in s.questionBank
    ensures Stores(r) == SolveRecord(Stores(s), id, date)
    ensures r.topicMap == s.topicMap && r.questionID == s.questionID
    ensures Count(r.solvedCountByTopic, s.questionBank[id].topic) == Count(s.solvedCountByTopic, s.questionBank[id].topic) + 1
    ensures forall t :: t != s.questionBank[id].topic ==> Count(r.solvedCountByTopic, t) == Count(s.solvedCountByTopic, t)
    ensures Count(r.solvedCountByDate, date) == Count(s.solvedCountByDate, date) + 1
    ensures forall d :: d != date ==> Count(r.solvedCountByDate, d) == Count(s.solvedCountByDate, d)
    ensures r.undoStack == s.undoStack + [UndoEntry(Solve, id)]
  {
    var q := s.questionBank[id];
    s.(questionBank := s.questionBank[id := q.(isSolved := true, solvedDate := date)],
       solvedCountByTopic := Bump(s.solvedCountByTopic, q.topic, 1),
       solvedCountByDate := Bump(s.solvedCountByDate, date, 1),
       undoStack := s.undoStack + [UndoEntry(Solve, id)])
  }

  /** `deleteQuestionByID` on a live id. */
  function DeleteStep(s: State, id: int): (r: State)
    requires id in s.questionBank
    ensures Stores(r) == DeleteRecord(Stores(s), id)
    ensures id !in Ids(r.topicMap, s.questionBank[id].topic)
    ensures forall t :: t != s.questionBank[id].topic ==> Ids(r.topicMap, t) == Ids(s.topicMap, t)
    ensures !s.questionBank[id].isSolved ==>
      r.solvedCountByTopic == s.solvedCountByTopic && r.solvedCountByDate == s.solvedCountByDate
    ensures r.questionID == s.questionID
    ensures r.undoStack == s.undoStack + [UndoEntry(Delete, id)]
  {
    var q := s.questionBank[id];
    s.(questionBank := s.questionBank - {id},
       topicMap := s.topicMap[q.topic := Erase(Ids(s.topicMap, q.topic), id)],
       solvedCountByTopic := if q.isSolved then Bump(s.solvedCountByTopic, q.topic, -1) else s.solvedCountByTopic,
       solvedCountByDate := if q.isSolved then Bump(s.solvedCountByDate, q.solvedDate, -1) else s.solvedCountByDate,
       deletedQuestions := s.deletedQuestions[id := q],
       undoStack := s.undoStack + [UndoEntry(Delete, id)])
  }

  /** The entry on top of the undo stack. */
  function Top(s: State): UndoEntry
    requires s.undoStack != []
  {
    s.undoStack[|s.undoStack| - 1]
  }

  /** The precondition of `UndoStep`: something to undo, and the records the
      undo reads are there (the source would otherwise default-construct them). */
  ghost predicate CanUndo(s: State)
  {
    s.undoStack != [] && Matches(Stores(s), Top(s))
  }

  /** `undoLastAction` on a non-empty stack: pop the top entry and reverse it. */
  function UndoStep(s: State): (r: State)
    requires CanUndo(s)
    ensures Stores(r) == Revert(Stores(s), Top(s))
    ensures r.undoStack == s.undoStack[..|s.undoStack| - 1]
    ensures r.questionID == s.questionID
    ensures Top(s).action == Add ==>
      r.solvedCountByTopic == s.solvedCountByTopic && r.solvedCountByDate == s.solvedCountByDate
  {
    var e := Top(s);
    var id := e.id;
    var s1 := s.(undoStack := s.undoStack[..|s.undoStack| - 1]);
    match e.action
    case Add =>
      var topic := s.questionBank[id].topic;
      s1.(topicMap := s.topicMap[topic := Erase(Ids(s.topicMap, topic), id)],
          questionBank := s.questionBank - {id})
    case Solve =>
      var q := s.questionBank[id];
      s1.(questionBank := s.questionBank[id := q.(isSolved := false, solvedDate := "")],
          solvedCountByTopic := Bump(s.solvedCountByTopic, q.topic, -1),
          solvedCountByDate := Bump(s.solvedCountByDate, q.solvedDate, -1))
    case Delete =>
      var q := s.deletedQuestions[id];
      s1.(questionBank := s.questionBank[id := q],
          topicMap := s.topicMap[q.topic := Ids(s.topicMap, q.topic) + [id]],
          solvedCountByTopic := if q.isSolved then Bump(s.solvedCountByTopic, q.topic, 1) else s.solvedCountByTopic,
          solvedCountByDate := if q.isSolved then Bump(s.solvedCountByDate, q.solvedDate, 1) else s.solvedCountByDate,
          deletedQuestions := s.deletedQuestions - {id})
  }

  // ---------------------------------------------------------------------------
  // Every step keeps the state consistent.

  lemma InitialConsistent()
    ensures Consistent(Initial())
  {
    CountsAgreeEmpty(ByTopic);
    CountsAgreeEmpty(ByDate);
  }

  /** Adding keeps the state consistent; the new id was never used before and
      the next one is larger. */
  lemma AddConsistent(s: State, title: string, topic: string, difficulty: string, notes: string, platform: string)
    requires Consistent(s)
    ensures Consistent(AddStep(s, title, topic, difficulty, notes, platform))
    ensures s.questionID !in s.questionBank && s.questionID !in s.deletedQuestions
  {
    var id := s.questionID;
    var q := Question(id, title, topic, difficulty, notes, platform, false, "");
    var s' := AddStep(s, title, topic, difficulty, notes, platform);
    UndoAdd(Stores(s), q);
    assert Stores(s') == AddRecord(Stores(s), q);
    HistoryPush(Stores(s), s.undoStack, Stores(s'), UndoEntry(Add, id));
    IndexAfterAppend(s.topicMap, s.questionBank, id, q);
    CountsAfterStore(s.questionBank, s.solvedCountByTopic, ByTopic, id, q);
    CountsAfterStore(s.questionBank, s.solvedCountByDate, ByDate, id, q);
  }

  /** Solving a live, unsolved question keeps the state consistent. */
  lemma SolveConsistent(s: State, id: int, date: string)
    requires Consistent(s)
    requires id in s.questionBank && !s.questionBank[id].isSolved
    ensures Consistent(SolveStep(s, id, date))
  {
    var q' := s.questionBank[id].(isSolved := true, solvedDate := date);
    var s' := SolveStep(s, id, date);
    UndoSolve(Stores(s), id, date);
    assert Stores(s') == SolveRecord(Stores(s), id, date);
    HistoryPush(Stores(s), s.undoStack, Stores(s'), UndoEntry(Solve, id));
    IndexSameTopic(s.topicMap, s.questionBank, id, q');
    CountsAfterStore(s.questionBank, s.solvedCountByTopic, ByTopic, id, q');
    CountsAfterStore(s.questionBank, s.solvedCountByDate, ByDate, id, q');
  }

  /** Deleting a live question keeps the state consistent. */
  lemma DeleteConsistent(s: State, id: int)
    requires Consistent(s)
    requires id in s.questionBank
    ensures Consistent(DeleteStep(s, id))
  {
    var s' := DeleteStep(s, id);
    UndoDelete(Stores(s), id);
    assert Stores(s') == DeleteRecord(Stores(s), id);
    HistoryPush(Stores(s), s.undoStack, Stores(s'), UndoEntry(Delete, id));
    IndexAfterErase(s.topicMap, s.questionBank, id);
    CountsAfterRemove(s.questionBank, s.solvedCountByTopic, ByTopic, id);
    CountsAfterRemove(s.questionBank, s.solvedCountByDate, ByDate, id);
  }

  /** Undoing keeps the state consistent, whatever the entry on top. */
  lemma UndoConsistent(s: State)
    requires Consistent(s) && s.undoStack != []
    ensures CanUndo(s) && Consistent(UndoStep(s))
  {
    match Top(s).action
    case Add => UndoAddConsistent(s);
    case Solve => UndoSolveConsistent(s);
    case Delete => UndoDeleteConsistent(s);
  }

  /** Undoing an add keeps the state consistent. */
  lemma UndoAddConsistent(s: State)
    requires Consistent(s) && s.undoStack != [] && Top(s).action == Add
    ensures CanUndo(s) && Consistent(UndoStep(s))
  {
    var e := Top(s);
    assert Stores(UndoStep(s)) == Revert(Stores(s), e);
    RevertKeeps(Stores(s), e);
    IndexAfterErase(s.topicMap, s.questionBank, e.id);
    CountsAfterRemove(s.questionBank, s.solvedCountByTopic, ByTopic, e.id);
    CountsAfterRemove(s.questionBank, s.solvedCountByDate, ByDate, e.id);
  }

  /** Undoing a solve keeps the state consistent. */
  lemma UndoSolveConsistent(s: State)
    requires Consistent(s) && s.undoStack != [] && Top(s).action == Solve
    ensures CanUndo(s) && Consistent(UndoStep(s))
  {
    var e := Top(s);
    var id := e.id;
    assert Stores(UndoStep(s)) == Revert(Stores(s), e);
    RevertKeeps(Stores(s), e);
    var q := s.questionBank[id];
    var q' := q.(isSolved := false, solvedDate := "");
    IndexSameTopic(s.topicMap, s.questionBank, id, q');
    CountsAfterUnsolve(s.questionBank, s.solvedCountByTopic, ByTopic, id, q');
    CountsAfterUnsolve(s.questionBank, s.solvedCountByDate, ByDate, id, q');
  }

  /** Undoing a delete keeps the state consistent. */
  lemma UndoDeleteConsistent(s: State)
    requires Consistent(s) && s.undoStack != [] && Top(s).action == Delete
    ensures CanUndo(s) && Consistent(UndoStep(s))
  {
    var e := Top(s);
    var id := e.id;
    assert Stores(UndoStep(s)) == Revert(Stores(s), e);
    RevertKeeps(Stores(s), e);
    var q := s.deletedQuestions[id];
    IndexAfterAppend(s.topicMap, s.questionBank, id, q);
    CountsAfterStore(s.questionBank, s.solvedCountByTopic, ByTopic, id, q);
    CountsAfterStore(s.questionBank, s.solvedCountByDate, ByDate, id, q);
  }

  /** In a consistent state no aggregate holds a negative count. */
  lemma CountersNonNegative(s: State)
    requires Consistent(s)
    ensures forall t :: t in s.solvedCountByTopic ==> s.solvedCountByTopic[t] >= 0
    ensures forall d :: d in s.solvedCountByDate ==> s.solvedCountByDate[d] >= 0
  {
    SolvedCounts.CountsNonNegative(s.questionBank, s.solvedCountByTopic, ByTopic);
    SolvedCounts.CountsNonNegative(s.questionBank, s.solvedCountByDate, ByDate);
  }

  // ---------------------------------------------------------------------------
  // Each undo reverses exactly the step that pushed the entry it pops.

  /** Adding and then undoing gives back the question bank, every topic vector,
      the aggregates, the tombstones and the undo stack; only `questionID` stays
      advanced, so the id is never handed out again. */
  lemma UndoAfterAdd(s: State, title: string, topic: string, difficulty: string, notes: string, platform: string)
    requires Consistent(s)
    ensures CanUndo(AddStep(s, title, topic, difficulty, notes, platform))
    ensures var u := UndoStep(AddStep(s, title, topic, difficulty, notes, platform));
      && u.questionBank == s.questionBank
      && (forall t :: Ids(u.topicMap, t) == Ids(s.topicMap, t))
      && u.solvedCountByTopic == s.solvedCountByTopic
      && u.solvedCountByDate == s.solvedCountByDate
      && u.deletedQuestions == s.deletedQuestions
      && u.undoStack == s.undoStack
      && u.questionID == s.questionID + 1
  {
    var id := s.questionID;
    assert id !in s.questionBank;
    assert OnlyLive(s.topicMap, s.questionBank);
    assert id !in Ids(s.topicMap, topic);
    AddThenErase(s, title, topic, difficulty, notes, platform);
  }

  /** The part of `UndoAfterAdd` that needs only that the new id is unused. */
  lemma AddThenErase(s: State, title: string, topic: string, difficulty: string, notes: string, platform: string)
    requires s.questionID !in s.questionBank && s.questionID !in Ids(s.topicMap, topic)
    ensures CanUndo(AddStep(s, title, topic, difficulty, notes, platform))
    ensures var u := UndoStep(AddStep(s, title, topic, difficulty, notes, platform));
      && u.questionBank == s.questionBank
      && (forall t :: Ids(u.topicMap, t) == Ids(s.topicMap, t))
      && u.solvedCountByTopic == s.solvedCountByTopic
      && u.solvedCountByDate == s.solvedCountByDate
      && u.deletedQuestions == s.deletedQuestions
      && u.undoStack == s.undoStack
      && u.questionID == s.questionID + 1
  {
    var id := s.questionID;
    var s' := AddStep(s, title, topic, difficulty, notes, platform);
    assert Matches(Stores(s'), Top(s'));
    var u := UndoStep(s');
    assert u.questionBank == s.questionBank;
    EraseAppended(Ids(s.topicMap, topic), id);
    forall t ensures Ids(u.topicMap, t) == Ids(s.topicMap, t) {
      if t != topic {
        assert Ids(u.topicMap, t) == Ids(s'.topicMap, t);
      }
    }
    assert (s.undoStack + [UndoEntry(Add, id)])[..|s.undoStack|] == s.undoStack;
  }

  /** Solving and then undoing gives back the question bank (the record is
      unsolved with an empty date again), the index, the tombstones and the undo
      stack, and every aggregate count its old value (a key first created by the
      solve stays behind holding 0). */
  lemma UndoAfterSolve(s: State, id: int, date: string)
    requires Consistent(s)
    requires id in s.questionBank && !s.questionBank[id].isSolved
    ensures CanUndo(SolveStep(s, id, date))
    ensures var u := UndoStep(SolveStep(s, id, date));
      && u.questionBank == s.questionBank
      && u.topicMap == s.topicMap
      && (forall t :: Count(u.solvedCountByTopic, t) == Count(s.solvedCountByTopic, t))
      && (forall d :: Count(u.solvedCountByDate, d) == Count(s.solvedCountByDate, d))
      && u.deletedQuestions == s.deletedQuestions
      && u.undoStack == s.undoStack
      && u.questionID == s.questionID
      && s.questionBank[id].topic in u.solvedCountByTopic
      && date in u.solvedCountByDate
  {
    SolveConsistent(s, id, date);
    UndoSolve(Stores(s), id, date);
    var s' := SolveStep(s, id, date);
    assert Stores(s') == SolveRecord(Stores(s), id, date);
    assert (s.undoStack + [UndoEntry(Solve, id)])[..|s.undoStack|] == s.undoStack;
  }

  /** Deleting and then undoing gives back the question bank, the aggregates,
      the tombstones and the undo stack exactly. The topic vector holds the same
      ids, but the restored id now stands at its end. */
  lemma UndoAfterDelete(s: State, id: int)
    requires Consistent(s)
    requires id in s.questionBank
    ensures CanUndo(DeleteStep(s, id))
    ensures var u := UndoStep(DeleteStep(s, id));
      var topic := s.questionBank[id].topic;
      && u.questionBank == s.questionBank
      && u.solvedCountByTopic == s.solvedCountByTopic
      && u.solvedCountByDate == s.solvedCountByDate
      && u.deletedQuestions == s.deletedQuestions
      && u.undoStack == s.undoStack
      && u.questionID == s.questionID
      && Ids(u.topicMap, topic) == Erase(Ids(s.topicMap, topic), id) + [id]
      && multiset(Ids(u.topicMap, topic)) == multiset(Ids(s.topicMap, topic))
      && (forall t :: t != topic ==> Ids(u.topicMap, t) == Ids(s.topicMap, t))
  {
    UndoDelete(Stores(s), id);
    var q := s.questionBank[id];
    var s' := DeleteStep(s, id);
    assert Stores(s') == DeleteRecord(Stores(s), id);
    assert (s.undoStack + [UndoEntry(Delete, id)])[..|s.undoStack|] == s.undoStack;
    EraseThenAppend(Ids(s.topicMap, q.topic), id);
    if q.isSolved {
      BumpBack(s.questionBank, s.solvedCountByTopic, ByTopic, id);
      BumpBack(s.questionBank, s.solvedCountByDate, ByDate, id);
    }
  }
}
