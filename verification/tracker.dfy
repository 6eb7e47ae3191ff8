/**
 The tracker itself: the seven globals of the program as the fields of one
 object, one method per command, and the read-only queries.
 */
module Tracker {
  import opened Records
  import opened SolvedCounts
  import opened TitleOrder
  import opened TrackerState
  import OrderedKeys

  /** What `markSolved` reports. */
  datatype SolveOutcome = MarkedSolved | AlreadySolved | InvalidId

  /** What `deleteQuestionByID` reports. */
  datatype DeleteOutcome = Deleted | NoSuchQuestion

  /** What `undoLastAction` reports. */
  datatype UndoOutcome = NothingToUndo | UndidAdd | UndidSolve | UndidDelete

  class Tracker {
    /** id -> question: the primary store. */
    var questionBank: map<int, Question>
    /** topic -> ids listed under it, in the order they were appended. */
    var topicMap: map<string, seq<int>>
    /** topic -> number of solved questions. */
    var solvedCountByTopic: map<string, int>
    /** solve date -> number of questions solved on it. */
    var solvedCountByDate: map<string, int>
    /** id -> a deleted question, kept so that its deletion can be undone. */
    var deletedQuestions: map<int, Question>
    /** The undo stack; its top is the last element. */
    var undoStack: seq<UndoEntry>
    /** The id the next added question gets. */
    var questionID: int

    /** The fields as one value. */
    ghost function State(): TrackerState.State
      reads this
    {
      TrackerState.State(questionBank, topicMap, solvedCountByTopic, solvedCountByDate,
                         deletedQuestions, undoStack, questionID)
    }

    ghost predicate Valid()
      reads this
    {
      Consistent(State())
    }

    /** The globals at program start. */
    constructor ()
      ensures Valid()
      ensures State() == Initial()
    {
      questionBank := map[];
      topicMap := map[];
      solvedCountByTopic := map[];
      solvedCountByDate := map[];
      deletedQuestions := map[];
      undoStack := [];
      questionID := 1;
      new;
      InitialConsistent();
    }

    /** `addQuestion`: the answers to the prompts are the parameters; the new id is returned. */
    method AddQuestion(title: string, topic: string, difficulty: string, notes: string, platform: string)
      returns (id: int)
      requires Valid()
      modifies this
      ensures Valid()
      ensures id == old(questionID) && id !in old(questionBank) && id !in old(deletedQuestions)
      ensures State() == AddStep(old(State()), title, topic, difficulty, notes, platform)
    {
      AddConsistent(State(), title, topic, difficulty, notes, platform);
      id := questionID;
      questionID := questionID + 1;
      var q := Question(id, title, topic, difficulty, notes, platform, false, "");
      questionBank := questionBank[id := q];
      topicMap := topicMap[topic := TopicIndex.Ids(topicMap, topic) + [id]];
      undoStack := undoStack + [UndoEntry(Add, id)];
    }

    /** `markSolved`, with the solve date already resolved (a blank answer has
        become today's date). Only a live, unsolved id changes anything. */
    method MarkSolved(id: int, date: string) returns (outcome: SolveOutcome)
      requires Valid()
      modifies this
      ensures Valid()
      ensures outcome == InvalidId <==> id !in old(questionBank)
      ensures outcome == AlreadySolved <==> id in old(questionBank) && old(questionBank[id]).isSolved
      ensures outcome != MarkedSolved ==> unchanged(this)
      ensures outcome == MarkedSolved ==> State() == SolveStep(old(State()), id, date)
    {
      if id !in questionBank {
        return InvalidId;
      }
      if questionBank[id].isSolved {
        return AlreadySolved;
      }
      SolveConsistent(State(), id, date);
      RecordSolve(id, date);
      outcome := MarkedSolved;
    }

    /** The body of `markSolved` past its checks: mark the question solved on
        `date`, count it under its topic and under the date, and push the entry. */
    method RecordSolve(id: int, date: string)
      requires id in questionBank
      modifies this
      ensures State() == SolveStep(old(State()), id, date)
    {
      var q := questionBank[id];
      questionBank := questionBank[id := q.(isSolved := true, solvedDate := date)];
      solvedCountByTopic := Bump(solvedCountByTopic, q.topic, 1);
      solvedCountByDate := Bump(solvedCountByDate, date, 1);
      undoStack := undoStack + [UndoEntry(Solve, id)];
    }

    /** `deleteQuestionByID`: only a live id changes anything. */
    method DeleteQuestionByID(id: int) returns (outcome: DeleteOutcome)
      requires Valid()
      modifies this
      ensures Valid()
      ensures outcome == NoSuchQuestion <==> id !in old(questionBank)
      ensures outcome == NoSuchQuestion ==> unchanged(this)
      ensures outcome == Deleted ==> State() == DeleteStep(old(State()), id)
    {
      if id !in questionBank {
        return NoSuchQuestion;
      }
      DeleteConsistent(State(), id);
      MoveToTombstones(id);
      outcome := Deleted;
    }

    /** The body of `deleteQuestionByID` past its unknown-id check. */
    method MoveToTombstones(id: int)
      requires id in questionBank
      modifies this
      ensures State() == DeleteStep(old(State()), id)
    {
      var q := questionBank[id];
      var topic := q.topic;
      if q.isSolved {
        solvedCountByTopic := Bump(solvedCountByTopic, topic, -1);
        solvedCountByDate := Bump(solvedCountByDate, q.solvedDate, -1);
      }
      topicMap := topicMap[topic := TopicIndex.Erase(TopicIndex.Ids(topicMap, topic), id)];
      deletedQuestions := deletedQuestions[id := q];
      questionBank := questionBank - {id};
      undoStack := undoStack + [UndoEntry(Delete, id)];
    }

    /** `undoLastAction`: an empty stack changes nothing; otherwise exactly the
        top entry is popped and its action reversed. */
    method UndoLastAction() returns (outcome: UndoOutcome)
      requires Valid()
      modifies this
      ensures Valid()
      ensures outcome == NothingToUndo <==> old(undoStack) == []
      ensures outcome == NothingToUndo ==> unchanged(this)
      ensures outcome != NothingToUndo ==>
        && CanUndo(old(State()))
        && State() == UndoStep(old(State()))
        && questionID == old(questionID)
        && outcome == match Top(old(State())).action
                      case Add => UndidAdd
                      case Solve => UndidSolve
                      case Delete => UndidDelete
    {
      if undoStack == [] {
        return NothingToUndo;
      }
      UndoConsistent(State());
      var action := PopAndRevert();
      outcome := match action
                 case Add => UndidAdd
                 case Solve => UndidSolve
                 case Delete => UndidDelete;
    }

    /** The body of `undoLastAction` past its empty-stack check: pop the top
        entry and reverse its action. The records it reads are there, as the
        stack's history guarantees. */
    method PopAndRevert() returns (action: Action)
      requires CanUndo(State())
      modifies this
      ensures State() == UndoStep(old(State()))
      ensures action == Top(old(State())).action
    {
      var top := undoStack[|undoStack| - 1];
      var id := top.id;
      action := top.action;
      undoStack := undoStack[..|undoStack| - 1];
      match top.action
      case Add =>
        var topic := questionBank[id].topic;
        topicMap := topicMap[topic := TopicIndex.Erase(TopicIndex.Ids(topicMap, topic), id)];
        questionBank := questionBank - {id};
      case Solve =>
        var topic := questionBank[id].topic;
        var date := questionBank[id].solvedDate;
        questionBank := questionBank[id := questionBank[id].(isSolved := false, solvedDate := "")];
        solvedCountByTopic := Bump(solvedCountByTopic, topic, -1);
        solvedCountByDate := Bump(solvedCountByDate, date, -1);
      case Delete =>
        var q := deletedQuestions[id];
        questionBank := questionBank[id := q];
        topicMap := topicMap[q.topic := TopicIndex.Ids(topicMap, q.topic) + [id]];
        if q.isSolved {
          solvedCountByTopic := Bump(solvedCountByTopic, q.topic, 1);
          solvedCountByDate := Bump(solvedCountByDate, q.solvedDate, 1);
        }
        deletedQuestions := deletedQuestions - {id};
    }

    /** `searchByTopic`: scans the question bank, not the topic index. */
    method SearchByTopic(topic: string) returns (found: seq<Question>)
      requires Valid()
      ensures forall i :: 0 <= i < |found| ==>
        found[i].id in questionBank && questionBank[found[i].id] == found[i] && found[i].topic == topic
      ensures forall id :: id in questionBank && questionBank[id].topic == topic ==> questionBank[id] in found
      ensures forall i, j :: 0 <= i < j < |found| ==> found[i].id < found[j].id
    {
      found := ScanTopic(questionBank, topic);
    }

    /** `viewQuestionsByDate`: the questions solved on `date`, sorted by title;
        their number, the total the command prints, is what the date aggregate
        holds for `date`. */
    method ViewQuestionsByDate(date: string) returns (solved: seq<Question>)
      requires Valid()
      ensures forall q :: q in solved ==>
        q.id in questionBank && questionBank[q.id] == q && q.isSolved && q.solvedDate == date
      ensures forall id :: id in questionBank && questionBank[id].isSolved && questionBank[id].solvedDate == date ==>
        questionBank[id] in solved
      ensures |solved| == Solved(questionBank, ByDate, date) == Count(solvedCountByDate, date)
      ensures SortedByTitle(solved)
    {
      solved := ScanDate(questionBank, date);
    }

    /** The map `showSolvedStatsByTopic` prints, in key order: each entry is the
        number of live solved questions with that topic, so never negative; an
        entry may hold 0, since keys are never erased. */
    function SolvedStatsByTopic(): (stats: map<string, int>)
      reads this
      requires Valid()
      ensures forall t :: t in stats ==> stats[t] == Solved(questionBank, ByTopic, t) && stats[t] >= 0
      ensures forall t :: t !in stats ==> Solved(questionBank, ByTopic, t) == 0
    {
      assert CountsAgree(questionBank, solvedCountByTopic, ByTopic);
      solvedCountByTopic
    }

    /** The map `showSolvedStatsByDate` prints: each entry is the number of live
        questions solved on that date. */
    function SolvedStatsByDate(): (stats: map<string, int>)
      reads this
      requires Valid()
      ensures forall d :: d in stats ==> stats[d] == Solved(questionBank, ByDate, d) && stats[d] >= 0
      ensures forall d :: d !in stats ==> Solved(questionBank, ByDate, d) == 0
    {
      assert CountsAgree(questionBank, solvedCountByDate, ByDate);
      solvedCountByDate
    }
  }

  /** The loop of `searchByTopic`: walks the bank in ascending id order and keeps
      exactly the questions with the topic. */
  method ScanTopic(bank: map<int, Question>, topic: string) returns (found: seq<Question>)
    requires KeyedById(bank)
    ensures forall i :: 0 <= i < |found| ==>
      found[i].id in bank && bank[found[i].id] == found[i] && found[i].topic == topic
    ensures forall id :: id in bank && bank[id].topic == topic ==> bank[id] in found
    ensures forall i, j :: 0 <= i < j < |found| ==> found[i].id < found[j].id
  {
    found := [];
    var rest := bank.Keys;
    while rest != {}
      invariant rest <= bank.Keys
      invariant forall i :: 0 <= i < |found| ==>
        found[i].id in bank && bank[found[i].id] == found[i] && found[i].topic == topic
      invariant forall id :: id in bank && id !in rest && bank[id].topic == topic ==> bank[id] in found
      invariant forall i, j :: 0 <= i < j < |found| ==> found[i].id < found[j].id
      invariant forall i, r :: 0 <= i < |found| && r in rest ==> found[i].id < r
      decreases |rest|
    {
      var id := OrderedKeys.Least(rest);
      rest := rest - {id};
      var q := bank[id];
      if q.topic == topic {
        found := found + [q];
      }
    }
  }

  /** The loop and the sort of `viewQuestionsByDate`: exactly the questions
      solved on `date`, each once, sorted by title. */
  method ScanDate(bank: map<int, Question>, date: string) returns (solved: seq<Question>)
    requires KeyedById(bank)
    ensures forall q :: q in solved ==> q.id in bank && bank[q.id] == q && q.isSolved && q.solvedDate == date
    ensures forall id :: id in bank && bank[id].isSolved && bank[id].solvedDate == date ==> bank[id] in solved
    ensures |solved| == Solved(bank, ByDate, date)
    ensures SortedByTitle(solved)
  {
    var onDate: seq<Question> := [];
    var rest := bank.Keys;
    ghost var seen: set<int> := {};
    while rest != {}
      invariant rest <= bank.Keys
      invariant seen == set id | id in bank && id !in rest && CountedUnder(bank[id], ByDate, date)
      invariant |onDate| == |seen|
      invariant forall q :: q in onDate ==>
        q.id in bank && q.id !in rest && bank[q.id] == q && q.isSolved && q.solvedDate == date
      invariant forall id :: id in seen ==> bank[id] in onDate
      decreases |rest|
    {
      var id := OrderedKeys.Least(rest);
      rest := rest - {id};
      var q := bank[id];
      if q.isSolved && q.solvedDate == date {
        assert id !in seen;
        onDate := onDate + [q];
        seen := seen + {id};
      }
    }
    assert seen == SolvedIds(bank, ByDate, date);
    solved := SortByTitle(onDate);
    assert |solved| == |multiset(solved)| == |multiset(onDate)| == |onDate|;
    forall q | q in solved ensures q in onDate {
      assert q in multiset(solved);
    }
    forall id | id in seen ensures bank[id] in solved {
      assert bank[id] in multiset(onDate);
    }
  }
}
