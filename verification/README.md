# Prep-Tracker: the question catalog and its undo stack

Prep-Tracker is a console program for tracking interview-preparation
questions. The model covers its in-memory core in `Tracker.cpp`:

- `questionBank`, the map from id to question and the primary store;
- `topicMap`, the topic index from topic to a vector of ids;
- the solved counters `solvedCountByTopic` and `solvedCountByDate`;
- `deletedQuestions`, the tombstones kept so a deletion can be undone;
- `undoStack`, a stack of (action, id) pairs;
- `questionID`, the next id to hand out.

The four commands are `addQuestion`, `markSolved`, `deleteQuestionByID` and
`undoLastAction`. The two queries are `searchByTopic` and
`viewQuestionsByDate`. The maps printed by `showSolvedStatsByTopic` and
`showSolvedStatsByDate` are modelled as well.

The project is laid out as follows:

- `tracker.dfy`: class `Tracker.Tracker`. Its fields are the seven globals, with one method per command.
  - Each command's `ensures` ties the new fields to a pure step function of the old ones (`TrackerState.AddStep`, `SolveStep`, `DeleteStep`, `UndoStep`).
  - Each command keeps `Valid()`, the consistency invariant.
  - The queries are loops over the question bank in ascending key order, the order a `std::map` walk takes.
- `tracker_state.dfy`: the state as a value and the step functions.
  - Lemmas show that every step keeps the state consistent.
  - Lemmas show that an undo reverses the step that pushed the entry it pops.
- `undo_log.dfy`: the primary stores (bank and tombstones), what each command does to them, and what each undo does to them. The undo stack is consistent when each entry, from the top down, fits the stores left by reverting the entries above it:
  - an `add` entry's id is live and unsolved;
  - a `solve` entry's id is live and solved;
  - a `delete` entry's id is not live and is held as a tombstone.
- `topic_index.dfy`: the topic vectors.
  - `Erase` is the erase-remove idiom.
  - The predicate `Indexes` says the index agrees with the bank.
- `solved_counts.dfy`: what each counter should hold. That is the number of live solved questions under a topic or date, with a missing key reading as 0.
  - `Bump` is `m[k]++` / `m[k]--` on a `std::map`, which inserts a missing key.
- `title_order.dfy`: the `std::string` order on titles and the sort used by `viewQuestionsByDate`.
- `ordered_keys.dfy`: choosing the least remaining key, which is one step of an in-order map walk.

Each command's update therefore appears three times: in the class method
bodies, in the step functions on the whole state, and in the functions on the
bank and tombstones alone. The copies are kept apart to keep the proofs
cheap. The consistency and round-trip lemmas reason about the small pure
values. The methods' `ensures` connect each method body to its step function,
and the step functions' own `ensures` connect each step to the store
functions.

Three behaviours of the code are kept on purpose:

- `searchByTopic` scans the question bank, not the topic index.
- Counters are decremented but never erased, so keys holding 0 stay in the maps.
- Undoing a delete appends the id at the end of its topic vector, not at its old position.

## Model

| member | source | states |
|---|---|---|
| Tracker.Tracker.constructor | Tracker.cpp:25-31 | The globals start empty with `questionID == 1`. That state is consistent. |
| Tracker.Tracker.AddQuestion | Tracker.cpp:77-107 | The new id is the old `questionID`, which was neither live nor deleted before, and `questionID` goes up by one. The record is stored unsolved with an empty date. Its id is appended to its topic's vector and `(add, id)` is pushed. The counters and tombstones are untouched. Consistency is kept. |
| Tracker.Tracker.MarkSolved | Tracker.cpp:110-139 | An unknown id gives `InvalidId`, and an already-solved id gives `AlreadySolved`. Both leave every field unchanged. A live, unsolved id gives `MarkedSolved`: the question is solved on `date`, each counter goes up by one under the question's topic and under `date`, and `(solve, id)` is pushed. Consistency is kept. |
| Tracker.Tracker.RecordSolve | Tracker.cpp:118-128 | The update part of `markSolved`: the new state is `SolveStep` of the old one. |
| Tracker.Tracker.DeleteQuestionByID | Tracker.cpp:232-261 | An unknown id gives `NoSuchQuestion` and changes nothing. A live id gives `Deleted` and the state becomes `DeleteStep` of the old one. Consistency is kept. |
| Tracker.Tracker.MoveToTombstones | Tracker.cpp:242-257 | The live id leaves the bank and its topic vector. Its record is saved as a tombstone. The counters go down only if it was solved. `(delete, id)` is pushed. |
| Tracker.Tracker.UndoLastAction | Tracker.cpp:264-303 | An empty stack gives `NothingToUndo` and changes nothing. Otherwise exactly the top entry is popped and reversed, and the outcome names its action. `questionID` never goes back. Consistency is kept. |
| Tracker.Tracker.PopAndRevert | Tracker.cpp:270-300 | Given a top entry that fits the stores, the new state is `UndoStep` of the old one, and the entry's action is returned. |
| Tracker.Tracker.SearchByTopic | Tracker.cpp:142-168 | Returns exactly the live questions with the topic, each as stored, in strictly ascending id order. The scan reads the bank, not the index. |
| Tracker.ScanTopic | Tracker.cpp:149-163 | The loop over the bank in key order keeps a question exactly when its topic matches. The result's ids strictly increase. |
| Tracker.Tracker.ViewQuestionsByDate | Tracker.cpp:193-229 | Returns exactly the live questions solved on the date, sorted by title. The printed total (its length) equals the date counter's value for that date. |
| Tracker.ScanDate | Tracker.cpp:199-215 | The loop over the bank collects each question solved on the date once, and the result is sorted by title. The length is the number of such questions. |
| Tracker.Tracker.SolvedStatsByTopic | Tracker.cpp:171-179 | Each entry of the topic counter map is the number of live solved questions with that topic, so it is never negative. A missing topic has none. |
| Tracker.Tracker.SolvedStatsByDate | Tracker.cpp:182-190 | Each entry of the date counter map is the number of live questions solved on that date, so it is never negative. A missing date has none. |
| TrackerState.AddStep | Tracker.cpp:79-102 | On the stores, the step is `AddRecord` of an unsolved record with an empty date under the old `questionID`, and `questionID` goes up by one. The id is appended to its topic's vector, and every other topic is unchanged. Both counters are unchanged, and `(add, id)` is pushed. |
| TrackerState.SolveStep | Tracker.cpp:118-128 | On the stores, the step is `SolveRecord`. Each counter reads one more under the question's topic and under `date`, and is unchanged under every other key. The index and `questionID` are unchanged, and `(solve, id)` is pushed. |
| TrackerState.DeleteStep | Tracker.cpp:242-257 | On the stores, the step is `DeleteRecord`. The id is no longer listed under its topic, and every other topic is unchanged. The counters are untouched when the question was unsolved. `questionID` is unchanged, and `(delete, id)` is pushed. |
| TrackerState.UndoStep | Tracker.cpp:270-300 | On the stores, the step is `Revert` of the top entry. Exactly that entry is popped, and `questionID` is unchanged. Undoing an add leaves both counters untouched. |
| UndoLog.Revert | Tracker.cpp:275-298 | Only the entry's id changes membership. Reverting an add removes it from the bank. Reverting a solve leaves it live, unsolved, with an empty date. Reverting a delete puts the saved record back in the bank and removes the tombstone. |
| SolvedCounts.Bump | Tracker.cpp:126-127 | `m[k] += delta` on a `std::map`: the key is present afterwards and no key is removed. The count under `k` moves by `delta`, and every other count is unchanged. |
| TopicIndex.Ids | Tracker.cpp:101 | Reading `topicMap[topic]`: a listed topic gives its vector, and a missing topic reads as empty. |
| TopicIndex.ReadInsertsNothing | Tracker.cpp:250 | The empty vector `operator[]` inserts for a missing topic changes no topic's ids, so the model need not store it. |
| TitleOrder.TitleLe | Tracker.cpp:214 | The `<` on titles as a lexicographic `<=`: a prefix is at most any extension of it, and only the empty title is at most the empty title. |
| TitleOrder.SortByTitle | Tracker.cpp:213-215 | `std::sort` by title: the result is sorted by title and is a permutation of the input. |
| TitleOrder.InsertSorted | Tracker.cpp:213-215 | Inserting into a title-sorted sequence keeps it sorted. |
| TitleOrder.InsertAdds | Tracker.cpp:213-215 | Inserting adds exactly the new question to the multiset of elements. |
| TitleOrder.TitleLeTotal | Tracker.cpp:214 | Any two titles are comparable under the string order. |
| TitleOrder.TitleLeTrans | Tracker.cpp:214 | The string order on titles is transitive. |
| OrderedKeys.Least | Tracker.cpp:149 | Each step of a `std::map` walk visits the least key not yet visited. |
| OrderedKeys.LeastExists | Tracker.cpp:149 | A non-empty finite set of ids has a least element. |
| TopicIndex.Erase | Tracker.cpp:250-252 | The erase-remove idiom keeps exactly the ids other than `x` and never lengthens the vector. |
| TopicIndex.EraseConcat | Tracker.cpp:250-252 | Erasing works piecewise, so the remaining ids keep their relative order. |
| TopicIndex.EraseMultiset | Tracker.cpp:250-252 | Erasing removes every copy of the id and nothing else. |
| TopicIndex.EraseAbsent | Tracker.cpp:277-279 | Erasing an id the vector does not hold changes nothing. |
| TopicIndex.EraseAppended | Tracker.cpp:277-279 | Erasing an id just appended to a vector that lacked it gives the vector back. |
| TopicIndex.EraseNoDup | Tracker.cpp:250-252 | Erasing keeps a vector free of duplicates. |
| TopicIndex.NoDupOnce | Tracker.cpp:26 | In a vector without duplicates every id occurs at most once. |
| TopicIndex.EraseThenAppend | Tracker.cpp:293 | Erasing the single copy of an id and appending it again gives the same ids. Only the position changes. |
| TopicIndex.ListedOnce | Tracker.cpp:26 | In an index that agrees with the bank, an id is listed under topic T exactly once if it is live with topic T. Otherwise it is not listed at all. |
| TopicIndex.IndexAfterAppend | Tracker.cpp:100-101 | Storing a question under a fresh id and appending the id to its topic vector keeps the index in agreement with the bank. |
| TopicIndex.IndexAfterErase | Tracker.cpp:250-255 | Removing a live question and erasing its id from its topic vector keeps the index in agreement with the bank. |
| TopicIndex.IndexSameTopic | Tracker.cpp:285-286 | Changing a live question without changing its topic keeps the index in agreement with the bank. |
| SolvedCounts.SolvedAfterRemove | Tracker.cpp:245-255 | Removing a question lowers the solved count under a key by its own share, which is 1 if it was solved under that key and 0 otherwise. |
| SolvedCounts.SolvedAfterStore | Tracker.cpp:292-296 | Storing a question replaces the old record's share under a key by the new record's share. |
| SolvedCounts.CountsNonNegative | Tracker.cpp:27-28 | Counters that agree with the bank are never negative. |
| SolvedCounts.CountsAgreeEmpty | Tracker.cpp:27-28 | Empty counters agree with an empty bank. |
| SolvedCounts.CountsAfterStore | Tracker.cpp:294-296 | Storing a question where no solved one was, and adding 1 under its key if it is solved, keeps the counters in agreement. |
| SolvedCounts.CountsAfterRemove | Tracker.cpp:245-248 | Removing a question, and subtracting 1 under its key if it was solved, keeps the counters in agreement. |
| SolvedCounts.CountsAfterUnsolve | Tracker.cpp:283-288 | Unsolving a solved question and subtracting 1 under the key it was counted under keeps the counters in agreement. |
| SolvedCounts.BumpBack | Tracker.cpp:294-296 | For a solved question, a decrement followed by an increment under its key gives the counter map back exactly. |
| UndoLog.UndoAdd | Tracker.cpp:275-280 | After an add, the entry fits the stores, and reverting it gives back exactly the bank and tombstones from before. |
| UndoLog.UndoSolve | Tracker.cpp:282-286 | After a solve, the entry fits the stores, and reverting it gives back exactly the record from before (unsolved, empty date). |
| UndoLog.UndoDelete | Tracker.cpp:290-298 | After a delete, the entry fits the stores, and reverting it restores exactly the saved record and removes the tombstone. |
| UndoLog.RevertKeeps | Tracker.cpp:275-300 | Reverting an entry that fits keeps records under their own ids and keeps the bank and tombstones disjoint. |
| UndoLog.HistoryPush | Tracker.cpp:30 | A push whose undo gives back the previous stores extends the stack's history. |
| TrackerState.InitialConsistent | Tracker.cpp:25-31 | The initial globals are consistent. |
| TrackerState.AddConsistent | Tracker.cpp:79-102 | Adding keeps the state consistent: the index, both counters, the id bound and the undo history. The new id is neither live nor deleted. |
| TrackerState.SolveConsistent | Tracker.cpp:115-128 | Solving a live, unsolved question keeps the state consistent. |
| TrackerState.DeleteConsistent | Tracker.cpp:237-257 | Deleting a live question keeps the state consistent. |
| TrackerState.UndoConsistent | Tracker.cpp:264-300 | In a consistent state with a non-empty stack, the top entry fits the stores, and undoing it keeps the state consistent. |
| TrackerState.UndoAddConsistent | Tracker.cpp:275-281 | Undoing an add keeps the state consistent. |
| TrackerState.UndoSolveConsistent | Tracker.cpp:282-289 | Undoing a solve keeps the state consistent. |
| TrackerState.UndoDeleteConsistent | Tracker.cpp:290-299 | Undoing a delete keeps the state consistent. |
| TrackerState.CountersNonNegative | Tracker.cpp:27-28 | In a consistent state no counter entry is negative. |
| TrackerState.UndoAfterAdd | Tracker.cpp:275-281 | Add then undo gives back the bank, every topic vector, both counters, the tombstones and the stack. `questionID` stays advanced, so the id is never reused. |
| TrackerState.AddThenErase | Tracker.cpp:275-281 | The same round trip as `UndoAfterAdd`, given only that the new id is not yet live and not yet listed. |
| TrackerState.UndoAfterSolve | Tracker.cpp:282-289 | Solve then undo gives back the bank, index, tombstones, stack and `questionID`, and every counter value. The keys the solve touched stay in both maps, possibly holding 0. |
| TrackerState.UndoAfterDelete | Tracker.cpp:290-299 | Delete then undo gives back the bank, both counters, the tombstones, the stack and `questionID` exactly. The topic vector holds the same ids, with the id moved to the end. Other topics are unchanged. |

## Left out

- Console input and output, the menu and `main` (Tracker.cpp:61-74, 306-326). Inputs are parameters and outcomes are datatype values. The printed text is not modelled.
- `getCurrentDate` (Tracker.cpp:34-40) reads the host clock. `MarkSolved` takes the already-resolved solve date as a parameter, so the blank-answer default is not modelled.
- `saveDataToFile` (Tracker.cpp:43-58) writes a CSV file. The program calls it after an add (Tracker.cpp:104), a successful solve (130), a successful delete (258), an undo that popped an entry (302) and menu choice 9 (321). It is not called after the queries, a rejected solve or delete, or an empty undo. File I/O is not modelled.
- TitleOrder.SortByTitle: promises only a title-sorted permutation. `std::sort` is unstable and leaves the order of equal titles unspecified, and the insertion sort used here fixes one particular order.
- TitleOrder.TitleLe: titles are modelled as sequences of Unicode characters, not as the bytes a `std::string` holds. For UTF-8 text, the byte order `std::string` compares by (as `unsigned char`) is the same as code-point order, which is the order used here; invalid UTF-8 byte strings are not modelled.
- Tracker.Tracker.UndoLastAction: `operator[]` on a missing key in the undo paths (Tracker.cpp:276, 283, 291) would insert a default record. The consistency invariant rules that out, so that path is not modelled.
- Tracker.Tracker.AddQuestion: `questionID` is a 32-bit `int` in the source. The model uses unbounded integers and does not model overflow after 2^31 - 1 additions.
- The stats commands' loops only print. Their maps are returned as they are, and `std::map`'s key order is the map's own.
