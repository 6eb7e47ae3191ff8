/**
 The solved aggregates `solvedCountByTopic` and `solvedCountByDate`, and the
 numbers they are meant to hold.
 */
module SolvedCounts {
  import opened Records

  /** Which aggregate: counts keyed by topic, or counts keyed by solve date. */
  datatype Grouping = ByTopic | ByDate

  function Key(q: Question, g: Grouping): string
  {
    match g
    case ByTopic => q.topic
    case ByDate => q.solvedDate
  }

  /** `q` is a solved question that the aggregate `g` counts under key `k`. */
  predicate CountedUnder(q: Question, g: Grouping, k: string)
  {
    q.isSolved && Key(q, g) == k
  }

  /** The live questions counted under `k`. */
  ghost function SolvedIds(bank: map<int, Question>, g: Grouping, k: string): set<int>
  {
    set id | id in bank && CountedUnder(bank[id], g, k)
  }

  /** How many live solved questions the aggregate `g` should show under `k`. */
  ghost function Solved(bank: map<int, Question>, g: Grouping, k: string): nat
  {
    |SolvedIds(bank, g, k)|
  }

  /** What a counter map holds for `k`; a missing key reads as 0, as `m[k]` does. */
  function Count(counter: map<string, int>, k: string): int
  {
    if k in counter then counter[k] else 0
  }

  /** `counter[k] += delta` on a `std::map<string, int>`, inserting a 0 first when `k` is missing. */
  function Bump(counter: map<string, int>, k: string, delta: int): (r: map<string, int>)
    ensures r.Keys == counter.Keys + {k}
    ensures Count(r, k) == Count(counter, k) + delta
    ensures forall j :: j != k ==> Count(r, j) == Count(counter, j)
  {
    counter[k := Count(counter, k) + delta]
  }

  /** 1 when the question at `id` is counted under `k`, else 0. */
  ghost function Share(bank: map<int, Question>, id: int, g: Grouping, k: string): nat
  {
    if id in bank && CountedUnder(bank[id], g, k) then 1 else 0
  }

  /** Removing a question lowers the count under `k` by its own share, and only by that. */
  lemma SolvedAfterRemove(bank: map<int, Question>, id: int, g: Grouping, k: string)
    ensures Solved(bank - {id}, g, k) == Solved(bank, g, k) - Share(bank, id, g, k)
  {
    var s, s' := SolvedIds(bank, g, k), SolvedIds(bank - {id}, g, k);
    if id in s {
      forall x ensures x in s <==> x in s' + {id} {
        if x != id {
          assert x in s <==> x in s';
        }
      }
      assert s == s' + {id};
      assert id !in s';
    } else {
      forall x ensures x in s <==> x in s' {
        if x != id {
          assert x in s <==> x in s';
        }
      }
      assert s == s';
    }
  }

  /** Storing `q` at `id` replaces the share of the old question at `id` by that of `q`. */
  lemma SolvedAfterStore(bank: map<int, Question>, id: int, q: Question, g: Grouping, k: string)
    ensures Solved(bank[id := q], g, k) ==
            Solved(bank, g, k) - Share(bank, id, g, k) + (if CountedUnder(q, g, k) then 1 else 0)
  {
    SolvedAfterRemove(bank, id, g, k);
    var s, s' := SolvedIds(bank - {id}, g, k), SolvedIds(bank[id := q], g, k);
    if CountedUnder(q, g, k) {
      assert s' == s + {id};
    } else {
      assert s' == s;
    }
  }

  /** Every key of the counter map holds exactly the number of live solved questions
      counted under it, and a missing key stands for none. */
  ghost predicate CountsAgree(bank: map<int, Question>, counter: map<string, int>, g: Grouping)
  {
    forall k :: Count(counter, k) == Solved(bank, g, k)
  }

  /** Counts that agree with the bank are never negative. */
  lemma CountsNonNegative(bank: map<int, Question>, counter: map<string, int>, g: Grouping)
    requires CountsAgree(bank, counter, g)
    ensures forall k :: k in counter ==> counter[k] >= 0
  {
    forall k | k in counter ensures counter[k] >= 0 {
      assert Count(counter, k) == Solved(bank, g, k);
    }
  }

  /** An empty bank with empty counters agrees. */
  lemma CountsAgreeEmpty(g: Grouping)
    ensures CountsAgree(map[], map[], g)
  {
    forall k ensures Count(map[], k) == Solved(map[], g, k) {
      assert SolvedIds(map[], g, k) == {};
    }
  }

  /** Storing `q` where no solved question was counted, then adding 1 under
      `q`'s key when `q` is solved, keeps the counts in agreement. */
  lemma CountsAfterStore(bank: map<int, Question>, counter: map<string, int>, g: Grouping, id: int, q: Question)
    requires CountsAgree(bank, counter, g)
    requires id !in bank || !bank[id].isSolved
    ensures CountsAgree(bank[id := q], if q.isSolved then Bump(counter, Key(q, g), 1) else counter, g)
  {
    var counter' := if q.isSolved then Bump(counter, Key(q, g), 1) else counter;
    forall k ensures Count(counter', k) == Solved(bank[id := q], g, k) {
      SolvedAfterStore(bank, id, q, g, k);
      assert Share(bank, id, g, k) == 0;
    }
  }

  /** Removing a question, then subtracting 1 under its key when it was solved,
      keeps the counts in agreement. */
  lemma CountsAfterRemove(bank: map<int, Question>, counter: map<string, int>, g: Grouping, id: int)
    requires CountsAgree(bank, counter, g)
    requires id in bank
    ensures CountsAgree(bank - {id}, if bank[id].isSolved then Bump(counter, Key(bank[id], g), -1) else counter, g)
  {
    var q := bank[id];
    var counter' := if q.isSolved then Bump(counter, Key(q, g), -1) else counter;
    forall k ensures Count(counter', k) == Solved(bank - {id}, g, k) {
      SolvedAfterRemove(bank, id, g, k);
    }
  }

  /** Turning a solved question back into an unsolved one, then subtracting 1
      under the key it was counted under, keeps the counts in agreement. */
  lemma CountsAfterUnsolve(bank: map<int, Question>, counter: map<string, int>, g: Grouping, id: int, q: Question)
    requires CountsAgree(bank, counter, g)
    requires id in bank && bank[id].isSolved && !q.isSolved
    ensures CountsAgree(bank[id := q], Bump(counter, Key(bank[id], g), -1), g)
  {
    CountsAfterRemove(bank, counter, g, id);
    CountsAfterStore(bank - {id}, Bump(counter, Key(bank[id], g), -1), g, id, q);
    assert (bank - {id})[id := q] == bank[id := q];
  }

  /** Taking 1 off under a solved question's key and adding it back restores the
      counter map exactly: the key is there, since it counts that question. */
  lemma BumpBack(bank: map<int, Question>, counter: map<string, int>, g: Grouping, id: int)
    requires CountsAgree(bank, counter, g)
    requires id in bank && bank[id].isSolved
    ensures Bump(Bump(counter, Key(bank[id], g), -1), Key(bank[id], g), 1) == counter
  {
    var k := Key(bank[id], g);
    assert id in SolvedIds(bank, g, k);
    assert Count(counter, k) == Solved(bank, g, k) >= 1;
  }
}
