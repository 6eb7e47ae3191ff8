/**
 The topic index `topicMap`: topic -> vector of question ids, kept in step
 with the question bank.
 */
module TopicIndex {
  import opened Records

  /** The ids listed under `topic`. A topic without a vector reads as empty,
      as `topicMap[topic]` does (it inserts an empty vector and returns it). */
  function Ids(index: map<string, seq<int>>, topic: string): (r: seq<int>)
    ensures topic in index ==> r == index[topic]
    ensures topic !in index ==> r == []
  {
    if topic in index then index[topic] else []
  }

  /** Reading a topic through `operator[]` inserts an empty vector when the
      topic is missing; that insertion changes no topic's ids. */
  lemma ReadInsertsNothing(index: map<string, seq<int>>, topic: string)
    ensures forall t :: Ids(index[topic := Ids(index, topic)], t) == Ids(index, t)
  {
    forall t ensures Ids(index[topic := Ids(index, topic)], t) == Ids(index, t) {
      if t != topic {
        assert Ids(index[topic := Ids(index, topic)], t) == Ids(index, t);
      }
    }
  }

  ghost predicate NoDup(s: seq<int>)
  {
    forall i, j :: 0 <= i < j < |s| ==> s[i] != s[j]
  }

  /** The erase-remove idiom on a topic vector: drop every occurrence of `x`. */
  function Erase(s: seq<int>, x: int): (r: seq<int>)
    ensures |r| <= |s|
    ensures forall y :: y in r <==> y in s && y != x
  {
    if s == [] then []
    else if s[0] == x then Erase(s[1..], x)
    else [s[0]] + Erase(s[1..], x)
  }

  /** Erasing works piecewise, so the ids that stay keep their relative order. */
  lemma {:induction false} EraseConcat(a: seq<int>, b: seq<int>, x: int)
    ensures Erase(a + b, x) == Erase(a, x) + Erase(b, x)
  {
    if a != [] {
      assert (a + b)[1..] == a[1..] + b;
      EraseConcat(a[1..], b, x);
    } else {
      assert a + b == b;
    }
  }

  /** Erasing removes all copies of `x` and nothing else. */
  lemma {:induction false} EraseMultiset(s: seq<int>, x: int)
    ensures multiset(Erase(s, x)) == multiset(s)[x := 0]
  {
    if s != [] {
      EraseMultiset(s[1..], x);
      assert s == [s[0]] + s[1..];
      var m, m' := multiset(s), multiset(Erase(s, x));
      if s[0] == x {
        assert m' == multiset(s[1..])[x := 0];
        forall y ensures m'[y] == m[x := 0][y] {
          if y != x { assert m[y] == multiset(s[1..])[y]; }
        }
      } else {
        assert Erase(s, x) == [s[0]] + Erase(s[1..], x);
        assert m' == multiset{s[0]} + multiset(s[1..])[x := 0];
        forall y ensures m'[y] == m[x := 0][y] {
          if y != x { assert m[y] == multiset{s[0]}[y] + multiset(s[1..])[y]; }
        }
      }
    }
  }

  /** Erasing an id that is not in the vector leaves the vector as it was. */
  lemma {:induction false} EraseAbsent(s: seq<int>, x: int)
    requires x !in s
    ensures Erase(s, x) == s
  {
    if s != [] {
      EraseAbsent(s[1..], x);
      assert s == [s[0]] + s[1..];
    }
  }

  /** Erasing an id just appended to a vector that did not hold it gives back the vector. */
  lemma EraseAppended(s: seq<int>, x: int)
    requires x !in s
    ensures Erase(s + [x], x) == s
  {
    EraseConcat(s, [x], x);
    EraseAbsent(s, x);
    assert Erase([x], x) == Erase([], x);
  }

  /** A vector without duplicates stays without duplicates after an erase. */
  lemma {:induction false} EraseNoDup(s: seq<int>, x: int)
    requires NoDup(s)
    ensures NoDup(Erase(s, x))
  {
    if s != [] {
      assert NoDup(s[1..]);
      EraseNoDup(s[1..], x);
      var rest := Erase(s[1..], x);
      assert s[0] !in s[1..];
      assert s[0] !in rest;
      if s[0] != x {
        var r := [s[0]] + rest;
        forall i, j | 0 <= i < j < |r| ensures r[i] != r[j] {
          if i == 0 {
            assert r[j] == rest[j - 1];
          }
        }
      }
    }
  }

  /** In a vector without duplicates every id occurs at most once. */
  lemma {:induction false} NoDupOnce(s: seq<int>, x: int)
    requires NoDup(s)
    ensures multiset(s)[x] == if x in s then 1 else 0
  {
    if s != [] {
      assert NoDup(s[1..]);
      NoDupOnce(s[1..], x);
      assert s == [s[0]] + s[1..];
      assert s[0] !in s[1..];
    }
  }

  /** Erasing the one copy of `x` and appending `x` again moves `x` to the end:
      the vector holds the same ids as before. */
  lemma EraseThenAppend(s: seq<int>, x: int)
    requires NoDup(s) && x in s
    ensures multiset(Erase(s, x) + [x]) == multiset(s)
  {
    EraseMultiset(s, x);
    NoDupOnce(s, x);
  }

  /** The index agrees with the bank: no topic vector repeats an id, every id
      listed under topic T is a live question with topic T, and every live
      question is listed under its own topic. So an id is listed under T
      exactly once iff it is live with topic T. */
  ghost predicate Indexes(index: map<string, seq<int>>, bank: map<int, Question>)
  {
    NoRepeats(index) && OnlyLive(index, bank) && AllListed(index, bank)
  }

  ghost predicate NoRepeats(index: map<string, seq<int>>)
  {
    forall t :: NoDup(Ids(index, t))
  }

  ghost predicate OnlyLive(index: map<string, seq<int>>, bank: map<int, Question>)
  {
    forall t, id :: id in Ids(index, t) ==> id in bank && bank[id].topic == t
  }

  ghost predicate AllListed(index: map<string, seq<int>>, bank: map<int, Question>)
  {
    forall id :: id in bank ==> id in Ids(index, bank[id].topic)
  }

  /** Under an index in step with the bank, an id is listed under topic `t`
      exactly once when it is live with topic `t`, and not at all otherwise. */
  lemma ListedOnce(index: map<string, seq<int>>, bank: map<int, Question>, t: string, id: int)
    requires Indexes(index, bank)
    ensures multiset(Ids(index, t))[id] == if id in bank && bank[id].topic == t then 1 else 0
  {
    assert NoDup(Ids(index, t));
    NoDupOnce(Ids(index, t), id);
    if id in bank && bank[id].topic == t {
      assert id in Ids(index, bank[id].topic);
    }
  }

  /** Storing a new question and appending its id to its topic's vector keeps the
      index in step with the bank. */
  lemma IndexAfterAppend(index: map<string, seq<int>>, bank: map<int, Question>, id: int, q: Question)
    requires Indexes(index, bank)
    requires id !in bank
    ensures Indexes(index[q.topic := Ids(index, q.topic) + [id]], bank[id := q])
  {
    var index' := index[q.topic := Ids(index, q.topic) + [id]];
    var bank' := bank[id := q];
    AppendNoRepeats(index, bank, id, q);
    AppendOnlyLive(index, bank, id, q);
    AppendAllListed(index, bank, id, q);
    assert NoRepeats(index') && OnlyLive(index', bank') && AllListed(index', bank');
  }

  /** Appending an id no vector lists keeps every vector free of repeats. */
  lemma AppendNoRepeats(index: map<string, seq<int>>, bank: map<int, Question>, id: int, q: Question)
    requires NoRepeats(index) && OnlyLive(index, bank)
    requires id !in bank
    ensures NoRepeats(index[q.topic := Ids(index, q.topic) + [id]])
  {
    var index' := index[q.topic := Ids(index, q.topic) + [id]];
    forall t ensures NoDup(Ids(index', t)) {
      if t == q.topic {
        var s := Ids(index, t);
        assert id !in s;
        assert NoDup(s);
        var s' := s + [id];
        forall i, j | 0 <= i < j < |s'| ensures s'[i] != s'[j] {
          if j == |s| { assert s'[i] in s; }
        }
      } else {
        assert Ids(index', t) == Ids(index, t);
      }
    }
  }

  /** After the append every listed id is live under its topic. */
  lemma AppendOnlyLive(index: map<string, seq<int>>, bank: map<int, Question>, id: int, q: Question)
    requires OnlyLive(index, bank)
    requires id !in bank
    ensures OnlyLive(index[q.topic := Ids(index, q.topic) + [id]], bank[id := q])
  {
    var index' := index[q.topic := Ids(index, q.topic) + [id]];
    var bank' := bank[id := q];
    forall t, x | x in Ids(index', t) ensures x in bank' && bank'[x].topic == t {
      if t != q.topic {
        assert Ids(index', t) == Ids(index, t);
      } else if x != id {
        assert x in Ids(index, t);
      }
    }
  }

  /** After the append every live question is listed under its topic. */
  lemma AppendAllListed(index: map<string, seq<int>>, bank: map<int, Question>, id: int, q: Question)
    requires AllListed(index, bank)
    ensures AllListed(index[q.topic := Ids(index, q.topic) + [id]], bank[id := q])
  {
    var index' := index[q.topic := Ids(index, q.topic) + [id]];
    var bank' := bank[id := q];
    forall x | x in bank' ensures x in Ids(index', bank'[x].topic) {
      if x != id {
        var t := bank[x].topic;
        assert x in Ids(index, t);
        if t != q.topic {
          assert Ids(index', t) == Ids(index, t);
        }
      }
    }
  }

  /** Erasing a question from the bank and its id from its topic's vector keeps
      the index in step with the bank. */
  lemma IndexAfterErase(index: map<string, seq<int>>, bank: map<int, Question>, id: int)
    requires Indexes(index, bank)
    requires id in bank
    ensures Indexes(index[bank[id].topic := Erase(Ids(index, bank[id].topic), id)], bank - {id})
  {
    var topic := bank[id].topic;
    var index' := index[topic := Erase(Ids(index, topic), id)];
    var bank' := bank - {id};
    EraseNoRepeats(index, topic, id);
    EraseOnlyLive(index, bank, id);
    EraseAllListed(index, bank, id);
    assert NoRepeats(index') && OnlyLive(index', bank') && AllListed(index', bank');
  }

  /** Erasing keeps every vector free of repeats. */
  lemma EraseNoRepeats(index: map<string, seq<int>>, topic: string, id: int)
    requires NoRepeats(index)
    ensures NoRepeats(index[topic := Erase(Ids(index, topic), id)])
  {
    var index' := index[topic := Erase(Ids(index, topic), id)];
    forall t ensures NoDup(Ids(index', t)) {
      if t == topic {
        EraseNoDup(Ids(index, t), id);
      } else {
        assert Ids(index', t) == Ids(index, t);
      }
    }
  }

  /** After the erase every listed id is still live under its topic. */
  lemma EraseOnlyLive(index: map<string, seq<int>>, bank: map<int, Question>, id: int)
    requires OnlyLive(index, bank)
    requires id in bank
    ensures OnlyLive(index[bank[id].topic := Erase(Ids(index, bank[id].topic), id)], bank - {id})
  {
    var topic := bank[id].topic;
    var index' := index[topic := Erase(Ids(index, topic), id)];
    var bank' := bank - {id};
    forall t, x | x in Ids(index', t) ensures x in bank' && bank'[x].topic == t {
      if t == topic {
        assert x in Ids(index, t) && x != id;
        assert x in bank && bank[x].topic == t;
      } else {
        assert Ids(index', t) == Ids(index, t);
      }
    }
  }

  /** After the erase every remaining live question is still listed. */
  lemma EraseAllListed(index: map<string, seq<int>>, bank: map<int, Question>, id: int)
    requires AllListed(index, bank)
    requires id in bank
    ensures AllListed(index[bank[id].topic := Erase(Ids(index, bank[id].topic), id)], bank - {id})
  {
    var topic := bank[id].topic;
    var index' := index[topic := Erase(Ids(index, topic), id)];
    var bank' := bank - {id};
    forall x | x in bank' ensures x in Ids(index', bank'[x].topic) {
      var t := bank[x].topic;
      assert x in Ids(index, t);
      if t == topic {
        assert x != id;
      } else {
        assert Ids(index', t) == Ids(index, t);
      }
    }
  }

  /** Changing a live question without changing its topic needs no index update. */
  lemma IndexSameTopic(index: map<string, seq<int>>, bank: map<int, Question>, id: int, q: Question)
    requires Indexes(index, bank)
    requires id in bank && q.topic == bank[id].topic
    ensures Indexes(index, bank[id := q])
  {
  }
}
