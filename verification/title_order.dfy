/**
 The order `viewQuestionsByDate` sorts by: titles compared as `std::string`
 compares them (character by character, a proper prefix first), and the
 sort itself.
 */
module TitleOrder {
  import opened Records

  /** `a <= b` in the lexicographic order of strings. */
  predicate TitleLe(a: string, b: string)
    ensures a <= b ==> TitleLe(a, b)
    ensures TitleLe(a, b) && b == [] ==> a == []
    decreases |a|
  {
    a == [] || (b != [] && (a[0] < b[0] || (a[0] == b[0] && TitleLe(a[1..], b[1..]))))
  }

  /** Any two titles are ordered one way or the other. */
  lemma {:induction false} TitleLeTotal(a: string, b: string)
    ensures TitleLe(a, b) || TitleLe(b, a)
    decreases |a|
  {
    if a != [] && b != [] && a[0] == b[0] {
      TitleLeTotal(a[1..], b[1..]);
    }
  }

  /** The order is transitive. */
  lemma {:induction false} TitleLeTrans(a: string, b: string, c: string)
    requires TitleLe(a, b) && TitleLe(b, c)
    ensures TitleLe(a, c)
    decreases |a|
  {
    if a != [] && a[0] == b[0] && b[0] == c[0] {
      TitleLeTrans(a[1..], b[1..], c[1..]);
    }
  }

  /** Titles never decrease from left to right. */
  ghost predicate SortedByTitle(s: seq<Question>)
  {
    forall i, j :: 0 <= i < j < |s| ==> TitleLe(s[i].title, s[j].title)
  }

  /** Insert `q` into a title-sorted sequence before the first title it does not exceed. */
  function Insert(s: seq<Question>, q: Question): seq<Question>
  {
    if s == [] then [q]
    else if TitleLe(q.title, s[0].title) then [q] + s
    else [s[0]] + Insert(s[1..], q)
  }

  /** Inserting adds exactly `q`. */
  lemma {:induction false} InsertAdds(s: seq<Question>, q: Question)
    ensures multiset(Insert(s, q)) == multiset(s) + multiset{q}
  {
    if s != [] && !TitleLe(q.title, s[0].title) {
      InsertAdds(s[1..], q);
      assert s == [s[0]] + s[1..];
    }
  }

  /** Inserting into a sorted sequence keeps it sorted. */
  lemma {:induction false} InsertSorted(s: seq<Question>, q: Question)
    requires SortedByTitle(s)
    ensures SortedByTitle(Insert(s, q))
  {
    if s == [] {
    } else if TitleLe(q.title, s[0].title) {
      var r := [q] + s;
      forall i, j | 0 <= i < j < |r| ensures TitleLe(r[i].title, r[j].title) {
        if i == 0 && j > 1 {
          TitleLeTrans(q.title, s[0].title, s[j - 1].title);
        }
      }
    } else {
      assert SortedByTitle(s[1..]);
      InsertSorted(s[1..], q);
      var rest := Insert(s[1..], q);
      HeadBeforeInserted(s, q);
      var r := [s[0]] + rest;
      assert r == Insert(s, q);
      forall i, j | 0 <= i < j < |r| ensures TitleLe(r[i].title, r[j].title) {
        if i == 0 {
          assert r[j] == rest[j - 1];
        } else {
          assert r[i] == rest[i - 1] && r[j] == rest[j - 1];
        }
      }
    }
  }

  /** When `q` goes after the head, the head is at most every title of the rest. */
  lemma HeadBeforeInserted(s: seq<Question>, q: Question)
    requires SortedByTitle(s) && s != [] && !TitleLe(q.title, s[0].title)
    ensures forall j :: 0 <= j < |Insert(s[1..], q)| ==> TitleLe(s[0].title, Insert(s[1..], q)[j].title)
  {
    var rest := Insert(s[1..], q);
    InsertAdds(s[1..], q);
    TitleLeTotal(q.title, s[0].title);
    forall j | 0 <= j < |rest| ensures TitleLe(s[0].title, rest[j].title) {
      assert rest[j] in multiset(rest);
      if rest[j] != q {
        assert rest[j] in multiset(s[1..]);
        assert rest[j] in s[1..];
      }
    }
  }

  /** `std::sort(v.begin(), v.end(), by title)`: the result is a permutation of
      the input whose titles never decrease. The order among equal titles is
      whatever the insertion gives; the source leaves it unspecified. */
  method SortByTitle(s: seq<Question>) returns (r: seq<Question>)
    ensures SortedByTitle(r)
    ensures multiset(r) == multiset(s)
  {
    r := [];
    for i := 0 to |s|
      invariant SortedByTitle(r)
      invariant multiset(r) == multiset(s[..i])
    {
      InsertSorted(r, s[i]);
      InsertAdds(r, s[i]);
      r := Insert(r, s[i]);
      assert s[..i + 1] == s[..i] + [s[i]];
    }
    assert s[..|s|] == s;
  }
}
