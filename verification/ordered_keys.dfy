/**
 Walking a `std::map<int, …>` visits its keys in ascending order; each step
 takes the least key not yet visited.
 */
module OrderedKeys {

  /** A set with no member is the empty set. */
  lemma NoMemberEmpty(s: set<int>)
    requires forall x :: x !in s
    ensures s == {}
  {
    assert forall x :: x in s <==> x in {};
  }

  /** A non-empty set has a member. */
  lemma NonEmptyHasMember(s: set<int>)
    requires s != {}
    ensures exists x :: x in s
  {
    if forall x :: x !in s {
      NoMemberEmpty(s);
    }
  }

  /** A finite, non-empty set of ids has a least element. */
  lemma {:induction false} LeastExists(s: set<int>)
    requires s != {}
    ensures exists m :: m in s && IsLeast(m, s)
    decreases |s|
  {
    NonEmptyHasMember(s);
    var x :| x in s;
    var others := s - {x};
    if others == {} {
      OnlyMemberLeast(s, x);
    } else {
      LeastExists(others);
      var m :| m in others && IsLeast(m, others);
      SmallerOfTwoLeast(s, x, m);
    }
  }

  /** The only member of a set is its least. */
  lemma OnlyMemberLeast(s: set<int>, x: int)
    requires x in s && s - {x} == {}
    ensures IsLeast(x, s)
  {
    forall j | j in s ensures x <= j {
      assert j !in s - {x};
    }
  }

  /** The smaller of `x` and the least of the other members is the least of all. */
  lemma SmallerOfTwoLeast(s: set<int>, x: int, m: int)
    requires x in s && m in s - {x} && IsLeast(m, s - {x})
    ensures var least := if x < m then x else m; least in s && IsLeast(least, s)
  {
    var least := if x < m then x else m;
    forall j | j in s ensures least <= j {
      if j != x {
        assert j in s - {x};
      }
    }
  }

  predicate IsLeast(m: int, s: set<int>)
  {
    forall j :: j in s ==> m <= j
  }

  /** The next key an in-order walk visits among the keys `rest` not yet visited. */
  method Least(rest: set<int>) returns (m: int)
    requires rest != {}
    ensures m in rest
    ensures forall j :: j in rest ==> m <= j
  {
    LeastExists(rest);
    m :| m in rest && IsLeast(m, rest);
  }
}
