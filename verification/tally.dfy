/** Vote counting: the non-null votes are counted per target, and the round
    ends with no votes, a tie for the most votes, or a unique player with the
    most votes. */
module Tally {

  datatype Outcome =
    | NoVotes
    | Tie(tied: set<nat>, count: nat)
    | Unique(target: nat)

  /** How many of the votes name `x`. */
  function Count(vs: seq<nat>, x: nat): nat {
    multiset(vs)[x]
  }

  /** The largest count among the votes from position `i` on. */
  function MaxCountFrom(vs: seq<nat>, i: nat): (m: nat)
    requires i <= |vs|
    ensures forall j :: i <= j < |vs| ==> Count(vs, vs[j]) <= m
    ensures i < |vs| ==> exists j :: i <= j < |vs| && Count(vs, vs[j]) == m
    decreases |vs| - i
  {
    if i == |vs| then 0
    else
      var rest := MaxCountFrom(vs, i + 1);
      var here := Count(vs, vs[i]);
      if here >= rest then here else rest
  }

  /** The first vote, from position `i` on, whose target reaches count `m`. */
  function FirstWithCount(vs: seq<nat>, m: nat, i: nat): (x: nat)
    requires i < |vs| && exists j :: i <= j < |vs| && Count(vs, vs[j]) == m
    ensures x in vs && Count(vs, x) == m
    decreases |vs| - i
  {
    if Count(vs, vs[i]) == m then vs[i] else FirstWithCount(vs, m, i + 1)
  }

  /** `max(vote_counts.values())`, the targets that reach it, and the verdict:
      a tie when more than one target does, the single target otherwise. */
  function TallyVotes(vs: seq<nat>): (t: Outcome)
    ensures t.NoVotes? <==> |vs| == 0
    ensures t.Unique? ==> t.target in vs && forall y :: y in vs && y != t.target ==> Count(vs, y) < Count(vs, t.target)
    ensures t.Tie? ==> && |t.tied| >= 2
                       && (forall y :: y in t.tied <==> y in vs && Count(vs, y) == t.count)
                       && (forall y :: y in vs ==> Count(vs, y) <= t.count)
  {
    if |vs| == 0 then NoVotes
    else
      var m := MaxCountFrom(vs, 0);
      var top := set y | y in vs && Count(vs, y) == m;
      if |top| >= 2 then
        assert forall y :: y in vs ==> Count(vs, y) <= m by {
          forall y | y in vs ensures Count(vs, y) <= m {
            var j :| 0 <= j < |vs| && vs[j] == y;
          }
        }
        Tie(top, m)
      else
        var x := FirstWithCount(vs, m, 0);
        assert forall y :: y in vs && y != x ==> Count(vs, y) < m by {
          forall y | y in vs && y != x ensures Count(vs, y) < m {
            var j :| 0 <= j < |vs| && vs[j] == y;
            if Count(vs, y) == m {
              assert {x, y} <= top;
              assert |{x, y}| == 2;
              SubsetCard({x, y}, top);
              assert false;
            }
          }
        }
        Unique(x)
  }

  lemma SubsetCard(a: set<nat>, b: set<nat>)
    requires a <= b
    ensures |a| <= |b|
  {
    assert b == a + (b - a);
  }

  /** A unique maximum is exactly a target that out-polls every other target;
      that target is the one eliminated. */
  lemma UniqueIff(vs: seq<nat>, x: nat)
    ensures TallyVotes(vs) == Unique(x) <==> x in vs && forall y :: y in vs && y != x ==> Count(vs, y) < Count(vs, x)
  {
    var t := TallyVotes(vs);
    if x in vs && forall y :: y in vs && y != x ==> Count(vs, y) < Count(vs, x) {
      var m := MaxCountFrom(vs, 0);
      assert Count(vs, x) <= m;
      assert m == Count(vs, x);
      var top := set y | y in vs && Count(vs, y) == m;
      assert top <= {x};
      SubsetCard(top, {x});
      assert t == Unique(FirstWithCount(vs, m, 0));
    }
  }

  /** Two or more targets sharing the largest count make a tie naming
      exactly them. */
  lemma TieOfLeaders(vs: seq<nat>, leaders: set<nat>, m: nat)
    requires |leaders| >= 2
    requires forall y :: y in leaders <==> y in vs && Count(vs, y) == m
    requires forall y :: y in vs ==> Count(vs, y) <= m
    ensures TallyVotes(vs) == Tie(leaders, m)
  {
    var t := TallyVotes(vs);
    var a :| a in leaders;
    assert |leaders - {a}| >= 1;
    var b :| b in leaders - {a};
    assert t.Tie? by {
      if t.Unique? {
        assert false;
      }
    }
    assert t.count == m by {
      assert Count(vs, a) <= t.count;
      var c :| c in t.tied;
      assert Count(vs, c) <= m;
    }
    assert t.tied == leaders;
  }

  /** Four votes split two against two and one stray vote: a tie between the
      two leaders, with nobody eliminated. */
  lemma ExampleTie()
    ensures TallyVotes([1, 2, 1, 2, 3]) == Tie({1, 2}, 2)
  {
    var vs := [1, 2, 1, 2, 3];
    ExampleTieCounts();
    forall y ensures y in {1, 2} <==> y in vs && Count(vs, y) == 2 {
      if y in vs {
        assert y == 1 || y == 2 || y == 3;
      }
    }
    TieOfLeaders(vs, {1, 2}, 2);
  }

  lemma ExampleTieCounts()
    ensures Count([1, 2, 1, 2, 3], 1) == 2 && Count([1, 2, 1, 2, 3], 2) == 2 && Count([1, 2, 1, 2, 3], 3) == 1
    ensures forall y :: y in [1, 2, 1, 2, 3] ==> y == 1 || y == 2 || y == 3
  {
    var vs: seq<nat> := [1, 2, 1, 2, 3];
    ExampleTieMultiset(vs);
    var m := multiset{1} + multiset{2} + multiset{1} + multiset{2} + multiset{3};
    assert m[1] == 2 && m[2] == 2 && m[3] == 1;
    assert forall y :: y in vs ==> y == vs[0] || y == vs[1] || y == vs[2] || y == vs[3] || y == vs[4];
  }

  lemma ExampleTieMultiset(vs: seq<nat>)
    requires vs == [1, 2, 1, 2, 3]
    ensures multiset(vs) == multiset{1} + multiset{2} + multiset{1} + multiset{2} + multiset{3}
  {
    assert vs == [1] + [2] + [1] + [2] + [3];
  }

  /** Three votes against one: that player is eliminated. */
  lemma ExampleUnique()
    ensures TallyVotes([1, 1, 2, 1]) == Unique(1)
  {
    var vs := [1, 1, 2, 1];
    assert multiset(vs) == multiset{1, 1, 1, 2};
    assert Count(vs, 1) == 3 && Count(vs, 2) == 1;
    UniqueIff(vs, 1);
  }
}
