/** Players and the views of the roster the engine computes every round:
    the active players, the undercover and civilian subsets, and elimination. */
module Roster {
  import opened Basics

  /** The two sides; the winner of a game is one of them. */
  datatype Role = Civilian | Undercover

  datatype Player = Player(id: nat, name: string, role: Role, isUndercover: bool, word: string, active: bool)

  /** `AI玩家<id>`, the display name of a player. */
  function PlayerName(id: nat): string {
    "AI玩家" + NatToString(id)
  }

  function RoleOf(isUndercover: bool): Role {
    if isUndercover then Undercover else Civilian
  }

  /** `[p for p in players if p["active"]]`, in roster order: ids that
      increase along the roster still increase in the result. */
  function ActivePlayers(ps: seq<Player>): (r: seq<Player>)
    ensures |r| <= |ps|
    ensures forall p :: p in r <==> p in ps && p.active
    ensures IdsIncrease(ps) ==> IdsIncrease(r)
    decreases |ps|, 1
  {
    if |ps| == 0 then []
    else
      ActiveStep(ps);
      (if ps[0].active then [ps[0]] else []) + ActivePlayers(ps[1..])
  }

  /** The first player kept or dropped in front of the filtered rest. */
  lemma ActiveStep(ps: seq<Player>)
    requires |ps| > 0
    ensures var r := (if ps[0].active then [ps[0]] else []) + ActivePlayers(ps[1..]);
            IdsIncrease(ps) ==> IdsIncrease(r)
    decreases |ps|, 0
  {
    if IdsIncrease(ps) {
      IncreaseTail(ps);
      IncreaseCons(ps, if ps[0].active then [ps[0]] else [], ActivePlayers(ps[1..]));
    }
  }

  /** The filter keeps each active player as often as the roster holds it
      and drops every inactive one. */
  lemma {:induction false} ActivePlayersCounts(ps: seq<Player>, p: Player)
    ensures multiset(ActivePlayers(ps))[p] == if p.active then multiset(ps)[p] else 0
  {
    if |ps| > 0 {
      ActivePlayersCounts(ps[1..], p);
      var head := if ps[0].active then [ps[0]] else [];
      assert multiset(ps) == multiset([ps[0]]) + multiset(ps[1..]) by {
        assert ps == [ps[0]] + ps[1..];
      }
      assert multiset(head + ActivePlayers(ps[1..])) == multiset(head) + multiset(ActivePlayers(ps[1..]));
    }
  }

  lemma IncreaseCons(ps: seq<Player>, head: seq<Player>, rest: seq<Player>)
    requires |ps| > 0 && IdsIncrease(rest) && (head == [] || head == [ps[0]])
    requires IdsIncrease(ps) && forall q :: q in rest ==> q in ps[1..]
    ensures IdsIncrease(head + rest)
  {
    if head == [ps[0]] {
      forall j | 0 < j < |head + rest| ensures ps[0].id < (head + rest)[j].id {
        assert (head + rest)[j] == rest[j - 1];
        assert rest[j - 1] in ps[1..];
        var k :| 0 <= k < |ps[1..]| && ps[1..][k] == rest[j - 1];
        assert ps[k + 1] == rest[j - 1];
      }
      forall i, j | 0 < i < j < |head + rest| ensures (head + rest)[i].id < (head + rest)[j].id {
        assert (head + rest)[i] == rest[i - 1] && (head + rest)[j] == rest[j - 1];
      }
    } else {
      assert head + rest == rest;
    }
  }

  /** Ids strictly increase along the roster. */
  predicate IdsIncrease(ps: seq<Player>) {
    forall i, j :: 0 <= i < j < |ps| ==> ps[i].id < ps[j].id
  }

  lemma IncreaseTail(ps: seq<Player>)
    requires |ps| > 0 && IdsIncrease(ps)
    ensures IdsIncrease(ps[1..])
  {
    forall i, j | 0 <= i < j < |ps| - 1 ensures ps[1..][i].id < ps[1..][j].id {
      assert ps[1..][i] == ps[i + 1] && ps[1..][j] == ps[j + 1];
    }
  }

  /** Ids running 1..n increase. */
  lemma InOrderIncrease(ps: seq<Player>)
    requires IdsInOrder(ps)
    ensures IdsIncrease(ps)
  {
  }

  function UndercoverPlayers(ps: seq<Player>): (r: seq<Player>)
    ensures |r| <= |ps|
    ensures forall p :: p in r <==> p in ps && p.isUndercover
  {
    if |ps| == 0 then []
    else (if ps[0].isUndercover then [ps[0]] else []) + UndercoverPlayers(ps[1..])
  }

  function CivilianPlayers(ps: seq<Player>): (r: seq<Player>)
    ensures |r| <= |ps|
    ensures forall p :: p in r <==> p in ps && !p.isUndercover
  {
    if |ps| == 0 then []
    else (if ps[0].isUndercover then [] else [ps[0]]) + CivilianPlayers(ps[1..])
  }

  /** The ids of the given players, in order. */
  function IdsOf(ps: seq<Player>): (ids: seq<nat>)
    ensures |ids| == |ps|
    ensures forall i :: 0 <= i < |ps| ==> ids[i] == ps[i].id
  {
    if |ps| == 0 then [] else [ps[0].id] + IdsOf(ps[1..])
  }

  function ActiveIdSet(ps: seq<Player>): set<nat> {
    set p | p in ps && p.active :: p.id
  }

  /** Every player is either undercover or a civilian, never both. */
  lemma {:induction false} SidesPartition(ps: seq<Player>)
    ensures |UndercoverPlayers(ps)| + |CivilianPlayers(ps)| == |ps|
  {
    if |ps| > 0 {
      SidesPartition(ps[1..]);
    }
  }

  /** Ids run 1..n in roster order. */
  predicate IdsInOrder(ps: seq<Player>) {
    forall i :: 0 <= i < |ps| ==> ps[i].id == i + 1
  }

  /** `qs` is `ps` after eliminations only: the same players with the same
      names, words and roles, and nobody re-activated. */
  predicate LaterRoster(ps: seq<Player>, qs: seq<Player>) {
    && |qs| == |ps|
    && forall i :: 0 <= i < |ps| ==> qs[i] == ps[i].(active := qs[i].active) && (qs[i].active ==> ps[i].active)
  }

  lemma LaterRosterTransitive(ps: seq<Player>, qs: seq<Player>, rs: seq<Player>)
    requires LaterRoster(ps, qs) && LaterRoster(qs, rs)
    ensures LaterRoster(ps, rs)
  {
  }

  /** Eliminations never change who is undercover: the undercover count of
      the roster is the one the game started with. */
  lemma {:induction false} LaterRosterKeepsSides(ps: seq<Player>, qs: seq<Player>)
    requires LaterRoster(ps, qs)
    ensures |UndercoverPlayers(qs)| == |UndercoverPlayers(ps)|
    ensures |CivilianPlayers(qs)| == |CivilianPlayers(ps)|
  {
    if |ps| > 0 {
      LaterRosterKeepsSides(ps[1..], qs[1..]);
    }
  }

  /** The active players of a later roster are among the earlier active players. */
  lemma LaterRosterShrinks(ps: seq<Player>, qs: seq<Player>)
    requires LaterRoster(ps, qs) && IdsInOrder(ps)
    ensures IdsInOrder(qs)
    ensures ActiveIdSet(qs) <= ActiveIdSet(ps)
  {
    forall x | x in ActiveIdSet(qs) ensures x in ActiveIdSet(ps) {
      var i :| 0 <= i < |qs| && qs[i].active && qs[i].id == x;
      assert ps[i] in ps;
    }
  }

  /** Marks the player with id `x` as eliminated (`voted_out_player["active"] = False`). */
  function Deactivate(ps: seq<Player>, x: nat): (qs: seq<Player>)
    ensures LaterRoster(ps, qs)
    ensures forall i :: 0 <= i < |ps| ==> (qs[i].active <==> ps[i].active && ps[i].id != x)
  {
    if |ps| == 0 then []
    else [if ps[0].id == x then ps[0].(active := false) else ps[0]] + Deactivate(ps[1..], x)
  }

  /** With distinct ids, eliminating an active player removes exactly that id
      from the active set. */
  lemma DeactivateRemovesOne(ps: seq<Player>, x: nat)
    requires IdsInOrder(ps)
    ensures ActiveIdSet(Deactivate(ps, x)) == ActiveIdSet(ps) - {x}
  {
    var qs := Deactivate(ps, x);
    forall y | y in ActiveIdSet(ps) - {x} ensures y in ActiveIdSet(qs) {
      var i := ActiveIdIndex(ps, y);
      assert qs[i] in qs;
    }
    forall y | y in ActiveIdSet(qs) ensures y in ActiveIdSet(ps) - {x} {
      var i := ActiveIdIndex(qs, y);
      assert ps[i] in ps;
    }
  }

  /** Where an active id sits in the roster. */
  lemma ActiveIdIndex(ps: seq<Player>, y: nat) returns (i: nat)
    requires y in ActiveIdSet(ps)
    ensures i < |ps| && ps[i].active && ps[i].id == y
  {
    var p :| p in ps && p.active && p.id == y;
    i :| i < |ps| && ps[i] == p;
  }

  /** The ids of the active players, in roster order, are exactly the active id set. */
  lemma ActiveIdsAreActiveSet(ps: seq<Player>)
    ensures forall x :: x in IdsOf(ActivePlayers(ps)) <==> x in ActiveIdSet(ps)
  {
    var act := ActivePlayers(ps);
    var ids := IdsOf(act);
    forall x | x in ids ensures x in ActiveIdSet(ps) {
      var i :| 0 <= i < |ids| && ids[i] == x;
      assert act[i] in act;
    }
    forall x | x in ActiveIdSet(ps) ensures x in ids {
      var p :| p in ps && p.active && p.id == x;
      assert p in act;
      var i :| 0 <= i < |act| && act[i] == p;
      assert ids[i] == x;
    }
  }
}
