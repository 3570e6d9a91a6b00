/** What one round and a whole run of the engine guarantee: votes are keyed
    by the players active at round start and always legal, the log only
    grows, players are only ever deactivated (one per unique maximum), the
    winner reflects the remaining undercover, a round limit bounds the game,
    and the two ways of noticing the last undercover's elimination agree. */
module EngineProofs {
  import opened Basics
  import opened Roster
  import opened Events
  import opened Tally
  import opened State
  import opened Settings
  import opened Engine

  /** An active player's id names a player of the roster, and an active one. */
  lemma ActiveIdFound(ps: seq<Player>, x: nat)
    requires x in IdsOf(ActivePlayers(ps))
    ensures FindPlayer(ps, x).Some? && x in ActiveIdSet(ps)
  {
    var a := ActivePlayers(ps);
    var j :| 0 <= j < |a| && IdsOf(a)[j] == x;
    assert a[j] in a;
    assert a[j] in ps && a[j].active;
  }

  /** A deliberation meeting `Deliberates` meets its contract in every round. */
  lemma Deliberated(delib: Deliberation, maxRounds: int, g: Game, round: nat)
    requires Deliberates(delib, maxRounds) && !g.gameOver
    ensures DeliberationOk(g, round, maxRounds, delib(g, round))
  {
  }

  /** The log and the votes after one round: `2·k` entries appended for the
      `k` players active at round start (a description and a vote each), the
      vote map replaced by one keyed by exactly those players, holding a
      legal ballot for each, and the round counter set. */
  lemma RoundRecords(v: Variant, delib: Deliberation, maxRounds: int, g: Game, round: nat)
    requires Deliberates(delib, maxRounds) && !g.gameOver
    ensures var r := PlayRound(v, delib, g, round);
            var active := ActivePlayers(g.players);
            && r.game.currentRound == round
            && r.game.words == g.words && r.game.undercoverWord == g.undercoverWord && r.game.civilianWord == g.civilianWord
            && |r.game.discussion| == |g.discussion| + 2 * |active|
            && r.game.discussion[..|g.discussion|] == g.discussion
            && Tagged(r.game.discussion[|g.discussion|..], active + active, round)
            && (forall k :: k in r.game.votes <==> k in IdsOf(active))
            && (forall k :: k in r.game.votes ==> LegalBallot(r.game.votes[k], k, IdsOf(active)))
  {
    Deliberated(delib, maxRounds, g, round);
  }

  /** The roster after one round: nobody is reactivated; no votes or a tie
      change nobody; a unique maximum deactivates exactly that player, who
      was active and named by strictly more voters than anyone else. */
  lemma RoundRoster(v: Variant, delib: Deliberation, maxRounds: int, g: Game, round: nat)
    requires Deliberates(delib, maxRounds) && !g.gameOver && IdsInOrder(g.players)
    ensures var r := PlayRound(v, delib, g, round);
            && LaterRoster(g.players, r.game.players) && IdsInOrder(r.game.players)
            && (!r.outcome.Unique? ==> r.game.players == g.players)
            && (r.outcome.Unique? ==>
                  && r.outcome.target in ActiveIdSet(g.players)
                  && (forall y :: y != r.outcome.target ==> VotesFor(r.game.votes, y) < VotesFor(r.game.votes, r.outcome.target))
                  && ActiveIdSet(r.game.players) == ActiveIdSet(g.players) - {r.outcome.target})
  {
    RoundTally(v, delib, maxRounds, g, round);
    Deliberated(delib, maxRounds, g, round);
    var r := PlayRound(v, delib, g, round);
    LaterRosterShrinks(g.players, r.game.players);
    if r.outcome.Unique? {
      ActiveIdFound(g.players, r.outcome.target);
      DeactivateRemovesOne(g.players, r.outcome.target);
    }
  }

  /** Counting the ballots read back in voter order counts the voters in
      the map who named `x`. */
  lemma {:induction false} CountInOrder(ids: seq<nat>, votes: map<nat, Option<nat>>, x: nat)
    requires Distinct(ids) && forall k :: k in ids ==> k in votes
    ensures multiset(BallotsInOrder(ids, votes))[Some(x)] == |NamedBy(ids, votes, x)|
  {
    if |ids| > 0 {
      DistinctTail(ids);
      CountInOrder(ids[1..], votes, x);
      BallotsStep(ids, votes);
      NamedStep(ids, votes, x);
    }
  }

  /** The voters among `ids` who named `x`. */
  function NamedBy(ids: seq<nat>, votes: map<nat, Option<nat>>, x: nat): set<nat> {
    set k | k in ids && k in votes && votes[k] == Some(x)
  }

  lemma DistinctTail(ids: seq<nat>)
    requires |ids| > 0 && Distinct(ids)
    ensures Distinct(ids[1..]) && ids[0] !in ids[1..]
  {
    var tail := ids[1..];
    forall i, j | 0 <= i < j < |tail| ensures tail[i] != tail[j] {
      assert tail[i] == ids[i + 1] && tail[j] == ids[j + 1];
    }
    forall i | 0 <= i < |tail| ensures tail[i] != ids[0] {
      assert tail[i] == ids[i + 1];
    }
  }

  lemma BallotsStep(ids: seq<nat>, votes: map<nat, Option<nat>>)
    requires |ids| > 0 && forall k :: k in ids ==> k in votes
    ensures multiset(BallotsInOrder(ids, votes)) == multiset{votes[ids[0]]} + multiset(BallotsInOrder(ids[1..], votes))
  {
    assert BallotsInOrder(ids, votes) == [votes[ids[0]]] + BallotsInOrder(ids[1..], votes);
  }

  lemma NamedStep(ids: seq<nat>, votes: map<nat, Option<nat>>, x: nat)
    requires |ids| > 0 && ids[0] !in ids[1..] && forall k :: k in ids ==> k in votes
    ensures |NamedBy(ids, votes, x)| == (if votes[ids[0]] == Some(x) then 1 else 0) + |NamedBy(ids[1..], votes, x)|
  {
    var a := ids[0];
    var s := NamedBy(ids, votes, x);
    var t := NamedBy(ids[1..], votes, x);
    var h: set<nat> := if votes[a] == Some(x) then {a} else {};
    forall k | k in s ensures k in h || k in t {
      if k != a {
        var i :| 0 <= i < |ids| && ids[i] == k;
        assert ids[1..][i - 1] == k;
      }
    }
    assert ids[0] in ids;
    assert s == h + t;
    assert h !! t;
    assert |h + t| == |h| + |t|;
    assert |h| == if votes[a] == Some(x) then 1 else 0;
  }

  /** The tally's count of `x` over the round's ballots is the number of
      voters who named `x` in the vote map. */
  lemma VotesForInOrder(ids: seq<nat>, votes: map<nat, Option<nat>>, x: nat)
    requires Distinct(ids) && forall k :: k in votes <==> k in ids
    ensures Count(Cast(BallotsInOrder(ids, votes)), x) == VotesFor(votes, x)
  {
    CountInOrder(ids, votes, x);
    assert NamedBy(ids, votes, x) == set k | k in votes && votes[k] == Some(x);
  }

  /** What the round's verdict means for the vote map it records: nobody is
      named exactly when every ballot is null; a player is eliminated
      exactly when strictly more voters named them than anyone else; and a
      tie names exactly the players with the most votes, at least two. */
  lemma RoundTally(v: Variant, delib: Deliberation, maxRounds: int, g: Game, round: nat)
    requires Deliberates(delib, maxRounds) && !g.gameOver && IdsInOrder(g.players)
    ensures var r := PlayRound(v, delib, g, round);
            && (r.outcome.NoVotes? <==> forall k :: k in r.game.votes ==> r.game.votes[k].None?)
            && (forall x :: r.outcome == Unique(x) <==>
                  0 < VotesFor(r.game.votes, x) && forall y :: y != x ==> VotesFor(r.game.votes, y) < VotesFor(r.game.votes, x))
            && (r.outcome.Tie? ==>
                  && |r.outcome.tied| >= 2
                  && forall y :: (y in r.outcome.tied <==> VotesFor(r.game.votes, y) == r.outcome.count)
                                 && VotesFor(r.game.votes, y) <= r.outcome.count)
  {
    Deliberated(delib, maxRounds, g, round);
    InOrderIncrease(g.players);
    var d := delib(g, round);
    var r := PlayRound(v, delib, g, round);
    var ids := IdsOf(ActivePlayers(g.players));
    ActiveIdsDistinct(g.players);
    if d.outcome.Unique? {
      ActiveIdFound(g.players, d.outcome.target);
    }
    assert r.game.votes == d.game.votes && r.outcome == d.outcome;
    var vs := Cast(BallotsInOrder(ids, d.game.votes));
    assert d.outcome == TallyVotes(vs);
    forall y ensures Count(vs, y) == VotesFor(d.game.votes, y) && (y in vs <==> 0 < VotesFor(d.game.votes, y)) {
      VotesForInOrder(ids, d.game.votes, y);
    }
    TallyNoVotes(ids, d.game.votes);
    forall x ensures d.outcome == Unique(x) <==>
                       0 < VotesFor(d.game.votes, x) && forall y :: y != x ==> VotesFor(d.game.votes, y) < VotesFor(d.game.votes, x) {
      UniqueIff(vs, x);
    }
    if d.outcome.Tie? {
      var c :| c in d.outcome.tied;
      assert 0 < d.outcome.count;
    }
  }

  /** No ballot names anybody exactly when every ballot in the map is null. */
  lemma TallyNoVotes(ids: seq<nat>, votes: map<nat, Option<nat>>)
    requires forall k :: k in votes <==> k in ids
    ensures |Cast(BallotsInOrder(ids, votes))| == 0 <==> forall k :: k in votes ==> votes[k].None?
  {
    var bs := BallotsInOrder(ids, votes);
    if k :| k in votes && votes[k].Some? {
      var j :| 0 <= j < |ids| && ids[j] == k;
      assert bs[j] == votes[k];
      assert votes[k].value in Cast(bs);
    }
    if |Cast(bs)| > 0 {
      var x := Cast(bs)[0];
      assert x in Cast(bs);
      var j :| 0 <= j < |bs| && bs[j] == Some(x);
    }
  }

  /** How one round can end the game: only under `recheck`, only after an
      elimination, and exactly when no undercover remains active; otherwise
      the winner and summary stay unset. */
  lemma RoundEnding(v: Variant, delib: Deliberation, maxRounds: int, g: Game, round: nat)
    requires Deliberates(delib, maxRounds) && !g.gameOver
    ensures var r := PlayRound(v, delib, g, round);
            && (r.game.gameOver <==> v.recheck && r.outcome.Unique? && ActiveUndercoverCount(r.game.players) == 0)
            && (!r.game.gameOver ==> r.game.winner == g.winner && r.game.summary == g.summary)
  {
    Deliberated(delib, maxRounds, g, round);
    var d := delib(g, round);
    if d.outcome.Unique? {
      ActiveIdFound(g.players, d.outcome.target);
    }
  }

  /** A round that ends the game gives it to the civilians, and its last
      event is the `end` event. */
  lemma RoundFinish(v: Variant, delib: Deliberation, maxRounds: int, g: Game, round: nat)
    requires Deliberates(delib, maxRounds) && !g.gameOver
    ensures var r := PlayRound(v, delib, g, round);
            r.game.gameOver ==>
              && r.game == Finish(r.game.(gameOver := false, winner := g.winner, summary := g.summary), AllUndercoverFound)
              && |r.events| >= 1 && r.events[|r.events| - 1] == EndEvent(r.game, AllUndercoverFound)
  {
    Deliberated(delib, maxRounds, g, round);
  }

  /** The shape of one round's events: the `round_start` event first and no
      other, and an `end` event exactly when the round ends the game, as its
      last event. */
  predicate RoundShaped(evs: seq<Event>, start: Event, over: bool) {
    && |evs| >= 2 && evs[0] == start
    && (forall j :: 0 < j < |evs| ==> !evs[j].RoundStart?)
    && (forall j :: 0 <= j < |evs| - 1 ==> !evs[j].End?)
    && (evs[|evs| - 1].End? <==> over)
  }

  /** The events of one round are shaped that way. */
  lemma RoundEvents(v: Variant, delib: Deliberation, maxRounds: int, g: Game, round: nat)
    requires Deliberates(delib, maxRounds) && !g.gameOver
    ensures var r := PlayRound(v, delib, g, round);
            RoundShaped(r.events, RoundStart(round, IdsOf(ActivePlayers(g.players)), maxRounds), r.game.gameOver)
  {
    Deliberated(delib, maxRounds, g, round);
    var d := delib(g, round);
    if d.outcome.Unique? {
      ActiveIdFound(g.players, d.outcome.target);
    }
    ResolvedEvents(v, d);
  }

  /** The events of a deliberation followed by those of its resolution. */
  lemma ResolvedEvents(v: Variant, d: RoundResult)
    requires !d.game.gameOver && |d.events| >= 2 && d.events[0].RoundStart?
    requires forall j :: 0 < j < |d.events| ==> !d.events[j].RoundStart? && !d.events[j].End?
    requires d.outcome.Unique? ==> FindPlayer(d.game.players, d.outcome.target).Some?
    ensures var (h, closing) := Resolve(v, d.game, d.outcome);
            RoundShaped(d.events + closing, d.events[0], h.gameOver)
  {
    var (h, closing) := Resolve(v, d.game, d.outcome);
    assert |closing| >= 1;
    assert forall j :: 0 <= j < |closing| ==> !closing[j].RoundStart?;
    assert forall j :: 0 <= j < |closing| - 1 ==> !closing[j].End?;
    assert closing[|closing| - 1].End? <==> h.gameOver;
    ConcatEvents(d.events, closing);
  }

  /** Appending a round's closing events to its opening events. */
  lemma ConcatEvents(opening: seq<Event>, closing: seq<Event>)
    requires |opening| >= 1 && opening[0].RoundStart?
    requires forall j :: 0 < j < |opening| ==> !opening[j].RoundStart? && !opening[j].End?
    requires forall j :: 0 <= j < |closing| ==> !closing[j].RoundStart?
    requires forall j :: 0 <= j < |closing| - 1 ==> !closing[j].End?
    requires |closing| >= 1
    ensures var e := opening + closing;
            && e[0] == opening[0] && e[|e| - 1] == closing[|closing| - 1]
            && (forall j :: 0 < j < |e| ==> !e[j].RoundStart?)
            && (forall j :: 0 <= j < |e| - 1 ==> !e[j].End?)
  {
    var e := opening + closing;
    forall j | 0 < j < |e| ensures !e[j].RoundStart? {
      if j >= |opening| {
        assert e[j] == closing[j - |opening|];
      }
    }
    forall j | 0 <= j < |e| - 1 ensures !e[j].End? {
      if j >= |opening| {
        assert e[j] == closing[j - |opening|];
      }
    }
  }

  /** What a later state of the same game shares with an earlier one:
      players are only deactivated, the log is extended, the words stay. */
  ghost predicate Continues(a: Game, b: Game) {
    && LaterRoster(a.players, b.players)
    && |a.discussion| <= |b.discussion| && b.discussion[..|a.discussion|] == a.discussion
    && b.words == a.words && b.undercoverWord == a.undercoverWord && b.civilianWord == a.civilianWord
  }

  lemma ContinuesTransitive(a: Game, b: Game, c: Game)
    requires Continues(a, b) && Continues(b, c)
    ensures Continues(a, c)
  {
    LaterRosterTransitive(a.players, b.players, c.players);
    assert c.discussion[..|a.discussion|] == c.discussion[..|b.discussion|][..|a.discussion|];
  }

  /** One round continues the game. */
  lemma RoundContinues(v: Variant, delib: Deliberation, maxRounds: int, g: Game, round: nat)
    requires Deliberates(delib, maxRounds) && !g.gameOver
    ensures Continues(g, PlayRound(v, delib, g, round).game)
  {
    RoundRecords(v, delib, maxRounds, g, round);
    Deliberated(delib, maxRounds, g, round);
  }

  /** A finished game: its winner agrees with its summary, the civilians won
      exactly when no undercover is left active, and the last event is the
      `end` event carrying the final roster and votes. */
  predicate EndedWith(g: Game, evs: seq<Event>) {
    && g.gameOver && g.winner.Some? && g.summary.Some?
    && g.winner.value == WinnerOf(g.summary.value.reason)
    && g.summary.value.undercoverWord == g.undercoverWord && g.summary.value.civilianWord == g.civilianWord
    && (g.winner.value == Civilian <==> ActiveUndercoverCount(g.players) == 0)
    && |evs| >= 1 && evs[|evs| - 1] == End(g.winner.value, g.summary.value, g.players, g.votes)
  }

  lemma EndedWithAfter(g: Game, before: seq<Event>, evs: seq<Event>)
    requires EndedWith(g, evs)
    ensures EndedWith(g, before + evs)
  {
    assert (before + evs)[|before + evs| - 1] == evs[|evs| - 1];
  }

  /** A game ended by a check at the top of a round ends properly. */
  lemma CheckEnds(g: Game, round: nat, maxRounds: int)
    requires TopCheck(g.players, round, maxRounds).Some?
    ensures var reason := TopCheck(g.players, round, maxRounds).value;
            EndedWith(Finish(g, reason), [EndEvent(g, reason)])
  {
  }

  /** A round that ends the game ends it properly. */
  lemma RoundEnds(v: Variant, delib: Deliberation, maxRounds: int, g: Game, round: nat)
    requires Deliberates(delib, maxRounds) && !g.gameOver
    ensures var r := PlayRound(v, delib, g, round);
            r.game.gameOver ==> EndedWith(r.game, r.events)
  {
    RoundEnding(v, delib, maxRounds, g, round);
    RoundFinish(v, delib, maxRounds, g, round);
  }

  /** What the loop needs of a round: it continues the game, ends it
      properly if it ends it, and its events are shaped as a round's. */
  ghost predicate RoundOk(g: Game, round: nat, maxRounds: int, r: RoundResult) {
    && Continues(g, r.game)
    && (r.game.gameOver ==> EndedWith(r.game, r.events))
    && RoundShaped(r.events, RoundStart(round, IdsOf(ActivePlayers(g.players)), maxRounds), r.game.gameOver)
  }

  ghost predicate PlaysRounds(play: Round, maxRounds: int) {
    forall g: Game, round: nat {:trigger RoundOk(g, round, maxRounds, play(g, round))} ::
      !g.gameOver ==> RoundOk(g, round, maxRounds, play(g, round))
  }

  lemma PlayedRound(play: Round, maxRounds: int, g: Game, round: nat)
    requires PlaysRounds(play, maxRounds) && !g.gameOver
    ensures Continues(g, play(g, round).game)
    ensures play(g, round).game.gameOver ==> EndedWith(play(g, round).game, play(g, round).events)
    ensures RoundShaped(play(g, round).events, RoundStart(round, IdsOf(ActivePlayers(g.players)), maxRounds), play(g, round).game.gameOver)
  {
    assert RoundOk(g, round, maxRounds, play(g, round));
  }

  /** The parts of `PlayedRound` one at a time, for the loop lemmas. */
  lemma PlayedRoundContinues(play: Round, maxRounds: int, g: Game, round: nat)
    requires PlaysRounds(play, maxRounds) && !g.gameOver
    ensures Continues(g, play(g, round).game)
  {
    PlayedRound(play, maxRounds, g, round);
  }

  lemma PlayedRoundEnds(play: Round, maxRounds: int, g: Game, round: nat)
    requires PlaysRounds(play, maxRounds) && !g.gameOver
    ensures play(g, round).game.gameOver ==> EndedWith(play(g, round).game, play(g, round).events)
  {
    PlayedRound(play, maxRounds, g, round);
  }

  lemma PlayedRoundShaped(play: Round, maxRounds: int, g: Game, round: nat)
    requires PlaysRounds(play, maxRounds) && !g.gameOver
    ensures var evs := play(g, round).events;
            |evs| >= 1 && evs[0].RoundStart? && RoundShaped(evs, evs[0], play(g, round).game.gameOver)
  {
    PlayedRound(play, maxRounds, g, round);
  }

  /** The engine's rounds are such rounds, whatever the model replies. */
  lemma EngineRoundsOk(v: Variant, delib: Deliberation, maxRounds: int)
    requires Deliberates(delib, maxRounds)
    ensures PlaysRounds(RoundOf(v, delib), maxRounds)
  {
    var play := RoundOf(v, delib);
    forall g: Game, round: nat | !g.gameOver
      ensures RoundOk(g, round, maxRounds, play(g, round))
    {
      RoundContinues(v, delib, maxRounds, g, round);
      RoundEnds(v, delib, maxRounds, g, round);
      RoundEvents(v, delib, maxRounds, g, round);
    }
  }

  /** The loop plays a round from `g`: the game is on, no check at the top
      of the round ends it, and fuel remains. */
  predicate Plays(g: Game, round: nat, maxRounds: int, fuel: nat) {
    !g.gameOver && TopCheck(g.players, round, maxRounds).None? && fuel > 0
  }

  lemma {:induction false} RunContinues(play: Round, maxRounds: int, g: Game, round: nat, fuel: nat)
    requires PlaysRounds(play, maxRounds)
    ensures Continues(g, Run(play, g, round, maxRounds, fuel).game)
    decreases fuel, 1
  {
    if Plays(g, round, maxRounds, fuel) {
      RunContinuesStep(play, maxRounds, g, round, fuel);
    } else {
      var r := Run(play, g, round, maxRounds, fuel);
      assert r.game.players == g.players && r.game.discussion == g.discussion;
    }
  }

  lemma {:induction false} RunContinuesStep(play: Round, maxRounds: int, g: Game, round: nat, fuel: nat)
    requires PlaysRounds(play, maxRounds) && Plays(g, round, maxRounds, fuel)
    ensures Continues(g, Run(play, g, round, maxRounds, fuel).game)
    decreases fuel, 0
  {
    var rr := play(g, round);
    var rest := Run(play, rr.game, round + 1, maxRounds, fuel - 1);
    RunContinues(play, maxRounds, rr.game, round + 1, fuel - 1);
    PlayedRoundContinues(play, maxRounds, g, round);
    assert Continues(rr.game, rest.game);
    assert Continues(g, rr.game);
    ContinuesTransitive(g, rr.game, rest.game);
    assert Run(play, g, round, maxRounds, fuel).game == rest.game;
  }

  /** What a run keeps: players are only ever deactivated, ids stay 1..n,
      the undercover and civilian counts of the roster never change, the log
      only grows, and the words stay as dealt. */
  lemma RunKeeps(play: Round, maxRounds: int, g: Game, round: nat, fuel: nat)
    requires PlaysRounds(play, maxRounds) && IdsInOrder(g.players)
    ensures var r := Run(play, g, round, maxRounds, fuel);
            && LaterRoster(g.players, r.game.players) && IdsInOrder(r.game.players)
            && ActiveIdSet(r.game.players) <= ActiveIdSet(g.players)
            && |UndercoverPlayers(r.game.players)| == |UndercoverPlayers(g.players)|
            && |CivilianPlayers(r.game.players)| == |CivilianPlayers(g.players)|
            && |g.discussion| <= |r.game.discussion| && r.game.discussion[..|g.discussion|] == g.discussion
            && r.game.words == g.words && r.game.undercoverWord == g.undercoverWord && r.game.civilianWord == g.civilianWord
  {
    var r := Run(play, g, round, maxRounds, fuel);
    RunContinues(play, maxRounds, g, round, fuel);
    LaterRosterShrinks(g.players, r.game.players);
    LaterRosterKeepsSides(g.players, r.game.players);
  }

  /** A run that finishes a game ends it properly. */
  lemma {:induction false} RunEnding(play: Round, maxRounds: int, g: Game, round: nat, fuel: nat)
    requires PlaysRounds(play, maxRounds) && !g.gameOver
    ensures var r := Run(play, g, round, maxRounds, fuel);
            r.game.gameOver ==> EndedWith(r.game, r.events)
    decreases fuel, 1
  {
    if TopCheck(g.players, round, maxRounds).Some? {
      CheckEnds(g, round, maxRounds);
    } else if fuel > 0 {
      RunEndingStep(play, maxRounds, g, round, fuel);
    }
  }

  lemma {:induction false} RunEndingStep(play: Round, maxRounds: int, g: Game, round: nat, fuel: nat)
    requires PlaysRounds(play, maxRounds) && Plays(g, round, maxRounds, fuel)
    ensures var r := Run(play, g, round, maxRounds, fuel);
            r.game.gameOver ==> EndedWith(r.game, r.events)
    decreases fuel, 0
  {
    PlayedRoundEnds(play, maxRounds, g, round);
    if play(g, round).game.gameOver {
      RunEndsInRound(play, maxRounds, g, round, fuel);
    } else {
      RunEnding(play, maxRounds, play(g, round).game, round + 1, fuel - 1);
      RunEndsLater(play, maxRounds, g, round, fuel);
    }
  }

  /** A run whose first round ends the game ends with that round. */
  lemma RunEndsInRound(play: Round, maxRounds: int, g: Game, round: nat, fuel: nat)
    requires Plays(g, round, maxRounds, fuel)
    requires play(g, round).game.gameOver ==> EndedWith(play(g, round).game, play(g, round).events)
    requires play(g, round).game.gameOver
    ensures var r := Run(play, g, round, maxRounds, fuel);
            r.game.gameOver ==> EndedWith(r.game, r.events)
  {
    var rr := play(g, round);
    assert Run(play, g, round, maxRounds, fuel) == Played(rr.game, rr.events + []);
    assert rr.events + [] == rr.events;
  }

  /** A run that ends the game after its first round ends with the rest of the run. */
  lemma RunEndsLater(play: Round, maxRounds: int, g: Game, round: nat, fuel: nat)
    requires Plays(g, round, maxRounds, fuel)
    requires var rest := Run(play, play(g, round).game, round + 1, maxRounds, fuel - 1);
             rest.game.gameOver ==> EndedWith(rest.game, rest.events)
    ensures var r := Run(play, g, round, maxRounds, fuel);
            r.game.gameOver ==> EndedWith(r.game, r.events)
  {
    var rr := play(g, round);
    var rest := Run(play, rr.game, round + 1, maxRounds, fuel - 1);
    assert Run(play, g, round, maxRounds, fuel) == Played(rest.game, rr.events + rest.events);
    if rest.game.gameOver {
      EndedWithAfter(rest.game, rr.events, rest.events);
    }
  }

  /** With a round limit, a run given enough rounds always finishes the game. */
  lemma {:induction false} RunTerminates(play: Round, maxRounds: int, g: Game, round: nat, fuel: nat)
    requires 0 < maxRounds < round + fuel
    ensures Run(play, g, round, maxRounds, fuel).game.gameOver
    decreases fuel
  {
    if !g.gameOver && TopCheck(g.players, round, maxRounds).None? {
      RunTerminates(play, maxRounds, play(g, round).game, round + 1, fuel - 1);
    }
  }

  /** The number of rounds started, counted by their `round_start` events. */
  function RoundsPlayed(evs: seq<Event>): (n: nat)
    ensures n <= |evs|
  {
    if |evs| == 0 then 0 else (if evs[0].RoundStart? then 1 else 0) + RoundsPlayed(evs[1..])
  }

  lemma {:induction false} RoundsPlayedAppend(a: seq<Event>, b: seq<Event>)
    ensures RoundsPlayed(a + b) == RoundsPlayed(a) + RoundsPlayed(b)
    decreases |a|
  {
    if |a| == 0 {
      assert a + b == b;
    } else {
      assert (a + b)[1..] == a[1..] + b;
      RoundsPlayedAppend(a[1..], b);
    }
  }

  lemma {:induction false} NoRoundStarts(evs: seq<Event>)
    requires forall j :: 0 <= j < |evs| ==> !evs[j].RoundStart?
    ensures RoundsPlayed(evs) == 0
    decreases |evs|
  {
    if |evs| > 0 {
      NoRoundStarts(evs[1..]);
    }
  }

  lemma OneRoundStart(evs: seq<Event>, start: Event, over: bool)
    requires RoundShaped(evs, start, over) && start.RoundStart?
    ensures RoundsPlayed(evs) == 1
  {
    NoRoundStarts(evs[1..]);
  }

  /** `n` rounds fit in `fuel` rounds and, under a round limit, in the
      rounds from `round` to the limit. */
  predicate WithinRounds(n: nat, round: nat, maxRounds: int, fuel: nat) {
    && n <= fuel
    && (0 < maxRounds ==> n <= if round <= maxRounds then maxRounds + 1 - round else 0)
  }

  lemma WithinRoundsStep(n: nat, round: nat, maxRounds: int, fuel: nat)
    requires fuel > 0 && WithinRounds(n, round + 1, maxRounds, fuel - 1)
    requires 0 < maxRounds ==> round <= maxRounds
    ensures WithinRounds(n + 1, round, maxRounds, fuel)
  {
  }

  /** A run plays at most one round per unit of fuel and, with a round
      limit, never more rounds than remain before the limit. */
  lemma {:induction false} RunRounds(play: Round, maxRounds: int, g: Game, round: nat, fuel: nat)
    requires PlaysRounds(play, maxRounds)
    ensures WithinRounds(RoundsPlayed(Run(play, g, round, maxRounds, fuel).events), round, maxRounds, fuel)
    decreases fuel, 1
  {
    if Plays(g, round, maxRounds, fuel) {
      RunRoundsStep(play, maxRounds, g, round, fuel);
    } else {
      var r := Run(play, g, round, maxRounds, fuel);
      if g.gameOver || TopCheck(g.players, round, maxRounds).None? {
        assert r == Played(g, []);
      } else {
        var reason := TopCheck(g.players, round, maxRounds).value;
        assert r == Played(Finish(g, reason), [EndEvent(g, reason)]);
        NoRoundStarts([EndEvent(g, reason)]);
      }
      assert RoundsPlayed(r.events) == 0;
    }
  }

  lemma {:induction false} RunRoundsStep(play: Round, maxRounds: int, g: Game, round: nat, fuel: nat)
    requires PlaysRounds(play, maxRounds) && Plays(g, round, maxRounds, fuel)
    ensures WithinRounds(RoundsPlayed(Run(play, g, round, maxRounds, fuel).events), round, maxRounds, fuel)
    decreases fuel, 0
  {
    var rr := play(g, round);
    var rest := Run(play, rr.game, round + 1, maxRounds, fuel - 1);
    RunRounds(play, maxRounds, rr.game, round + 1, fuel - 1);
    PlayedRoundShaped(play, maxRounds, g, round);
    RoundThenRest(rr.events, rr.events[0], rr.game.gameOver, rest.events);
    assert Run(play, g, round, maxRounds, fuel).events == rr.events + rest.events;
    WithinRoundsStep(RoundsPlayed(rest.events), round, maxRounds, fuel);
  }

  /** A round's events followed by more events start one more round. */
  lemma RoundThenRest(evs: seq<Event>, start: Event, over: bool, rest: seq<Event>)
    requires RoundShaped(evs, start, over) && start.RoundStart?
    ensures RoundsPlayed(evs + rest) == RoundsPlayed(rest) + 1
  {
    OneRoundStart(evs, start, over);
    RoundsPlayedAppend(evs, rest);
  }

  /** How the round of the app.py loop relates to that of the server.js
      loop on the same game: the same, except that where the server.js round
      leaves no undercover active, the app.py round also finishes the game
      and appends the `end` event. */
  ghost predicate RecheckRound(rT: RoundResult, rF: RoundResult) {
    && !rF.game.gameOver
    && (rT.game.gameOver ==>
          && ActiveUndercoverCount(rF.game.players) == 0
          && rT.game == Finish(rF.game, AllUndercoverFound)
          && rT.events == rF.events + [EndEvent(rF.game, AllUndercoverFound)])
    && (!rT.game.gameOver ==> rT == rF)
  }

  ghost predicate RecheckRounds(playT: Round, playF: Round) {
    forall g: Game, round: nat {:trigger RecheckRound(playT(g, round), playF(g, round))} ::
      !g.gameOver ==> RecheckRound(playT(g, round), playF(g, round))
  }

  lemma RecheckRoundOf(playT: Round, playF: Round, g: Game, round: nat)
    requires RecheckRounds(playT, playF) && !g.gameOver
    ensures RecheckRound(playT(g, round), playF(g, round))
  {
  }

  /** The engine's two variants of a round are so related. */
  lemma EngineRecheckRounds(reading: Reading, delib: Deliberation, maxRounds: int)
    requires Deliberates(delib, maxRounds)
    ensures RecheckRounds(RoundOf(Variant(reading, true), delib), RoundOf(Variant(reading, false), delib))
  {
    var playT := RoundOf(Variant(reading, true), delib);
    var playF := RoundOf(Variant(reading, false), delib);
    forall g: Game, round: nat | !g.gameOver
      ensures RecheckRound(playT(g, round), playF(g, round))
    {
      RecheckRoundHolds(reading, delib, maxRounds, g, round);
    }
  }

  lemma RecheckRoundHolds(reading: Reading, delib: Deliberation, maxRounds: int, g: Game, round: nat)
    requires Deliberates(delib, maxRounds) && !g.gameOver
    ensures RecheckRound(PlayRound(Variant(reading, true), delib, g, round), PlayRound(Variant(reading, false), delib, g, round))
  {
    Deliberated(delib, maxRounds, g, round);
    CloseRecheck(reading, delib(g, round));
  }

  lemma CloseRecheck(reading: Reading, d: RoundResult)
    requires !d.game.gameOver
    ensures RecheckRound(Close(Variant(reading, true), d), Close(Variant(reading, false), d))
  {
    var (hT, cT) := Resolve(Variant(reading, true), d.game, d.outcome);
    var (hF, cF) := Resolve(Variant(reading, false), d.game, d.outcome);
    if hT.gameOver {
      var x := d.outcome.target;
      var eliminated := Elimination(x, FindPlayer(d.game.players, x).value.name, d.game.votes);
      assert cT == [eliminated, EndEvent(hF, AllUndercoverFound)] && cF == [eliminated];
      assert d.events + cT == (d.events + cF) + [EndEvent(hF, AllUndercoverFound)];
    }
  }

  /** Ending the game right after the last undercover is eliminated
      (app.py) and leaving it to the next round's first check (server.js)
      give the same game and the same events: that check comes before the
      round limit, so the civilians win even after the final allowed round. */
  lemma {:induction false} RecheckAgrees(playT: Round, playF: Round, maxRounds: int, g: Game, round: nat, fuel: nat)
    requires RecheckRounds(playT, playF)
    ensures Run(playT, g, round, maxRounds, fuel) == Run(playF, g, round, maxRounds, fuel)
    decreases fuel, 1
  {
    if Plays(g, round, maxRounds, fuel) {
      RecheckStep(playT, playF, maxRounds, g, round, fuel);
    }
  }

  lemma {:induction false} RecheckStep(playT: Round, playF: Round, maxRounds: int, g: Game, round: nat, fuel: nat)
    requires RecheckRounds(playT, playF) && Plays(g, round, maxRounds, fuel)
    ensures Run(playT, g, round, maxRounds, fuel) == Run(playF, g, round, maxRounds, fuel)
    decreases fuel, 0
  {
    var rT := playT(g, round);
    var rF := playF(g, round);
    RecheckRoundOf(playT, playF, g, round);
    var restT := Run(playT, rT.game, round + 1, maxRounds, fuel - 1);
    var restF := Run(playF, rF.game, round + 1, maxRounds, fuel - 1);
    assert Run(playT, g, round, maxRounds, fuel) == Played(restT.game, rT.events + restT.events);
    assert Run(playF, g, round, maxRounds, fuel) == Played(restF.game, rF.events + restF.events);
    if rT.game.gameOver {
      assert restT == Played(rT.game, []);
      assert restF == Played(rT.game, [EndEvent(rF.game, AllUndercoverFound)]);
      assert rT.events + [] == rF.events + [EndEvent(rF.game, AllUndercoverFound)];
    } else {
      RecheckAgrees(playT, playF, maxRounds, rT.game, round + 1, fuel - 1);
    }
  }
}
