/** Properties of whole games: what `stream_game_events` / `streamGameEvents`
    promise from the `start` event to the `end` event, whatever the language
    model replies and however the random choices fall. */
module GameProofs {
  import opened Basics
  import opened Roster
  import opened Events
  import opened State
  import opened Engine
  import opened EngineProofs

  /** A roster in which everybody is active is its own active roster. */
  lemma {:induction false} AllActive(ps: seq<Player>)
    requires forall i :: 0 <= i < |ps| ==> ps[i].active
    ensures ActivePlayers(ps) == ps
    ensures ActiveUndercoverCount(ps) == |UndercoverPlayers(ps)|
    ensures ActiveCivilianCount(ps) == |CivilianPlayers(ps)|
  {
    if |ps| > 0 {
      AllActive(ps[1..]);
      assert ps == [ps[0]] + ps[1..];
    }
  }

  /** The checks at the top of round 1 look only at the requested counts:
      no undercover ends the game for the civilians, undercover not
      outnumbered ends it for the undercover, and otherwise round 1 is
      played, whatever the round limit. */
  lemma OpeningCheck(n: nat, u: nat, ch: Choices, maxRounds: int)
    requires u <= n
    ensures var g := InitializeGame(n, u, ch);
            TopCheck(g.players, 1, maxRounds) ==
              if u == 0 then Some(AllUndercoverFound)
              else if n - u <= u then Some(UndercoverMajority)
              else None
  {
    AllActive(InitializeGame(n, u, ch).players);
  }

  /** The game opens with the `start` event carrying the dealt roster.  From
      then on players are only ever deactivated, the ids stay 1..n, the
      roster keeps its `u` undercover and `n - u` civilians, the discussion
      log only grows and the words stay as dealt. */
  lemma GameKeeps(v: Variant, n: nat, u: nat, maxRounds: int, ch: Choices, o: Oracle, fuel: nat)
    requires u <= n
    ensures var g := InitializeGame(n, u, ch);
            var r := StreamGame(v, n, u, maxRounds, ch, o, fuel);
            && |r.events| >= 1 && r.events[0] == Start(g.players)
            && LaterRoster(g.players, r.game.players) && IdsInOrder(r.game.players)
            && |r.game.players| == n
            && |UndercoverPlayers(r.game.players)| == u && |CivilianPlayers(r.game.players)| == n - u
            && r.game.words == g.words
            && r.game.undercoverWord == g.undercoverWord && r.game.civilianWord == g.civilianWord
  {
    var g := InitializeGame(n, u, ch);
    var delib := OracleDeliberation(v.reading, maxRounds, o);
    EngineRoundsOk(v, delib, maxRounds);
    RunKeeps(RoundOf(v, delib), maxRounds, g, 1, fuel);
  }

  /** A game that is over ended properly: its winner agrees with the reason
      in its summary, the civilians won exactly when no undercover is left
      active, and the last event is the matching `end` event. */
  lemma GameEnds(v: Variant, n: nat, u: nat, maxRounds: int, ch: Choices, o: Oracle, fuel: nat)
    requires u <= n
    ensures var r := StreamGame(v, n, u, maxRounds, ch, o, fuel);
            r.game.gameOver ==> EndedWith(r.game, r.events)
  {
    var g := InitializeGame(n, u, ch);
    var delib := OracleDeliberation(v.reading, maxRounds, o);
    var rest := Run(RoundOf(v, delib), g, 1, maxRounds, fuel);
    EngineRoundsOk(v, delib, maxRounds);
    RunEnding(RoundOf(v, delib), maxRounds, g, 1, fuel);
    if rest.game.gameOver {
      EndedWithAfter(rest.game, [Start(g.players)], rest.events);
    }
  }

  /** A game plays at most `maxRounds` rounds when there is a round limit,
      and with enough rounds available it is always over. */
  lemma GameRounds(v: Variant, n: nat, u: nat, maxRounds: int, ch: Choices, o: Oracle, fuel: nat)
    requires u <= n
    ensures var r := StreamGame(v, n, u, maxRounds, ch, o, fuel);
            && RoundsPlayed(r.events) <= fuel
            && (0 < maxRounds ==> RoundsPlayed(r.events) <= maxRounds)
            && (0 < maxRounds <= fuel ==> r.game.gameOver)
  {
    var g := InitializeGame(n, u, ch);
    var play := RoundOf(v, OracleDeliberation(v.reading, maxRounds, o));
    var rest := Run(play, g, 1, maxRounds, fuel);
    EngineRoundsOk(v, OracleDeliberation(v.reading, maxRounds, o), maxRounds);
    RunRounds(play, maxRounds, g, 1, fuel);
    RoundsPlayedAppend([Start(g.players)], rest.events);
    if 0 < maxRounds <= fuel {
      RunTerminates(play, maxRounds, g, 1, fuel);
    }
  }

  /** Ending the game right after an elimination that leaves no undercover
      (app.py) or at the next round's first check (server.js) makes no
      difference to the game or to the events it streams. */
  lemma RecheckInvisible(reading: Reading, n: nat, u: nat, maxRounds: int, ch: Choices, o: Oracle, fuel: nat)
    requires u <= n
    ensures StreamGame(Variant(reading, true), n, u, maxRounds, ch, o, fuel)
         == StreamGame(Variant(reading, false), n, u, maxRounds, ch, o, fuel)
  {
    var g := InitializeGame(n, u, ch);
    var delib := OracleDeliberation(reading, maxRounds, o);
    EngineRecheckRounds(reading, delib, maxRounds);
    RecheckAgrees(RoundOf(Variant(reading, true), delib), RoundOf(Variant(reading, false), delib), maxRounds, g, 1, fuel);
  }

  /** When the undercover are at least as many as the civilians from the
      deal, the game is over at the first check: nobody speaks or votes, and
      the undercover win. */
  lemma ParityEndsAtOnce(v: Variant, n: nat, u: nat, maxRounds: int, ch: Choices, o: Oracle, fuel: nat)
    requires 1 <= u <= n <= 2 * u
    ensures var g := InitializeGame(n, u, ch);
            var r := StreamGame(v, n, u, maxRounds, ch, o, fuel);
            && r.events == [Start(g.players), EndEvent(g, UndercoverMajority)]
            && r.game == Finish(g, UndercoverMajority)
            && r.game.winner == Some(Undercover)
  {
    OpeningCheck(n, u, ch, maxRounds);
  }

  /** When the civilians start in the majority and a round is available,
      round 1 is played: the event after `start` is round 1's `round_start`
      naming every player. */
  lemma FairStartPlaysRound(v: Variant, n: nat, u: nat, maxRounds: int, ch: Choices, o: Oracle, fuel: nat)
    requires 1 <= u && 2 * u < n && 1 <= fuel
    ensures var g := InitializeGame(n, u, ch);
            var r := StreamGame(v, n, u, maxRounds, ch, o, fuel);
            |r.events| >= 2 && r.events[1] == RoundStart(1, IdsOf(g.players), maxRounds)
  {
    var g := InitializeGame(n, u, ch);
    var delib := OracleDeliberation(v.reading, maxRounds, o);
    var play := RoundOf(v, delib);
    OpeningCheck(n, u, ch, maxRounds);
    AllActive(g.players);
    EngineRoundsOk(v, delib, maxRounds);
    PlayedRound(play, maxRounds, g, 1);
    var rr := play(g, 1);
    var rest := Run(play, rr.game, 2, maxRounds, fuel - 1);
    assert Run(play, g, 1, maxRounds, fuel) == Played(rest.game, rr.events + rest.events);
    assert ([Start(g.players)] + (rr.events + rest.events))[1] == rr.events[0];
  }
}
