/** The `/run_game` handlers: read the request, clamp the settings, and
    stream a game with them. */
module Handlers {
  import opened Basics
  import opened Roster
  import opened Events
  import opened State
  import opened Settings
  import opened Engine
  import opened EngineProofs
  import opened GameProofs

  /** A game streamed with already clamped settings. */
  function PlayWith(v: Variant, s: Settings, ch: Choices, o: Oracle, fuel: nat): (r: Played)
    requires 1 <= s.undercover && 2 * s.undercover <= s.totalPlayers
  {
    StreamGame(v, s.totalPlayers as nat, s.undercover as nat, s.maxRounds, ch, o, fuel)
  }

  /** `run_game_stream` in app.py. */
  function RunGamePy(req: Request, ch: Choices, o: Oracle, fuel: nat): (r: Played)
  {
    PlayWith(PyVariant, ClampPy(ReadPy(req)), ch, o, fuel)
  }

  /** The `/run_game` route in server.js. */
  function RunGameJs(req: Request, ch: Choices, o: Oracle, fuel: nat): (r: Played)
  {
    PlayWith(JsVariant, ClampJs(ReadJs(req)), ch, o, fuel)
  }

  /** `run_game_stream` with the validation its comment describes. */
  function RunGamePyIntended(req: Request, ch: Choices, o: Oracle, fuel: nat): (r: Played)
  {
    PlayWith(PyVariant, ClampPyIntended(ReadPy(req)), ch, o, fuel)
  }

  /** A game with settings in range starts with 3 to 10 players of whom at
      least one and at most half are undercover, plays no more rounds than
      the limit when there is one, is over once enough rounds are available,
      and ends properly if it ends. */
  lemma PlayWithBounds(v: Variant, s: Settings, ch: Choices, o: Oracle, fuel: nat)
    requires 3 <= s.totalPlayers <= 10 && 1 <= s.undercover && 2 * s.undercover <= s.totalPlayers
    ensures var r := PlayWith(v, s, ch, o, fuel);
            && |r.events| >= 1 && r.events[0].Start?
            && |r.events[0].players| == s.totalPlayers
            && |UndercoverPlayers(r.events[0].players)| == s.undercover
            && RoundsPlayed(r.events) <= fuel
            && (0 < s.maxRounds ==> RoundsPlayed(r.events) <= s.maxRounds)
            && (0 < s.maxRounds <= fuel ==> r.game.gameOver)
            && (r.game.gameOver ==> EndedWith(r.game, r.events))
  {
    var n := s.totalPlayers as nat;
    var u := s.undercover as nat;
    GameKeeps(v, n, u, s.maxRounds, ch, o, fuel);
    GameEnds(v, n, u, s.maxRounds, ch, o, fuel);
    GameRounds(v, n, u, s.maxRounds, ch, o, fuel);
  }

  /** Whatever the request, app.py streams a game of 3 to 10 players, at
      least one and at most half of them undercover, that plays at most 20
      rounds under a round limit and is over once 20 rounds are available. */
  lemma PyBounded(req: Request, ch: Choices, o: Oracle, fuel: nat)
    ensures var r := RunGamePy(req, ch, o, fuel);
            && |r.events| >= 1 && r.events[0].Start?
            && 3 <= |r.events[0].players| <= 10
            && 1 <= |UndercoverPlayers(r.events[0].players)|
            && 2 * |UndercoverPlayers(r.events[0].players)| <= |r.events[0].players|
            && (ReadPy(req).maxRounds > 0 ==> RoundsPlayed(r.events) <= 20)
            && (ReadPy(req).maxRounds > 0 && fuel >= 20 ==> r.game.gameOver)
  {
    PlayWithBounds(PyVariant, ClampPy(ReadPy(req)), ch, o, fuel);
  }

  /** The same holds of server.js, where the undercover are always fewer
      than half. */
  lemma JsBounded(req: Request, ch: Choices, o: Oracle, fuel: nat)
    ensures var r := RunGameJs(req, ch, o, fuel);
            && |r.events| >= 1 && r.events[0].Start?
            && 3 <= |r.events[0].players| <= 10
            && 1 <= |UndercoverPlayers(r.events[0].players)|
            && 2 * |UndercoverPlayers(r.events[0].players)| < |r.events[0].players|
            && (ReadJs(req).maxRounds > 0 ==> RoundsPlayed(r.events) <= 20)
            && (ReadJs(req).maxRounds > 0 && fuel >= 20 ==> r.game.gameOver)
  {
    PlayWithBounds(JsVariant, ClampJs(ReadJs(req)), ch, o, fuel);
  }

  /** server.js always plays round 1 when it has a round to play: its
      validation leaves the civilians in the majority. */
  lemma JsPlaysFirstRound(req: Request, ch: Choices, o: Oracle, fuel: nat)
    requires 1 <= fuel
    ensures var r := RunGameJs(req, ch, o, fuel);
            |r.events| >= 2 && r.events[1].RoundStart? && r.events[1].round == 1
  {
    var s := ClampJs(ReadJs(req));
    FairStartPlaysRound(JsVariant, s.totalPlayers as nat, s.undercover as nat, s.maxRounds, ch, o, fuel);
  }

  /** In app.py, an even player count with half of them undercover passes
      the validation, and the game is then over at the first check, before
      anybody speaks, with the undercover winning. */
  lemma PyParityEndsAtOnce(req: Request, ch: Choices, o: Oracle, fuel: nat)
    ensures var s := ClampPy(ReadPy(req));
            var r := RunGamePy(req, ch, o, fuel);
            2 * s.undercover == s.totalPlayers ==>
              |r.events| == 2 && r.events[1].End? && r.game.winner == Some(Undercover)
  {
    var s := ClampPy(ReadPy(req));
    if 2 * s.undercover == s.totalPlayers {
      ParityEndsAtOnce(PyVariant, s.totalPlayers as nat, s.undercover as nat, s.maxRounds, ch, o, fuel);
    }
  }

  /** A request for four players with two undercover is such a request. */
  lemma PyFourWithTwo(ch: Choices, o: Oracle, fuel: nat)
    ensures var r := RunGamePy(Request(Some(4), Some(2), None), ch, o, fuel);
            |r.events| == 2 && r.events[1].End? && r.game.winner == Some(Undercover)
  {
    assert ClampPy(ReadPy(Request(Some(4), Some(2), None))) == Settings(4, 2, 5);
    PyParityEndsAtOnce(Request(Some(4), Some(2), None), ch, o, fuel);
  }

  /** With the validation its comment describes, app.py also always plays
      round 1 when it has a round to play. */
  lemma PyIntendedPlaysFirstRound(req: Request, ch: Choices, o: Oracle, fuel: nat)
    requires 1 <= fuel
    ensures var r := RunGamePyIntended(req, ch, o, fuel);
            |r.events| >= 2 && r.events[1].RoundStart? && r.events[1].round == 1
  {
    var s := ClampPyIntended(ReadPy(req));
    FairStartPlaysRound(PyVariant, s.totalPlayers as nat, s.undercover as nat, s.maxRounds, ch, o, fuel);
  }
}
