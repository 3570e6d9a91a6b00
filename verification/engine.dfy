/** The round loop of `stream_game_events` (app.py) and `streamGameEvents`
    (server.js) as a pure state machine.  The language model is an oracle
    from prompts to fragment lists, and the parser's random fallback is a
    pick per (round, voter).  The two implementations differ in three ways,
    collected in a `Variant`. */
module Engine {
  import opened Basics
  import opened Roster
  import opened Events
  import opened Turn
  import opened VoteParser
  import opened Tally
  import opened Prompts
  import opened State

  /** How a vote is read.  `rule`: which sentence the loosest vote pattern
      inspects.  `fromChunks`: app.py reads a vote from the `message_chunk`
      payloads it forwarded; server.js reads the content the turn returned. */
  datatype Reading = Reading(rule: SentenceRule, fromChunks: bool)

  /** `recheck`: app.py ends the game right after an elimination that leaves
      no undercover; server.js leaves that to the next round's checks. */
  datatype Variant = Variant(reading: Reading, recheck: bool)

  const PyVariant: Variant := Variant(Reading(FinalSegment, true), true)
  const JsVariant: Variant := Variant(Reading(PenultimateSegment, false), false)

  /** The language model's reply to each prompt, and the index the parser's
      random fallback would draw for a voter in a round. */
  datatype Oracle = Oracle(reply: Prompt -> seq<Fragment>, pick: (nat, nat) -> nat)

  predicate TurnEvent(e: Event) {
    e.MessageStart? || e.ReasoningChunk? || e.MessageChunk? || e.MessageEnd?
  }

  /** The number of active undercover players, counted in one pass. */
  function ActiveUndercoverCount(ps: seq<Player>): nat {
    if |ps| == 0 then 0
    else (if ps[0].active && ps[0].isUndercover then 1 else 0) + ActiveUndercoverCount(ps[1..])
  }

  /** The number of active civilians, counted in one pass. */
  function ActiveCivilianCount(ps: seq<Player>): nat {
    if |ps| == 0 then 0
    else (if ps[0].active && !ps[0].isUndercover then 1 else 0) + ActiveCivilianCount(ps[1..])
  }

  /** The counts are the sizes of `[p for p in active_players if
      p["is_undercover"]]` and of its complement among the active players. */
  lemma {:induction false} ActiveCountsAgree(ps: seq<Player>)
    ensures ActiveUndercoverCount(ps) == |UndercoverPlayers(ActivePlayers(ps))|
    ensures ActiveCivilianCount(ps) == |CivilianPlayers(ActivePlayers(ps))|
  {
    if |ps| > 0 {
      ActiveCountsAgree(ps[1..]);
      var rest := ActivePlayers(ps[1..]);
      if ps[0].active {
        assert ActivePlayers(ps) == [ps[0]] + rest;
        assert ([ps[0]] + rest)[1..] == rest;
      } else {
        assert ActivePlayers(ps) == rest;
      }
    }
  }

  function NamesOf(ps: seq<Player>): (names: seq<string>)
    ensures |names| == |ps| && forall i :: 0 <= i < |ps| ==> names[i] == ps[i].name
  {
    if |ps| == 0 then [] else [ps[0].name] + NamesOf(ps[1..])
  }

  /** The checks at the top of every round, in their fixed order: no active
      undercover, then undercover no longer outnumbered, then the round limit. */
  function TopCheck(ps: seq<Player>, round: nat, maxRounds: int): (r: Option<EndReason>)
    ensures r == Some(AllUndercoverFound) <==> ActiveUndercoverCount(ps) == 0
    ensures r == Some(UndercoverMajority) <==>
              0 < ActiveUndercoverCount(ps) && ActiveCivilianCount(ps) <= ActiveUndercoverCount(ps)
    ensures r == Some(RoundLimitReached(maxRounds)) <==>
              0 < ActiveUndercoverCount(ps) < ActiveCivilianCount(ps) && 0 < maxRounds < round
    ensures r.None? <==>
              0 < ActiveUndercoverCount(ps) < ActiveCivilianCount(ps) && (maxRounds <= 0 || round <= maxRounds)
  {
    var au := ActiveUndercoverCount(ps);
    var ac := ActiveCivilianCount(ps);
    if au == 0 then Some(AllUndercoverFound)
    else if au >= ac then Some(UndercoverMajority)
    else if maxRounds > 0 && round > maxRounds then Some(RoundLimitReached(maxRounds))
    else None
  }

  /** The game as it ends for `reason`. */
  function Finish(g: Game, reason: EndReason): Game {
    g.(gameOver := true, winner := Some(WinnerOf(reason)),
       summary := Some(Summary(reason, g.undercoverWord, g.civilianWord)))
  }

  /** The `end` event for `reason`: winner, summary, roster and last votes. */
  function EndEvent(g: Game, reason: EndReason): Event {
    End(WinnerOf(reason), Summary(reason, g.undercoverWord, g.civilianWord), g.players, g.votes)
  }

  /** The entries a pass adds, one per player in order, tagged with the round. */
  predicate Tagged(added: seq<Entry>, ps: seq<Player>, round: nat) {
    |added| == |ps| && forall j :: 0 <= j < |ps| ==> added[j].playerId == ps[j].id && added[j].round == round
  }

  predicate TurnEvents(evs: seq<Event>) {
    forall j :: 0 <= j < |evs| ==> TurnEvent(evs[j])
  }

  lemma TurnEventsAppend(a: seq<Event>, b: seq<Event>)
    requires TurnEvents(a) && TurnEvents(b)
    ensures TurnEvents(a + b)
  {
  }

  /** The events of one turn, and the entry it adds to the log. */
  datatype Pass = Pass(events: seq<Event>, added: seq<Entry>)

  /** The speaking pass: each player active at round start describes their
      word, reading the transcript of everything said so far (`log`). */
  function SpeakPass(speakers: seq<Player>, names: string, round: nat, o: Oracle, log: seq<Entry>): (r: Pass)
    ensures Tagged(r.added, speakers, round)
    ensures TurnEvents(r.events)
    decreases |speakers|
  {
    if |speakers| == 0 then Pass([], [])
    else
      var p := speakers[0];
      var t := Speak(p, names, round, o, log);
      var rest := SpeakPass(speakers[1..], names, round, o, log + [t.entry]);
      TurnEventsAppend(t.events, rest.events);
      Pass(t.events + rest.events, [t.entry] + rest.added)
  }

  /** One speaker's turn: the reply to the describing prompt. */
  function Speak(p: Player, names: string, round: nat, o: Oracle, log: seq<Entry>): (t: TurnResult)
    ensures t.entry.playerId == p.id && t.entry.round == round
    ensures TurnEvents(t.events)
  {
    RunTurn(o.reply(Describe(round, p.id, p.word, names, OrPlaceholder(SpeechHistory(log)))), p.id, p.name, round)
  }

  /** What a ballot may be: nothing exactly when the voter has nobody else
      to vote for, otherwise another active player. */
  predicate LegalBallot(b: Option<nat>, voter: nat, ids: seq<nat>) {
    && (b.None? <==> forall x :: x in ids ==> x == voter)
    && (b.Some? ==> b.value in ids && b.value != voter)
  }

  /** The text a vote is read from. */
  function VoteText(v: Reading, t: TurnResult): string {
    if v.fromChunks then ChunkText(t.events) else t.entry.content
  }

  datatype Voting = Voting(events: seq<Event>, added: seq<Entry>, cast: seq<Option<nat>>)

  /** The voting pass: each player active at round start reads the transcript
      taken before voting began and names someone; the reply is parsed into a
      ballot.  The ballots come back in voter order. */
  function VotePass(v: Reading, voters: seq<Player>, ids: seq<nat>, round: nat, history: string,
                    o: Oracle): (r: Voting)
    ensures Tagged(r.added, voters, round)
    ensures TurnEvents(r.events)
    ensures |r.cast| == |voters| && forall j :: 0 <= j < |voters| ==> LegalBallot(r.cast[j], voters[j].id, ids)
    decreases |voters|
  {
    if |voters| == 0 then Voting([], [], [])
    else
      var (t, b) := CastBallot(v, voters[0], ids, round, history, o);
      var rest := VotePass(v, voters[1..], ids, round, history, o);
      TurnEventsAppend(t.events, rest.events);
      Voting(t.events + rest.events, [t.entry] + rest.added, [b] + rest.cast)
  }

  /** One voter's turn: the reply to the ballot prompt and the ballot parsed from it. */
  function CastBallot(v: Reading, p: Player, ids: seq<nat>, round: nat, history: string, o: Oracle): (r: (TurnResult, Option<nat>))
    ensures r.0.entry.playerId == p.id && r.0.entry.round == round
    ensures TurnEvents(r.0.events)
    ensures LegalBallot(r.1, p.id, ids)
  {
    var t := RunTurn(o.reply(Ballot(p.id, p.word, Targets(p.id, ids), history)), p.id, p.name, round);
    (t, ParseVote(v.rule, VoteText(v, t), p.id, ids, o.pick(round, p.id)))
  }

  /** `votes[player['id']] = voted_id` over the voter ids in order: the map
      from each voter to their ballot, where a later ballot under the same
      id would replace an earlier one. */
  function ByVoter(voterIds: seq<nat>, cast: seq<Option<nat>>): (m: map<nat, Option<nat>>)
    requires |cast| == |voterIds|
    ensures forall k :: k in m <==> k in voterIds
    ensures forall k :: k in m ==> exists j :: 0 <= j < |voterIds| && voterIds[j] == k && m[k] == cast[j]
    decreases |voterIds|
  {
    if |voterIds| == 0 then map[]
    else
      var rest := ByVoter(voterIds[1..], cast[1..]);
      var m := map[voterIds[0] := cast[0]] + rest;
      assert forall k :: k in m ==> exists j :: 0 <= j < |voterIds| && voterIds[j] == k && m[k] == cast[j] by {
        forall k | k in m ensures exists j :: 0 <= j < |voterIds| && voterIds[j] == k && m[k] == cast[j] {
          if k in rest {
            var j :| 0 <= j < |voterIds[1..]| && voterIds[1..][j] == k && rest[k] == cast[1..][j];
            assert voterIds[j + 1] == k && m[k] == cast[j + 1];
          } else {
            assert voterIds[0] == k && m[k] == cast[0];
          }
        }
      }
      m
  }

  /** With distinct voter ids, the map holds each voter's own ballot. */
  lemma {:induction false} ByVoterDistinct(voterIds: seq<nat>, cast: seq<Option<nat>>)
    requires |cast| == |voterIds|
    requires forall i, j :: 0 <= i < j < |voterIds| ==> voterIds[i] != voterIds[j]
    ensures forall j :: 0 <= j < |voterIds| ==> ByVoter(voterIds, cast)[voterIds[j]] == cast[j]
    decreases |voterIds|
  {
    if |voterIds| > 0 {
      ByVoterDistinct(voterIds[1..], cast[1..]);
      var rest := ByVoter(voterIds[1..], cast[1..]);
      assert ByVoter(voterIds, cast) == map[voterIds[0] := cast[0]] + rest;
      assert voterIds[0] !in rest by {
        forall i | 0 <= i < |voterIds[1..]| ensures voterIds[1..][i] != voterIds[0] {
          assert voterIds[1..][i] == voterIds[i + 1];
        }
      }
      forall j | 0 < j < |voterIds| ensures ByVoter(voterIds, cast)[voterIds[j]] == cast[j] {
        assert voterIds[1..][j - 1] == voterIds[j] && cast[1..][j - 1] == cast[j];
      }
    }
  }

  /** Every key of the vote map holds a legal ballot for that voter. */
  lemma ByVoterLegal(voterIds: seq<nat>, cast: seq<Option<nat>>, ids: seq<nat>)
    requires |cast| == |voterIds| && forall j :: 0 <= j < |voterIds| ==> LegalBallot(cast[j], voterIds[j], ids)
    ensures forall k :: k in ByVoter(voterIds, cast) ==> LegalBallot(ByVoter(voterIds, cast)[k], k, ids)
  {
    var m := ByVoter(voterIds, cast);
    forall k | k in m ensures LegalBallot(m[k], k, ids) {
      var j :| 0 <= j < |voterIds| && voterIds[j] == k && m[k] == cast[j];
    }
  }

  /** The ballots that name somebody, in voter order: `x` is counted once
      for every ballot naming it. */
  function Cast(bs: seq<Option<nat>>): (vs: seq<nat>)
    ensures forall x :: x in vs <==> Some(x) in bs
    ensures forall x :: multiset(vs)[x] == multiset(bs)[Some(x)]
    ensures |vs| <= |bs|
  {
    if |bs| == 0 then []
    else
      assert multiset(bs) == multiset([bs[0]]) + multiset(bs[1..]) by {
        assert bs == [bs[0]] + bs[1..];
      }
      (if bs[0].Some? then [bs[0].value] else []) + Cast(bs[1..])
  }

  predicate Distinct(ids: seq<nat>) {
    forall i, j :: 0 <= i < j < |ids| ==> ids[i] != ids[j]
  }

  /** `votes.values()`: the vote map read back in the order of the voter ids. */
  function BallotsInOrder(ids: seq<nat>, votes: map<nat, Option<nat>>): seq<Option<nat>>
    requires forall k :: k in ids ==> k in votes
  {
    seq(|ids|, j requires 0 <= j < |ids| => votes[ids[j]])
  }

  /** The number of voters in the vote map who named `x`. */
  function VotesFor(votes: map<nat, Option<nat>>, x: nat): nat {
    |set k | k in votes && votes[k] == Some(x)|
  }

  /** With distinct voter ids, reading the vote map back in voter order
      gives the ballots as they were cast. */
  lemma ReadBack(ids: seq<nat>, cast: seq<Option<nat>>)
    requires |cast| == |ids| && Distinct(ids)
    ensures BallotsInOrder(ids, ByVoter(ids, cast)) == cast
  {
    ByVoterDistinct(ids, cast);
  }

  /** The ids of the active players of a roster whose ids increase are distinct. */
  lemma ActiveIdsDistinct(ps: seq<Player>)
    requires IdsIncrease(ps)
    ensures Distinct(IdsOf(ActivePlayers(ps)))
  {
    var a := ActivePlayers(ps);
    assert IdsIncrease(a);
    forall i, j | 0 <= i < j < |a| ensures IdsOf(a)[i] != IdsOf(a)[j] {
      assert a[i].id < a[j].id;
    }
  }

  /** The round's ballots read back from its vote map, when voter ids are distinct. */
  lemma ActiveReadBack(ps: seq<Player>, cast: seq<Option<nat>>)
    requires |cast| == |ActivePlayers(ps)|
    ensures IdsIncrease(ps) ==> BallotsInOrder(IdsOf(ActivePlayers(ps)), ByVoter(IdsOf(ActivePlayers(ps)), cast)) == cast
  {
    if IdsIncrease(ps) {
      ActiveIdsDistinct(ps);
      ReadBack(IdsOf(ActivePlayers(ps)), cast);
    }
  }

  /** The first player with id `x`, as `next(...)` and `find` return it. */
  function FindPlayer(ps: seq<Player>, x: nat): (r: Option<Player>)
    ensures r.Some? ==> r.value in ps && r.value.id == x
    ensures r.None? <==> forall p :: p in ps ==> p.id != x
  {
    if |ps| == 0 then None
    else if ps[0].id == x then Some(ps[0])
    else FindPlayer(ps[1..], x)
  }

  /** The resolution of a tally: no votes or a tie changes nobody; a unique
      maximum deactivates that player and, under `recheck`, ends the game
      at once if no undercover remains. */
  function Resolve(v: Variant, g: Game, outcome: Outcome): (r: (Game, seq<Event>))
    requires !g.gameOver
    ensures r.0 == g.(players := r.0.players, gameOver := r.0.gameOver, winner := r.0.winner, summary := r.0.summary)
    ensures LaterRoster(g.players, r.0.players)
    ensures outcome.NoVotes? ==> r == (g, [NoVotesCast(g.votes)])
    ensures outcome.Tie? ==> r == (g, [TieVote(outcome.tied, outcome.count, g.votes)])
    ensures outcome.Unique? && FindPlayer(g.players, outcome.target).Some? ==>
              && r.0.players == Deactivate(g.players, outcome.target)
              && |r.1| >= 1 && r.1[0] == Elimination(outcome.target, FindPlayer(g.players, outcome.target).value.name, g.votes)
    ensures r.0.gameOver <==>
              v.recheck && outcome.Unique? && FindPlayer(g.players, outcome.target).Some? && ActiveUndercoverCount(r.0.players) == 0
    ensures r.0.gameOver ==>
              var h := g.(players := r.0.players);
              r.0 == Finish(h, AllUndercoverFound) && |r.1| == 2 && r.1[1] == EndEvent(h, AllUndercoverFound)
    ensures !r.0.gameOver ==> |r.1| <= 1 && r.0.winner == g.winner && r.0.summary == g.summary
  {
    match outcome
    case NoVotes => (g, [NoVotesCast(g.votes)])
    case Tie(tied, count) => (g, [TieVote(tied, count, g.votes)])
    case Unique(x) =>
      match FindPlayer(g.players, x)
      case None => (g, [])
      case Some(p) =>
        var g1 := g.(players := Deactivate(g.players, x));
        var eliminated := Elimination(x, p.name, g.votes);
        if v.recheck && ActiveUndercoverCount(g1.players) == 0 then
          (Finish(g1, AllUndercoverFound), [eliminated, EndEvent(g1, AllUndercoverFound)])
        else (g1, [eliminated])
  }

  datatype RoundResult = RoundResult(game: Game, events: seq<Event>, outcome: Outcome)

  /** The parts of one round before resolution: the speaking pass, the
      voting pass and the tally, over the players active at round start. */
  function Deliberate(v: Reading, g: Game, round: nat, maxRounds: int, o: Oracle): (r: RoundResult)
    ensures r.game == g.(currentRound := round, discussion := r.game.discussion, votes := r.game.votes)
    ensures |r.game.discussion| == |g.discussion| + 2 * |ActivePlayers(g.players)|
    ensures r.game.discussion[..|g.discussion|] == g.discussion
    ensures Tagged(r.game.discussion[|g.discussion|..], ActivePlayers(g.players) + ActivePlayers(g.players), round)
    ensures forall k :: k in r.game.votes <==> k in IdsOf(ActivePlayers(g.players))
    ensures forall k :: k in r.game.votes ==> LegalBallot(r.game.votes[k], k, IdsOf(ActivePlayers(g.players)))
    ensures r.outcome.Unique? ==> r.outcome.target in IdsOf(ActivePlayers(g.players))
    ensures IdsIncrease(g.players) ==>
              r.outcome == TallyVotes(Cast(BallotsInOrder(IdsOf(ActivePlayers(g.players)), r.game.votes)))
    ensures |r.events| >= 2 && r.events[0] == RoundStart(round, IdsOf(ActivePlayers(g.players)), maxRounds)
    ensures forall j :: 0 < j < |r.events| ==> !r.events[j].RoundStart? && !r.events[j].End?
  {
    var active := ActivePlayers(g.players);
    var ids := IdsOf(active);
    var speak := SpeakPass(active, Join(", ", NamesOf(active)), round, o, g.discussion);
    var spoken := g.discussion + speak.added;
    var vote := VotePass(v, active, ids, round, BallotHistory(spoken), o);
    var log := spoken + vote.added;
    TaggedAppend(speak.added, active, vote.added, active, round);
    AppendParts(g.discussion, speak.added, vote.added);
    var votes := ByVoter(ids, vote.cast);
    ByVoterLegal(ids, vote.cast, ids);
    CastIsLegal(vote.cast, active, ids);
    ActiveReadBack(g.players, vote.cast);
    var events := [RoundStart(round, ids, maxRounds)] + speak.events + [VotingPhaseStart(round)] + vote.events;
    NoRoundStartAfterFirst(round, ids, maxRounds, speak.events, vote.events);
    RoundResult(g.(currentRound := round, discussion := log, votes := votes),
                events, TallyVotes(Cast(vote.cast)))
  }

  lemma AppendParts<T>(a: seq<T>, b: seq<T>, c: seq<T>)
    ensures (a + b + c)[..|a|] == a && (a + b + c)[|a|..] == b + c
  {
  }

  lemma TaggedAppend(a: seq<Entry>, ps: seq<Player>, b: seq<Entry>, qs: seq<Player>, round: nat)
    requires Tagged(a, ps, round) && Tagged(b, qs, round)
    ensures Tagged(a + b, ps + qs, round)
  {
  }

  /** Every ballot that names somebody names one of the voters' ids. */
  lemma CastIsLegal(cast: seq<Option<nat>>, active: seq<Player>, ids: seq<nat>)
    requires |cast| == |active| && forall j :: 0 <= j < |active| ==> LegalBallot(cast[j], active[j].id, ids)
    ensures forall x :: x in Cast(cast) ==> x in ids
    ensures TallyVotes(Cast(cast)).Unique? ==> TallyVotes(Cast(cast)).target in ids
  {
    forall x | x in Cast(cast) ensures x in ids {
      var j :| 0 <= j < |cast| && cast[j] == Some(x);
      assert LegalBallot(cast[j], active[j].id, ids);
    }
  }

  /** The round's events hold one `round_start`, first, and no `end`. */
  lemma NoRoundStartAfterFirst(round: nat, ids: seq<nat>, maxRounds: int, spoken: seq<Event>, voted: seq<Event>)
    requires TurnEvents(spoken) && TurnEvents(voted)
    ensures var events := [RoundStart(round, ids, maxRounds)] + spoken + [VotingPhaseStart(round)] + voted;
            forall j :: 0 < j < |events| ==> !events[j].RoundStart? && !events[j].End?
  {
    var events := [RoundStart(round, ids, maxRounds)] + spoken + [VotingPhaseStart(round)] + voted;
    forall j | 0 < j < |events| ensures !events[j].RoundStart? && !events[j].End? {
      if j <= |spoken| {
        assert events[j] == spoken[j - 1];
      } else if j > |spoken| + 1 {
        assert events[j] == voted[j - |spoken| - 2];
      }
    }
  }

  /** What any deliberation of a round guarantees, whoever speaks and votes:
      only the round counter, the log and the votes change; the log gains a
      description and a vote entry from each player active at round start;
      the votes are keyed by those players and legal; the outcome is the
      tally of the recorded votes; a unique maximum names one of them; and
      the round's events open with `round_start`. */
  ghost predicate DeliberationOk(g: Game, round: nat, maxRounds: int, d: RoundResult) {
    var active := ActivePlayers(g.players);
    && d.game == g.(currentRound := round, discussion := d.game.discussion, votes := d.game.votes)
    && |d.game.discussion| == |g.discussion| + 2 * |active|
    && d.game.discussion[..|g.discussion|] == g.discussion
    && Tagged(d.game.discussion[|g.discussion|..], active + active, round)
    && (forall k :: k in d.game.votes <==> k in IdsOf(active))
    && (forall k :: k in d.game.votes ==> LegalBallot(d.game.votes[k], k, IdsOf(active)))
    && (d.outcome.Unique? ==> d.outcome.target in IdsOf(active))
    && (IdsIncrease(g.players) ==> d.outcome == TallyVotes(Cast(BallotsInOrder(IdsOf(active), d.game.votes))))
    && |d.events| >= 2 && d.events[0] == RoundStart(round, IdsOf(active), maxRounds)
    && (forall j :: 0 < j < |d.events| ==> !d.events[j].RoundStart? && !d.events[j].End?)
  }

  /** The speaking and voting of a round, as a function of the game and the
      round number; in a game it is `Deliberate` with the model's replies. */
  type Deliberation = (Game, nat) -> RoundResult

  ghost predicate Deliberates(delib: Deliberation, maxRounds: int) {
    forall g: Game, round: nat {:trigger DeliberationOk(g, round, maxRounds, delib(g, round))} ::
      !g.gameOver ==> DeliberationOk(g, round, maxRounds, delib(g, round))
  }

  function OracleDeliberation(reading: Reading, maxRounds: int, o: Oracle): (delib: Deliberation)
    ensures Deliberates(delib, maxRounds)
  {
    OracleRoundsOk(reading, maxRounds, o);
    (g: Game, round: nat) => Deliberate(reading, g, round, maxRounds, o)
  }

  lemma OracleRoundsOk(reading: Reading, maxRounds: int, o: Oracle)
    ensures forall g: Game, round: nat :: !g.gameOver ==> DeliberationOk(g, round, maxRounds, Deliberate(reading, g, round, maxRounds, o))
  {
    forall g: Game, round: nat | !g.gameOver
      ensures DeliberationOk(g, round, maxRounds, Deliberate(reading, g, round, maxRounds, o))
    {
      OracleRoundOk(reading, g, round, maxRounds, o);
    }
  }

  lemma OracleRoundOk(reading: Reading, g: Game, round: nat, maxRounds: int, o: Oracle)
    requires !g.gameOver
    ensures DeliberationOk(g, round, maxRounds, Deliberate(reading, g, round, maxRounds, o))
  {
  }

  /** The resolution of a deliberated round: its events are followed by
      those of the tally's resolution.  A deliberation never finishes the
      game (`Deliberates`); the guard only keeps `Resolve` total over
      arbitrary deliberations. */
  function Close(v: Variant, d: RoundResult): (r: RoundResult)
  {
    if d.game.gameOver then d
    else
      var (g2, closing) := Resolve(v, d.game, d.outcome);
      RoundResult(g2, d.events + closing, d.outcome)
  }

  /** One round: deliberation, then resolution of the tally. */
  function PlayRound(v: Variant, delib: Deliberation, g: Game, round: nat): (r: RoundResult)
  {
    Close(v, delib(g, round))
  }

  /** One pass of the loop body after the checks: a round as a function of
      the game and the round number. */
  type Round = (Game, nat) -> RoundResult

  function RoundOf(v: Variant, delib: Deliberation): (play: Round)
    ensures forall g: Game, round: nat :: play(g, round) == PlayRound(v, delib, g, round)
  {
    (g: Game, round: nat) => PlayRound(v, delib, g, round)
  }

  datatype Played = Played(game: Game, events: seq<Event>)

  /** The `while not game_over` loop from round `round` on: the checks at
      the top of the round, then the round itself.  `fuel` bounds the number
      of rounds played, since a game without a round limit need not end. */
  function Run(play: Round, g: Game, round: nat, maxRounds: int, fuel: nat): (r: Played)
    decreases fuel
  {
    if g.gameOver then Played(g, [])
    else
      match TopCheck(g.players, round, maxRounds)
      case Some(reason) => Played(Finish(g, reason), [EndEvent(g, reason)])
      case None =>
        if fuel == 0 then Played(g, [])
        else
          var rr := play(g, round);
          var rest := Run(play, rr.game, round + 1, maxRounds, fuel - 1);
          Played(rest.game, rr.events + rest.events)
  }

  /** A whole game: initialisation, the `start` event, then rounds from 1. */
  function StreamGame(v: Variant, n: nat, u: nat, maxRounds: int, ch: Choices, o: Oracle, fuel: nat): (r: Played)
    requires u <= n
  {
    var g := InitializeGame(n, u, ch);
    var rest := Run(RoundOf(v, OracleDeliberation(v.reading, maxRounds, o)), g, 1, maxRounds, fuel);
    Played(rest.game, [Start(g.players)] + rest.events)
  }
}
