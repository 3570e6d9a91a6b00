/** The vocabulary the engine produces: discussion entries and the events of
    the stream, as values rather than serialised text. */
module Events {
  import opened Basics
  import opened Roster

  /** One discussion entry: who spoke, in which round, what they said and
      what they reasoned. */
  datatype Entry = Entry(playerId: nat, name: string, content: string, reasoning: string, round: nat)

  /** Why a game ended; together with both words it is the result summary. */
  datatype EndReason =
    | AllUndercoverFound    // civilians win
    | UndercoverMajority    // undercover win: no longer outnumbered
    | RoundLimitReached(maxRounds: int)  // undercover win: the round limit ran out

  datatype Summary = Summary(reason: EndReason, undercoverWord: string, civilianWord: string)

  function WinnerOf(reason: EndReason): Role {
    if reason.AllUndercoverFound? then Civilian else Undercover
  }

  datatype Event =
    | Start(players: seq<Player>)
    | RoundStart(round: nat, activeIds: seq<nat>, maxRounds: int)
    | MessageStart(playerId: nat, name: string)
    | ReasoningChunk(reasoning: string)
    | MessageChunk(content: string)
    | MessageEnd
    | VotingPhaseStart(round: nat)
    | NoVotesCast(votes: map<nat, Option<nat>>)
    | TieVote(tied: set<nat>, count: nat, votes: map<nat, Option<nat>>)
    | Elimination(playerId: nat, name: string, votes: map<nat, Option<nat>>)
    | End(winner: Role, summary: Summary, players: seq<Player>, votes: map<nat, Option<nat>>)

  /** The concatenated payloads of the `message_chunk` events: the text the
      app.py vote phase rebuilds from the events it forwards. */
  function ChunkText(evs: seq<Event>): string {
    if |evs| == 0 then ""
    else (if evs[0].MessageChunk? then evs[0].content else "") + ChunkText(evs[1..])
  }

  lemma {:induction false} ChunkTextAppend(a: seq<Event>, b: seq<Event>)
    ensures ChunkText(a + b) == ChunkText(a) + ChunkText(b)
  {
    if |a| > 0 {
      assert (a + b)[1..] == a[1..] + b;
      ChunkTextAppend(a[1..], b);
    } else {
      assert a + b == b;
    }
  }
}
