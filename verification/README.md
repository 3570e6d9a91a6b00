# Who is the Undercover: the game engine as a state machine

This project models the engine behind the "Who is the Undercover" game. The
engine exists twice: in Python (`app.py`) and in Node (`server.js`). Every
player is a language model. The engine works in these steps:

- It deals a pair of similar words. Most players get the civilian word and a
  few get the undercover word.
- Each round, it lets every active player describe their word and then vote.
- It eliminates the player with the unique highest vote count.
- At the top of every round, it checks whether the civilians have found all
  the undercover players, whether the undercover players are no longer
  outnumbered, or whether the round limit has run out.

The model keeps the engine's logic and drops the web and streaming plumbing.
What it covers:

- the `/run_game` handlers, which read and clamp the settings;
- initialisation, with the random choices given as explicit arguments;
- the vote parser;
- one player's turn, as a fold over the fragments the model streams back;
- the round loop, as a pure function from game state to game state and
  events.

The language model is an *oracle*: a function from prompts to fragment
lists, and from (round, voter) to the index the parser's random fallback
would draw.

The two implementations differ in four places. The model keeps each
difference as an explicit variant:

| difference | app.py | server.js | in the model |
|---|---|---|---|
| undercover clamp | lowers to `total // 2` | lowers to `total // 2 - 1` | `Settings.ClampPy` / `Settings.ClampJs` |
| defaults | only a missing key | any falsy value, so `0` too | `Settings.ReadPy` / `Settings.ReadJs` |
| sentence for the loosest vote pattern | text after the last `。` | segment before the last `。！?`, else the first | `VoteParser.SentenceRule` |
| win check after an elimination | immediate | at the next loop top | `Engine.Variant.recheck` |

The model also keeps a fifth, smaller difference. app.py reads a vote from
the `message_chunk` payloads it forwarded. server.js reads it from the
content the turn recorded (`Engine.Reading.fromChunks`).

`GameProofs.RecheckInvisible` proves that the fourth difference cannot be
observed. Both loops produce the same final state and the same event list.

Modules, in dependency order:

- `Basics`: `Option`, decimal rendering and `Join`.
- `Roster`: players and the roster filters.
- `Events`: discussion entries and stream events.
- `Settings`: reading and clamping the request.
- `State`: the word catalogue, the shuffle and `InitializeGame`.
- `VoteParser`: the vote parser.
- `Turn`: the fragment fold.
- `Tally`: counting the votes.
- `Prompts`: transcripts and prompts.
- `Engine`: top checks, passes, resolution, rounds, `Run` and `StreamGame`.
- `EngineProofs`: round and run lemmas.
- `GameProofs`: whole-game lemmas.
- `Handlers`: the `/run_game` handlers.

## Model

| member | source | states |
|---|---|---|
| Settings.ReadPy | app.py:349-351 | app.py reads a request exactly as server.js does unless some field is an explicit 0: `settings.get` keeps a present 0, where `\|\| default` replaces it |
| Settings.ZeroRoundLimit | server.js:378 | a requested round limit of 0 reads as 0, meaning no limit, in app.py (line 351) but as 5 in server.js |
| Settings.ReadJs | server.js:376-378 | no setting read by server.js is 0; a requested round limit of 0 reads as 5 |
| Settings.ReadPyFields | app.py:349-351 | app.py reads each present field as given; a missing key reads as 4 players, 1 undercover, 5 rounds |
| Settings.ReadJsFields | server.js:376-378 | server.js reads each present non-zero field as given; a missing or 0 field reads as 4 players, 1 undercover, 5 rounds |
| Settings.ReadRoundTrip | app.py:349-351 | a request that spells out a setting reads back as exactly that setting in app.py, and in server.js (lines 376-378) when no field is 0 |
| Settings.EmptyRequest | server.js:376-378 | an empty request plays 4 players, 1 undercover, 5 rounds in both servers (app.py:349-351 too) |
| Settings.ClampTotal | app.py:354-355 | the player count ends in 3..10 and an in-range count is unchanged |
| Settings.ClampTotalMonotone | app.py:354-355 | clamping the player count preserves order: more requested players never yield fewer |
| Settings.ClampRounds | app.py:363 | the round limit ends ≤ 20, a limit ≤ 20 is unchanged, and a limit is "unlimited" (≤ 0) after clamping exactly when it was before |
| Settings.ClampRoundsMonotone | server.js:388 | clamping the round limit preserves order: a higher requested limit never yields a lower one |
| Settings.ClampValuesOutOfRange | app.py:354-363 | a player count below 3 becomes 3, one above 10 becomes 10, and a round limit above 20 becomes 20 |
| Settings.ClampPy | app.py:353-363 | the total and the round limit are `ClampTotal` and `ClampRounds` of the request (so too few players become 3, too many 10, a limit above 20 becomes 20); after validation: 3 ≤ total ≤ 10, 1 ≤ undercover and 2·undercover ≤ total, round limit ≤ 20 with "unlimited" kept. In-range requests pass unchanged and a count below 1 becomes 1. An over-large count is lowered, to the largest count with 2·undercover ≤ total. |
| Settings.ClampJs | server.js:380-388 | the total and the round limit are `ClampTotal` and `ClampRounds` of the request, as in app.py; after validation: 3 ≤ total ≤ 10, 1 ≤ undercover and 2·undercover < total, round limit ≤ 20 with "unlimited" kept. In-range requests pass unchanged and a count below 1 becomes 1. An over-large count becomes `max(1, total // 2 − 1)`. |
| Settings.JsLowersBelowLargest | server.js:384-386 | server.js lowers an over-large count to the largest one that keeps the civilians in the majority when the total is even or 3, but to one less than that when the total is odd and at least 5 |
| Settings.FiveWithThree | server.js:384-386 | five players with three undercover requested: server.js plays with one undercover, app.py and the intended validation with two |
| Settings.ClampIdempotent | app.py:353-363 | validating validated settings changes nothing, for both handlers |
| Settings.ClampPyAllowsParity | app.py:357-359 | four players with two undercover pass app.py's validation unchanged, and three undercover are lowered to two, not one |
| Settings.ClampPyIntended | app.py:353-363 | the validation the comment at line 357 describes, with total and round limit clamped as in `ClampPy`: the undercover end strictly fewer than half, and an over-large request is lowered to the largest such count |
| Settings.IntendedAgreesOnOddTotals | app.py:358-359 | for odd player counts the intended validation equals the one written |
| State.CatalogueWordsDistinct | app.py:79 | both words of every catalogue pair differ |
| State.Repeat | app.py:88 | `[w] * k` has length k and holds only w |
| State.RepeatCounts | app.py:88 | `[w] * k` holds k copies of w and no other word |
| State.Swap | server.js:104 | a swap keeps the multiset of words |
| State.ShuffleDown | server.js:102-105 | the Fisher–Yates loop, for any draws, is a permutation: length and multiset kept |
| State.Shuffle | app.py:89 | the shuffle, for any draws, is a permutation of the words |
| State.Deal | app.py:95-105 | player i gets id first+i and the i-th word; the role and the undercover flag follow the word |
| State.PickWords | app.py:80-85 | the two words come from the drawn catalogue pair, ordered by the coin, and differ |
| State.DealShape | server.js:111-118 | ids run 1..n in order, everybody is active and named after their id, and the role agrees with the undercover flag |
| State.UndercoverCountOfDeal | app.py:99-100 | the number of undercover players equals the number of copies of the undercover word dealt |
| State.ShuffledWords | app.py:87-89 | a shuffled deal holds only the two words, with exactly u copies of the undercover word |
| State.DealtCounts | app.py:87-105 | dealing such words makes exactly u undercover players and n − u civilians |
| State.InitializeGame | app.py:73-112 | for u ≤ n and any random choices, the roster has n players with ids 1..n in order, all active. Exactly u players are undercover and n − u are civilians. Each role agrees with its word, and every word is one of the two distinct words of the drawn pair. The dealt words are a permutation of n − u civilian words and u undercover words. The round counter is 1, the log and votes are empty, the game is not over, and there is no winner. |
| Roster.ActivePlayers | app.py:242 | the active players are exactly the roster's active players, kept in roster order: ids that increase along the roster increase along the result, which fixes the speaking and voting order |
| Roster.ActivePlayersCounts | app.py:242 | each active player appears in the filtered list as often as in the roster, so once when ids are distinct, and no inactive player appears |
| Roster.UndercoverPlayers | app.py:245 | the filter keeps exactly the undercover players |
| Roster.CivilianPlayers | app.py:244 | the filter keeps exactly the civilians |
| Roster.IdsOf | app.py:243 | the id list is the players' ids, position by position |
| Roster.SidesPartition | app.py:244-245 | every player is on exactly one side |
| Roster.Deactivate | app.py:329 | after an elimination exactly the players who were active and do not carry that id stay active; nothing else about any player changes |
| Roster.DeactivateRemovesOne | server.js:347-349 | with distinct ids, the active id set loses exactly the eliminated id |
| Roster.LaterRosterTransitive | server.js:349 | a sequence of eliminations is an elimination history |
| Roster.LaterRosterKeepsSides | app.py:329 | eliminations never change how many players are undercover |
| Roster.LaterRosterShrinks | server.js:349 | eliminations keep ids 1..n and only shrink the active id set |
| Roster.ActiveIdsAreActiveSet | app.py:242-243 | the active ids listed at round start are exactly the active id set |
| VoteParser.SpaceRunIsMaximal | app.py:171 | `\s*` consumes the longest whitespace prefix: everything it takes is whitespace and the character after it is not |
| VoteParser.DigitRunIsMaximal | app.py:171 | `(\d+)` captures the longest digit prefix: everything it takes is a digit and the character after it is not |
| VoteParser.DigitsValueOfNatToString | app.py:181 | `int` of the decimal rendering of an id is that id |
| VoteParser.MatchAtIff | app.py:171 | the pattern `lit \s* (\d+)` reads x at a position exactly when the literal is there, followed by some whitespace and a run of at least one digit that no further digit follows, with value x |
| VoteParser.FindFrom | app.py:171 | the search returns the leftmost matching position, and no match means no position matches |
| VoteParser.Search | app.py:171-175 | nothing exactly when the pattern matches at no position; otherwise the value read at a position before which it matches nowhere |
| VoteParser.Split | server.js:153 | splitting on the stop characters gives at least one segment |
| VoteParser.SplitSegmentsHaveNoStop | server.js:153 | no segment of the split contains a stop character |
| VoteParser.SplitWithoutStop | app.py:177 | a text without a stop splits into itself alone |
| VoteParser.SplitAtStop | server.js:153 | splitting at any stop gives the segments of the text before it followed by those of the text after it |
| VoteParser.FirstSegment | server.js:154 | the first segment, `sentences[0]`, is the text before the first stop |
| VoteParser.SplitRoundTrip | server.js:153 | splitting loses only the stops: gluing the segments back with their stops gives the text back |
| VoteParser.SplitAfterFinalStop | app.py:177 | a text that ends with a stop has an empty last segment |
| VoteParser.LastSentence | app.py:177 | the sentence the loosest pattern inspects is one of the segments of the split, so it holds no stop character; which one is stated by `FinalSentenceAt` and `PenultimateSentenceAt` |
| VoteParser.FinalSentenceAt | app.py:177 | app.py's sentence, `text.split('。')[-1]`, is the text after the last `。`, or the whole text when it has none |
| VoteParser.PenultimateWithoutStop | server.js:153-154 | server.js's sentence on a text without `。`, `！` or `?` is the whole text |
| VoteParser.PenultimateSentenceAt | server.js:153-154 | on a text with a stop, server.js's sentence is the one the last stop closes when that is not empty, and otherwise the text before the first stop |
| VoteParser.AfterLastStopExists | app.py:177 | every text has a position after its last stop, 0 when it has none, so `FinalSentenceAt` covers every text |
| VoteParser.FirstStopExists | server.js:154 | every text has a first stop position, its length when it has none |
| VoteParser.ClosedByLastStopExists | server.js:154 | a text with a stop has a sentence its last stop closes, so `PenultimateSentenceAt` covers every text with a stop |
| VoteParser.Cascade | app.py:171-177 | the result is nothing exactly when no pattern matches; otherwise it is the capture of the first pattern that matches |
| VoteParser.Targets | app.py:167 | the legal targets are exactly the given ids other than the voter |
| VoteParser.ParseVote | app.py:166-187 | nothing exactly when nobody but the voter is listed; otherwise always a listed id other than the voter |
| VoteParser.FirstMatchDecides | server.js:149-166 | the first matching pattern decides: its id if legal, otherwise the random fallback, even when a looser pattern would find a legal id |
| VoteParser.NoMatchFallsBack | app.py:187 | with no match, the vote is the fallback pick among the legal targets |
| VoteParser.Fallback | app.py:187 | the fallback always picks a legal target |
| VoteParser.FallbackReachesAll | server.js:166 | every legal target is the fallback for some draw |
| VoteParser.FinalSegmentSilentAfterStop | app.py:177 | app.py's loosest pattern never fires on a text ending in `。` |
| VoteParser.SentenceRulesDisagree | server.js:153-154 | the two sentence rules disagree: on "玩家2。" server.js reads 2 while app.py falls back to its random pick |
| VoteParser.ExamplePenultimateReads | server.js:152-155 | server.js inspects the segment before the final `。` |
| VoteParser.ExampleFinalFallsBack | app.py:177 | app.py inspects the empty text after the final `。` and falls back |
| Turn.FirstFailure | app.py:200 | there is no failure exactly when every fragment is a delta |
| Turn.Fold | app.py:199-213 | the loop appends the reasoning of every fragment before the first failure. It forwards one chunk per non-empty fragment. Its content is either the failure message or the accumulated answer text. |
| Turn.RunTurn | app.py:189-221 | `message_start` comes first and `message_end` last, with only chunk events between. Exactly one entry is recorded, for this player and round, with the recorded content and reasoning. |
| Turn.ChunkEventsAreChunks | server.js:218-235 | between the brackets there are only reasoning and message chunks |
| Turn.ChunkTextOfChunkEvents | app.py:295-304 | the `message_chunk` payloads spell the answer text followed by the failure message |
| Turn.VoteTextFromChunks | app.py:293-306 | the vote text app.py rebuilds is the answer text followed by the failure message |
| Turn.VoteTextsAgreeWithoutFailure | server.js:324 | without a failure, app.py's rebuilt text and server.js's recorded content are the same |
| Turn.VoteTextsDifferAfterFailure | app.py:200-204 | after a failure, the recorded content is only the message, while the rebuilt text keeps the earlier answer |
| Turn.FoldStopsAtFailure | server.js:219-224 | the loop ends at the first failure: later fragments change nothing |
| Turn.TurnStopsAtFailure | app.py:200-204 | after a failure the turn records exactly the failure message, forwards it as the last chunk, ignores later fragments and still ends with `message_end` |
| Turn.ReasoningTakesPrecedence | app.py:206-213 | a fragment with both reasoning and answer text counts as reasoning only |
| Turn.TurnWithoutFailure | app.py:212-215 | without failures the content is the concatenated answer fragments and the reasoning the concatenated reasoning fragments |
| Events.ChunkTextAppend | app.py:302 | the rebuilt text of two event lists is the concatenation of theirs |
| Tally.MaxCountFrom | app.py:319 | `max(vote_counts.values())` bounds every count and is reached |
| Tally.FirstWithCount | app.py:325 | the chosen target was voted for and has the maximal count |
| Tally.TallyVotes | app.py:311-325 | no votes exactly when no ballot named anybody. A unique result names a voted-for player with strictly more votes than anyone else. A tie names exactly the targets with the maximum count, at least two of them. |
| Tally.UniqueIff | server.js:340-346 | the tally names x exactly when x was voted for and has strictly more votes than every other target |
| Tally.TieOfLeaders | app.py:320-323 | two or more targets sharing the maximum make a tie naming exactly them |
| Tally.ExampleTie | app.py:322-323 | votes 1,2,1,2,3 tie between 1 and 2 |
| Tally.ExampleUnique | app.py:324-325 | votes 1,1,2,1 eliminate 1 |
| Prompts.SpeechLines | app.py:280 | one `name: content` line per log entry |
| Prompts.BallotLines | app.py:287 | one `name (第N轮): content` line per log entry |
| Prompts.OrPlaceholder | app.py:119 | an empty transcript is replaced by the first-round placeholder and a non-empty one is kept |
| Prompts.PlaceholderOnlyForEmptyLog | server.js:303 | the placeholder is shown exactly when the log is empty |
| Prompts.SpeechHistoryExtends | app.py:280 | the transcript of a longer log extends the transcript of a shorter one |
| Engine.ActiveCountsAgree | app.py:242-245 | the one-pass counts equal the sizes of the filtered lists |
| Engine.TopCheck | app.py:247-267 | the three checks, in their order: no active undercover: civilians win, whatever the round. Otherwise, undercover not outnumbered: undercover win. Otherwise, a positive limit that has been passed: undercover win. Otherwise, the round is played. |
| Engine.SpeakPass | app.py:279-283 | the pass adds one entry per speaker, in order, tagged with the round, and emits only turn events |
| Engine.VotePass | app.py:289-307 | one entry and one legal ballot per voter, in voter order |
| Engine.CastBallot | server.js:314-326 | a voter's ballot is legal: nothing exactly when nobody else is active, otherwise another active player |
| Engine.ByVoter | app.py:307 | the vote map is keyed by exactly the voters, and each value is a ballot cast under that key |
| Engine.ByVoterDistinct | server.js:326 | with distinct voters, each voter's key holds their own ballot |
| Engine.ByVoterLegal | app.py:307 | every key of the vote map holds a legal ballot |
| Engine.Cast | app.py:311 | the non-null votes are the ballots that name somebody: each player is counted once for every ballot that names them |
| Engine.ReadBack | app.py:307-311 | with distinct voter ids, `votes.values()` in voter order gives back the ballots as they were cast |
| Engine.FindPlayer | app.py:326 | the player found has the id; nothing is found exactly when no player has it |
| Engine.Resolve | app.py:309-340 | no votes or a tie change nobody. A unique maximum deactivates exactly that player and emits `elimination`. The game ends in this step exactly under `recheck` after an elimination that leaves no active undercover, with civilians winning and an `end` event. |
| Engine.Deliberate | app.py:269-309 | the round counter is set and only the log and votes change. The log gains a description and a vote entry from each player active at round start, in order. The votes are keyed by those players and are legal. When ids increase along the roster, the outcome is the tally of the recorded vote map read in voter order. A unique maximum names one of the voters. The events open with `round_start` and contain no further `round_start` and no `end`. |
| Engine.OracleDeliberation | server.js:291-328 | speaking and voting with the model's replies is a deliberation, whatever the model replies |
| EngineProofs.RoundRecords | app.py:279-309 | after a round, the log has grown by 2·k entries for the k players active at round start, and the vote map is replaced by one keyed by exactly those players |
| EngineProofs.RoundRoster | server.js:331-354 | no votes or a tie change nobody; a unique maximum deactivates exactly one previously active player, whom strictly more voters named than anyone else; nobody is reactivated |
| EngineProofs.VotesForInOrder | server.js:331-338 | counting a target among the non-null ballots read in voter order counts the voters in the vote map who named it |
| EngineProofs.RoundTally | app.py:311-325 | the round's verdict against the vote map it records: no votes exactly when every ballot is null; player x is eliminated exactly when strictly more voters named x than anyone else; a tie names exactly the players with the most votes, at least two |
| EngineProofs.RoundEnding | app.py:333-340 | a round ends the game exactly under `recheck`, after a unique elimination, when no active undercover remains |
| EngineProofs.RoundFinish | app.py:336-339 | a round that ends the game records the civilians' win and closes with the matching `end` event |
| EngineProofs.RoundEvents | server.js:292-354 | a round's events start with its `round_start`, contain no other `round_start`, and end with `end` exactly when the round ends the game |
| EngineProofs.RoundContinues | app.py:269-343 | a round only deactivates players, only extends the log and keeps the words |
| EngineProofs.CheckEnds | server.js:268-288 | a check at the top of a round ends the game properly with the matching `end` event |
| EngineProofs.RoundEnds | app.py:333-340 | a round that ends the game ends it properly |
| EngineProofs.EngineRoundsOk | server.js:290-356 | every round of the engine continues the game, ends it properly if it does, and is shaped as a round |
| Engine.Close | app.py:311-340 | resolution after the deliberation; its events, roster and ending are stated by `EngineProofs.RoundEvents`, `RoundRoster` and `RoundEnding`, which state them for `Engine.PlayRound` |
| Engine.PlayRound | app.py:269-343 | one round: `EngineProofs.RoundRecords`, `RoundRoster`, `RoundTally`, `RoundEnding`, `RoundFinish` and `RoundEvents` state what it does |
| Engine.Run | app.py:240-344 | the round loop: `EngineProofs.RunKeeps`, `RunEnding`, `RunRounds`, `RunTerminates` and `RecheckAgrees` state what it does |
| Engine.StreamGame | app.py:228-240 | a whole game: the `GameProofs` lemmas state what it does |
| EngineProofs.RunContinues | app.py:240-344 | the loop only deactivates players, only extends the log and keeps the words |
| EngineProofs.RunKeeps | server.js:261-358 | over a whole run, ids stay 1..n, the active set only shrinks, the undercover and civilian counts of the roster never change, the log is append-only, and the words stay as dealt |
| EngineProofs.RunEnding | app.py:240-344 | a run that finishes the game ends it properly: the winner agrees with the summary, the civilians win exactly when no undercover is active, and the last event is the `end` event |
| EngineProofs.RunTerminates | app.py:262-267 | with a positive round limit, a run given enough rounds always finishes the game |
| EngineProofs.RunRounds | server.js:282-292 | a run plays at most one round per unit of fuel and, under a limit, never more than the rounds left before it |
| EngineProofs.RecheckRoundHolds | app.py:333-340 | a round with the immediate recheck equals one without it, except that it also ends the game when no undercover is left |
| EngineProofs.RecheckAgrees | server.js:268-274 | whether a round rechecks or leaves it to the next loop top, the whole run is the same |
| GameProofs.OpeningCheck | app.py:247-259 | the first checks depend only on the requested counts: no undercover ends at once for the civilians, undercover not outnumbered ends at once for the undercover, and otherwise round 1 is played |
| GameProofs.GameKeeps | app.py:228-238 | a game opens with `start` carrying the dealt roster and, throughout, keeps ids 1..n, u undercover and n − u civilians, and the words |
| GameProofs.GameEnds | server.js:261-358 | a game that is over ended properly, with its last event the matching `end` |
| GameProofs.GameRounds | app.py:262-267 | a game plays at most `maxRounds` rounds under a limit, and is over once enough rounds are available |
| GameProofs.RecheckInvisible | server.js:356 | app.py's immediate recheck and server.js's next-round check give the same game and the same events |
| GameProofs.ParityEndsAtOnce | app.py:254-259 | when the undercover are at least as many as the civilians from the deal, the stream is `start` then `end` with the undercover winning |
| GameProofs.FairStartPlaysRound | server.js:290-292 | with the civilians in the majority and a round available, round 1 starts with every player listed |
| Handlers.RunGamePy | app.py:346-365 | app.py's handler: `Handlers.PyBounded`, `PyParityEndsAtOnce` and `PyFourWithTwo` state what it does |
| Handlers.RunGameJs | server.js:368-392 | server.js's handler: `Handlers.JsBounded` and `JsPlaysFirstRound` state what it does |
| Handlers.PlayWithBounds | app.py:365 | a game with clamped settings starts with the clamped roster, respects the round limit and ends properly |
| Handlers.PyBounded | app.py:347-365 | whatever the request, app.py plays 3..10 players, 1 to half of them undercover, and at most 20 rounds under a limit |
| Handlers.JsBounded | server.js:375-392 | whatever the request, server.js plays 3..10 players, with the undercover at least one and fewer than half, and at most 20 rounds under a limit |
| Handlers.JsPlaysFirstRound | server.js:383-387 | server.js always plays round 1 when it has a round to play |
| Handlers.PyParityEndsAtOnce | app.py:358-359 | when app.py's validation leaves half the players undercover, the game ends at the first check, before anybody speaks |
| Handlers.PyFourWithTwo | app.py:358-359 | a request for four players with two undercover is streamed as `start` then `end`, with the undercover winning |
| Handlers.PyIntendedPlaysFirstRound | app.py:357-359 | with the intended validation, app.py always plays round 1 when it has a round to play |

## Left out

- Flask and Express routing, SSE framing, JSON serialisation and templates
  are not modelled. Events are values of `Events.Event`.
- `result_message` / `resultMessage` is modelled as `Events.Summary`, which
  holds the reason and both words. The Chinese sentence is not modelled.
- The language-model client, the API key lookup and the prompt prose are not
  modelled. A prompt is the data substituted into the template
  (`Prompts.Prompt`), and the reply is an oracle.
- `random.choice`, `random.random`, `random.shuffle` and `Math.random` are not
  modelled. Their results are arguments:
  - an index reduced modulo the catalogue size;
  - a coin;
  - one draw per Fisher–Yates step;
  - a fallback pick per (round, voter).

  The model uses the explicit Fisher–Yates loop of server.js for both files.
  `random.shuffle` is the same algorithm, with different draws.
- Sleeps and `async`/`await` are not modelled. The model covers one game at a
  time, streamed to a client that stays connected. Both servers keep the game
  in one global (`game_state`, app.py:71; `gameState`, server.js:81), so a
  second `/run_game` during a game replaces the roster the first game's loop
  reads each round (app.py:242; app.py:368 serves requests on threads). In
  app.py a client disconnect also closes the generator and ends the game.
  Neither is modelled.
- Engine.Run: a game without a round limit need not end. The loop is
  therefore run on a `fuel` bound of rounds, and a run that exhausts it
  stops without an `end` event.
- VoteParser.IsSpace: `\s` is restricted to ASCII whitespace, the no-break
  space and the ideographic space.
- VoteParser.DigitRun: `\d` is restricted to the ASCII digits. Python's `\d`
  also matches other Unicode decimal digits.
- VoteParser.DigitsValue: `parseInt` loses precision above 2^53. Such an id
  is never a legal target in either reading, so the vote is the same.
- Turn.Fold: a streamed chunk without `choices` is not modelled. Both files
  fail on it: `chunk.choices[0]` raises in app.py, and `chunk.choices[0]?.`
  guards only the delta in server.js.
- The Python error string and the JavaScript error object are both
  `Turn.Failure`. Which prefix the message carries is not modelled.
- Turn.Fold: a failure with an empty message is treated like any other
  failure. app.py's failures always start with `Error:`. In server.js an
  empty `chunk.error` is falsy, so the loop reads `chunk.choices[0]`, which
  throws; the turn then ends without `message_end` and the game without
  `end`. The model client never produces an empty error.
- Events.NoVotesCast: both files send a round without any vote as a
  `tie_vote` event carrying the "nobody voted" message (app.py:313,
  server.js:333). The model gives it its own constructor so that it differs
  from a real tie; the wire type is not modelled.
- Settings.ReadPy: the request fields are modelled as integers already.
  `int(...)` truncates a float and reads an integer string or a boolean, and
  raises on `None` and on any other text (`"4.7"` included), which fails the
  handler. The
  model's `None` is only a missing key. In server.js, `None` is anything
  `parseInt` cannot read.
- `game_state['max_rounds']` (app.py:230) is not modelled. It is stored but
  never read; the loop uses its argument.
- Roster.Deactivate deactivates every player who carries the id. The source
  deactivates the first such player (`next(...)`, `find`). Ids are distinct in
  every game (`GameProofs.GameKeeps`), so the two agree.
- The vote map is a `map`, so its key order is not modelled. The order only
  affects how the map is serialised.
- server.js's `res.end()` after the loop is not modelled. Its outcome is the
  end of the event list.

## Findings

| source | as written | input that shows it | evidently intended | confidence | as-written member | corrected member |
|---|---|---|---|---|---|---|
| app.py:357-359 | `if num_undercover >= total_players / 2: num_undercover = total_players // 2`. For an even count this leaves the undercover equal to the civilians. The comment at line 357 asks for at least one more civilian than undercover. | `{"total_players": 4, "num_undercover": 2}` passes unchanged. The first loop-top check (app.py:254) then ends the game for the undercover before anybody speaks. | Lower to `(total_players - 1) // 2`, so that the undercover are strictly fewer than half, as server.js:384-385 ensures. | not executed | Handlers.PyFourWithTwo | Handlers.PyIntendedPlaysFirstRound |
