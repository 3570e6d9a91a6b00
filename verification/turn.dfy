/** One player's turn: the fragments the language model produced are folded
    into a bracketed list of events and one discussion entry.  A fragment is
    either an inline failure (the error string the model client substitutes
    for a failed call) or a delta carrying reasoning text and answer text,
    either of which may be empty. */
module Turn {
  import opened Basics
  import opened Events

  datatype Fragment = Failure(message: string) | Delta(reasoning: string, content: string)

  /** The message of the first failure, if any fragment is one. */
  function FirstFailure(fs: seq<Fragment>): (r: Option<string>)
    ensures r.None? <==> forall j :: 0 <= j < |fs| ==> fs[j].Delta?
  {
    if |fs| == 0 then None
    else if fs[0].Failure? then Some(fs[0].message)
    else FirstFailure(fs[1..])
  }

  /** Reasoning text takes precedence: a delta carrying both counts as reasoning. */
  function ReasoningPiece(f: Fragment): string {
    if f.Delta? then f.reasoning else ""
  }

  function AnswerPiece(f: Fragment): string {
    if f.Delta? && f.reasoning == "" then f.content else ""
  }

  /** The reasoning fragments before the first failure, concatenated. */
  function ReasoningText(fs: seq<Fragment>): string {
    if |fs| == 0 || fs[0].Failure? then "" else ReasoningPiece(fs[0]) + ReasoningText(fs[1..])
  }

  /** The answer fragments before the first failure, concatenated. */
  function AnswerText(fs: seq<Fragment>): string {
    if |fs| == 0 || fs[0].Failure? then "" else AnswerPiece(fs[0]) + AnswerText(fs[1..])
  }

  /** The chunk events of the fragments: one per non-empty delta, and the
      failure message as a final `message_chunk`. */
  function ChunkEvents(fs: seq<Fragment>): seq<Event> {
    if |fs| == 0 then []
    else if fs[0].Failure? then [MessageChunk(fs[0].message)]
    else if fs[0].reasoning != "" then [ReasoningChunk(fs[0].reasoning)] + ChunkEvents(fs[1..])
    else if fs[0].content != "" then [MessageChunk(fs[0].content)] + ChunkEvents(fs[1..])
    else ChunkEvents(fs[1..])
  }

  /** The content a turn records: the failure message if there is one,
      otherwise the answer text. */
  function RecordedContent(fs: seq<Fragment>): string {
    match FirstFailure(fs)
    case Some(msg) => msg
    case None => AnswerText(fs)
  }

  datatype Accumulated = Accumulated(chunks: seq<Event>, content: string, reasoning: string)

  /** The `for chunk in stream` loop over the remaining fragments `fs`, with
      the text and events gathered so far in `acc`; a failure replaces the
      content and ends the loop. */
  function Fold(fs: seq<Fragment>, acc: Accumulated): (r: Accumulated)
    ensures r.reasoning == acc.reasoning + ReasoningText(fs)
    ensures r.chunks == acc.chunks + ChunkEvents(fs)
    ensures r.content == if FirstFailure(fs).Some? then FirstFailure(fs).value else acc.content + AnswerText(fs)
  {
    if |fs| == 0 then acc
    else
      match fs[0]
      case Failure(msg) =>
        Accumulated(acc.chunks + [MessageChunk(msg)], msg, acc.reasoning)
      case Delta(reasoningPart, contentPart) =>
        var next :=
          if reasoningPart != "" then
            Accumulated(acc.chunks + [ReasoningChunk(reasoningPart)], acc.content, acc.reasoning + reasoningPart)
          else if contentPart != "" then
            Accumulated(acc.chunks + [MessageChunk(contentPart)], acc.content + contentPart, acc.reasoning)
          else acc;
        Fold(fs[1..], next)
  }

  datatype TurnResult = TurnResult(events: seq<Event>, entry: Entry)

  /** A whole turn: `message_start`, the chunk events, `message_end`, and the
      entry appended to the discussion log. */
  function RunTurn(fs: seq<Fragment>, id: nat, name: string, round: nat): (r: TurnResult)
    ensures |r.events| >= 2
    ensures r.events[0] == MessageStart(id, name) && r.events[|r.events| - 1] == MessageEnd
    ensures forall j :: 0 < j < |r.events| - 1 ==> r.events[j].ReasoningChunk? || r.events[j].MessageChunk?
    ensures r.entry == Entry(id, name, RecordedContent(fs), ReasoningText(fs), round)
  {
    var a := Fold(fs, Accumulated([], "", ""));
    ChunkEventsAreChunks(fs);
    TurnResult([MessageStart(id, name)] + a.chunks + [MessageEnd], Entry(id, name, a.content, a.reasoning, round))
  }

  lemma {:induction false} ChunkEventsAreChunks(fs: seq<Fragment>)
    ensures forall j :: 0 <= j < |ChunkEvents(fs)| ==> ChunkEvents(fs)[j].ReasoningChunk? || ChunkEvents(fs)[j].MessageChunk?
  {
    if |fs| > 0 && fs[0].Delta? {
      ChunkEventsAreChunks(fs[1..]);
    }
  }

  /** The `message_chunk` payloads of the fragments spell out the answer text
      followed by the failure message, if any. */
  lemma {:induction false} ChunkTextOfChunkEvents(fs: seq<Fragment>)
    ensures ChunkText(ChunkEvents(fs)) == AnswerText(fs) + (if FirstFailure(fs).Some? then FirstFailure(fs).value else "")
  {
    if |fs| > 0 && fs[0].Delta? {
      ChunkTextOfChunkEvents(fs[1..]);
      var head := if fs[0].reasoning != "" then [ReasoningChunk(fs[0].reasoning)]
                  else if fs[0].content != "" then [MessageChunk(fs[0].content)] else [];
      assert ChunkEvents(fs) == head + ChunkEvents(fs[1..]);
      ChunkTextAppend(head, ChunkEvents(fs[1..]));
    }
  }

  /** The vote text app.py rebuilds from the forwarded `message_chunk` events:
      all answer text before the first failure, then the failure message. */
  lemma VoteTextFromChunks(fs: seq<Fragment>, id: nat, name: string, round: nat)
    ensures ChunkText(RunTurn(fs, id, name, round).events)
              == AnswerText(fs) + (if FirstFailure(fs).Some? then FirstFailure(fs).value else "")
  {
    var a := Fold(fs, Accumulated([], "", ""));
    var evs := RunTurn(fs, id, name, round).events;
    assert evs == [MessageStart(id, name)] + a.chunks + [MessageEnd];
    assert a.chunks == ChunkEvents(fs);
    ChunkTextOfChunkEvents(fs);
    assert ChunkText([MessageStart(id, name)]) == "";
    assert ChunkText([MessageEnd]) == "";
    ChunkTextAppend([MessageStart(id, name)], a.chunks);
    ChunkTextAppend([MessageStart(id, name)] + a.chunks, [MessageEnd]);
  }

  /** Without a failure the two ways of reading a vote agree: the rebuilt
      chunk text (app.py) equals the recorded content (server.js). */
  lemma VoteTextsAgreeWithoutFailure(fs: seq<Fragment>, id: nat, name: string, round: nat)
    requires forall j :: 0 <= j < |fs| ==> fs[j].Delta?
    ensures ChunkText(RunTurn(fs, id, name, round).events) == RunTurn(fs, id, name, round).entry.content
  {
    VoteTextFromChunks(fs, id, name, round);
  }

  /** After a failure the recorded content is only the failure message, while
      the rebuilt chunk text keeps the answer that came before it. */
  lemma VoteTextsDifferAfterFailure(answer: string, msg: string, id: nat, name: string, round: nat)
    requires answer != ""
    ensures var fs := [Delta("", answer), Failure(msg)];
            && RunTurn(fs, id, name, round).entry.content == msg
            && ChunkText(RunTurn(fs, id, name, round).events) == answer + msg
            && ChunkText(RunTurn(fs, id, name, round).events) != RunTurn(fs, id, name, round).entry.content
  {
    var fs := [Delta("", answer), Failure(msg)];
    assert fs[1..] == [Failure(msg)];
    assert FirstFailure(fs) == Some(msg);
    assert AnswerText(fs) == answer;
    VoteTextFromChunks(fs, id, name, round);
    assert |answer + msg| > |msg|;
  }

  /** The loop stops at the first failure: the fragments after it change nothing. */
  lemma {:induction false} FoldStopsAtFailure(fs: seq<Fragment>, acc: Accumulated, i: nat)
    requires i < |fs| && fs[i].Failure? && forall j :: 0 <= j < i ==> fs[j].Delta?
    ensures Fold(fs, acc) == Fold(fs[..i + 1], acc)
    decreases i
  {
    if i > 0 {
      var f := fs[0];
      var next :=
        if f.reasoning != "" then
          Accumulated(acc.chunks + [ReasoningChunk(f.reasoning)], acc.content, acc.reasoning + f.reasoning)
        else if f.content != "" then
          Accumulated(acc.chunks + [MessageChunk(f.content)], acc.content + f.content, acc.reasoning)
        else acc;
      FoldStopsAtFailure(fs[1..], next, i - 1);
      assert fs[..i + 1][1..] == fs[1..][..i];
    }
  }

  /** A turn that meets a failure records exactly the failure message as its
      content, forwards it as the last chunk, ignores every later fragment,
      and still ends with `message_end`. */
  lemma TurnStopsAtFailure(fs: seq<Fragment>, i: nat, id: nat, name: string, round: nat)
    requires i < |fs| && fs[i].Failure? && forall j :: 0 <= j < i ==> fs[j].Delta?
    ensures var t := RunTurn(fs, id, name, round);
            && t == RunTurn(fs[..i + 1], id, name, round)
            && t.entry.content == fs[i].message
            && |t.events| >= 3 && t.events[|t.events| - 2] == MessageChunk(fs[i].message)
            && t.events[|t.events| - 1] == MessageEnd
  {
    TurnIgnoresRest(fs, i, id, name, round);
    TurnRecordsFailure(fs, i, id, name, round);
    TurnForwardsFailure(fs, i, id, name, round);
  }

  lemma TurnIgnoresRest(fs: seq<Fragment>, i: nat, id: nat, name: string, round: nat)
    requires i < |fs| && fs[i].Failure? && forall j :: 0 <= j < i ==> fs[j].Delta?
    ensures RunTurn(fs, id, name, round) == RunTurn(fs[..i + 1], id, name, round)
  {
    FoldStopsAtFailure(fs, Accumulated([], "", ""), i);
  }

  lemma TurnRecordsFailure(fs: seq<Fragment>, i: nat, id: nat, name: string, round: nat)
    requires i < |fs| && fs[i].Failure? && forall j :: 0 <= j < i ==> fs[j].Delta?
    ensures RunTurn(fs, id, name, round).entry.content == fs[i].message
  {
    FailureIsFirst(fs, i);
  }

  lemma TurnForwardsFailure(fs: seq<Fragment>, i: nat, id: nat, name: string, round: nat)
    requires i < |fs| && fs[i].Failure? && forall j :: 0 <= j < i ==> fs[j].Delta?
    ensures var evs := RunTurn(fs, id, name, round).events;
            |evs| >= 3 && evs[|evs| - 2] == MessageChunk(fs[i].message) && evs[|evs| - 1] == MessageEnd
  {
    TurnEventsShape(fs, id, name, round);
    LastChunkIsFailure(fs, i);
    Bracketed(MessageStart(id, name), ChunkEvents(fs), MessageChunk(fs[i].message));
  }

  /** A turn's events are its chunk events between the two brackets. */
  lemma TurnEventsShape(fs: seq<Fragment>, id: nat, name: string, round: nat)
    ensures RunTurn(fs, id, name, round).events == [MessageStart(id, name)] + ChunkEvents(fs) + [MessageEnd]
  {
  }

  lemma Bracketed(first: Event, chunks: seq<Event>, last: Event)
    requires |chunks| >= 1 && chunks[|chunks| - 1] == last
    ensures var evs := [first] + chunks + [MessageEnd];
            |evs| >= 3 && evs[|evs| - 2] == last && evs[|evs| - 1] == MessageEnd
  {
  }

  lemma {:induction false} FailureIsFirst(fs: seq<Fragment>, i: nat)
    requires i < |fs| && fs[i].Failure? && forall j :: 0 <= j < i ==> fs[j].Delta?
    ensures FirstFailure(fs) == Some(fs[i].message)
    decreases i
  {
    if i > 0 {
      FailureIsFirst(fs[1..], i - 1);
    }
  }

  lemma {:induction false} LastChunkIsFailure(fs: seq<Fragment>, i: nat)
    requires i < |fs| && fs[i].Failure? && forall j :: 0 <= j < i ==> fs[j].Delta?
    ensures |ChunkEvents(fs)| >= 1 && ChunkEvents(fs)[|ChunkEvents(fs)| - 1] == MessageChunk(fs[i].message)
    decreases i
  {
    if i > 0 {
      LastChunkIsFailure(fs[1..], i - 1);
    }
  }

  /** A fragment carrying both reasoning and answer text is reasoning only:
      its answer text is neither forwarded nor recorded. */
  lemma ReasoningTakesPrecedence(reasoning: string, content: string, id: nat, name: string, round: nat)
    requires reasoning != ""
    ensures RunTurn([Delta(reasoning, content)], id, name, round)
              == TurnResult([MessageStart(id, name), ReasoningChunk(reasoning), MessageEnd],
                            Entry(id, name, "", reasoning, round))
  {
    var fs := [Delta(reasoning, content)];
    assert fs[1..] == [];
    assert ReasoningText(fs) == reasoning + "";
    assert AnswerText(fs) == "" + "";
  }

  /** Without failures the turn records the answer fragments, concatenated,
      as its content and the reasoning fragments as its reasoning. */
  lemma TurnWithoutFailure(fs: seq<Fragment>, id: nat, name: string, round: nat)
    requires forall j :: 0 <= j < |fs| ==> fs[j].Delta?
    ensures RunTurn(fs, id, name, round).entry.content == AnswerText(fs)
    ensures RunTurn(fs, id, name, round).entry.reasoning == ReasoningText(fs)
  {
  }
}
