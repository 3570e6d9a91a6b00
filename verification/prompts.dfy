/** What a player's prompt is built from.  The prose of the two templates is
    not modelled; a prompt is the data substituted into it.  The discussion
    log enters a prompt as a transcript, one line per entry: `name: content`
    while describing, `name (第N轮): content` while voting. */
module Prompts {
  import opened Basics
  import opened Events

  /** What a describing player is shown when nobody has spoken yet. */
  const FirstRoundPlaceholder: string := "现在是第一轮，还没有人发言。"

  datatype Prompt =
    | Describe(round: nat, playerId: nat, word: string, activeNames: string, history: string)
    | Ballot(playerId: nat, word: string, candidates: seq<nat>, history: string)

  function SpeechLine(e: Entry): (line: string)
    ensures |line| >= |e.name| + 2 && line[..|e.name|] == e.name
  {
    e.name + ": " + e.content
  }

  function BallotLine(e: Entry): (line: string)
    ensures |line| >= |e.name| + 2 && line[..|e.name|] == e.name
  {
    e.name + " (第" + NatToString(e.round) + "轮): " + e.content
  }

  function SpeechLines(log: seq<Entry>): (lines: seq<string>)
    ensures |lines| == |log| && forall i :: 0 <= i < |log| ==> lines[i] == SpeechLine(log[i])
  {
    if |log| == 0 then [] else [SpeechLine(log[0])] + SpeechLines(log[1..])
  }

  function BallotLines(log: seq<Entry>): (lines: seq<string>)
    ensures |lines| == |log| && forall i :: 0 <= i < |log| ==> lines[i] == BallotLine(log[i])
  {
    if |log| == 0 then [] else [BallotLine(log[0])] + BallotLines(log[1..])
  }

  /** The transcript a describing player reads. */
  function SpeechHistory(log: seq<Entry>): string {
    Join("\n", SpeechLines(log))
  }

  /** The transcript every voter of a round reads, taken once before voting. */
  function BallotHistory(log: seq<Entry>): string {
    Join("\n", BallotLines(log))
  }

  /** `previous_conversations if previous_conversations else ...` and
      `previousConversations || ...`: an empty transcript is replaced. */
  function OrPlaceholder(history: string): (h: string)
    ensures h != ""
    ensures history != "" ==> h == history
  {
    if history == "" then FirstRoundPlaceholder else history
  }

  /** Joining one more part appends the separator and the part. */
  lemma JoinSnoc(sep: string, parts: seq<string>, p: string)
    requires |parts| >= 1
    ensures Join(sep, parts + [p]) == Join(sep, parts) + sep + p
  {
    assert (parts + [p])[..|parts|] == parts;
  }

  /** A joined list of lines whose last line is non-empty is non-empty. */
  lemma JoinNonEmpty(sep: string, parts: seq<string>)
    requires |parts| >= 1 && parts[|parts| - 1] != ""
    ensures Join(sep, parts) != ""
  {
  }

  /** The placeholder is shown exactly when the log is empty. */
  lemma PlaceholderOnlyForEmptyLog(log: seq<Entry>)
    ensures SpeechHistory(log) == "" <==> log == []
    ensures log == [] ==> OrPlaceholder(SpeechHistory(log)) == FirstRoundPlaceholder
    ensures log != [] ==> OrPlaceholder(SpeechHistory(log)) == SpeechHistory(log)
  {
    if log != [] {
      var lines := SpeechLines(log);
      assert |lines[|lines| - 1]| >= 2;
      JoinNonEmpty("\n", lines);
    }
  }

  lemma SpeechLinesSnoc(log: seq<Entry>, e: Entry)
    ensures SpeechLines(log + [e]) == SpeechLines(log) + [SpeechLine(e)]
  {
    var a := SpeechLines(log + [e]);
    var b := SpeechLines(log) + [SpeechLine(e)];
    assert |a| == |b|;
    forall i | 0 <= i < |a| ensures a[i] == b[i] {
      if i < |log| {
        assert (log + [e])[i] == log[i];
      }
    }
  }

  /** The log is append-only, so the transcript of a longer log extends the
      transcript of the shorter one line by line. */
  lemma SpeechHistoryExtends(log: seq<Entry>, more: seq<Entry>)
    ensures |SpeechHistory(log)| <= |SpeechHistory(log + more)|
    ensures SpeechHistory(log + more)[..|SpeechHistory(log)|] == SpeechHistory(log)
  {
    if |log| == 0 {
      assert SpeechHistory(log) == "";
    } else {
      NonEmptyHistoryExtends(log, more);
    }
  }

  lemma {:induction false} NonEmptyHistoryExtends(log: seq<Entry>, more: seq<Entry>)
    requires |log| >= 1
    ensures |SpeechHistory(log)| <= |SpeechHistory(log + more)|
    ensures SpeechHistory(log + more)[..|SpeechHistory(log)|] == SpeechHistory(log)
    decreases |more|
  {
    if |more| > 0 {
      var init := more[..|more| - 1];
      var e := more[|more| - 1];
      NonEmptyHistoryExtends(log, init);
      assert log + more == (log + init) + [e];
      SpeechLinesSnoc(log + init, e);
      JoinSnoc("\n", SpeechLines(log + init), SpeechLine(e));
    } else {
      assert log + more == log;
    }
  }
}
