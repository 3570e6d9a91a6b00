/** The vote parser: free generated text, the voter's id and the ids of the
    players active at round start are turned into a legal target id, or into
    nothing when no legal target exists.  Each of the four patterns is a
    literal prefix, optional whitespace and a run of digits; the first pattern
    that matches anywhere decides, and an illegal id sends the parser to the
    random fallback, which is an explicit choice here. */
module VoteParser {
  import opened Basics

  /** The patterns, from the most specific phrasing to the loosest. */
  const VotedForPlayer: string := "投票给玩家"
  const GaveToPlayer: string := "投给玩家"
  const VotePlayer: string := "投玩家"
  const PlayerMention: string := "玩家"

  /** Whitespace as `\s` sees it, restricted to the characters that occur in
      practice (ASCII whitespace, no-break space and the ideographic space). */
  predicate IsSpace(c: char) {
    c == ' ' || c == '\t' || c == '\n' || c == '\r' || c == '\U{B}' || c == '\U{C}'
    || c == '\U{A0}' || c == '\U{3000}'
  }

  /** Length of the leading whitespace run of `s` (`\s*` is greedy). */
  function SpaceRun(s: string): (n: nat)
    ensures n <= |s|
  {
    if |s| > 0 && IsSpace(s[0]) then 1 + SpaceRun(s[1..]) else 0
  }

  /** The run is whitespace and stops before the first other character. */
  lemma {:induction false} SpaceRunIsMaximal(s: string)
    ensures forall i :: 0 <= i < SpaceRun(s) ==> IsSpace(s[i])
    ensures SpaceRun(s) < |s| ==> !IsSpace(s[SpaceRun(s)])
    decreases |s|
  {
    if |s| > 0 && IsSpace(s[0]) {
      SpaceRunIsMaximal(s[1..]);
      forall i | 1 <= i < SpaceRun(s) ensures IsSpace(s[i]) {
        assert s[1..][i - 1] == s[i];
      }
    }
  }

  /** The first `d` characters from `w` on, read two ways. */
  lemma SuffixPrefix(s: string, w: nat, d: nat)
    requires w + d <= |s|
    ensures s[w..][..d] == s[w..w + d]
  {
    forall i | 0 <= i < d ensures s[w..][..d][i] == s[w..w + d][i] {
      assert s[w..][..d][i] == s[w + i];
    }
  }

  /** Length of the leading digit run of `s` (`\d+` is greedy). */
  function DigitRun(s: string): (n: nat)
    ensures n <= |s|
  {
    if |s| > 0 && IsDigit(s[0]) then 1 + DigitRun(s[1..]) else 0
  }

  /** The run is digits and stops before the first non-digit. */
  lemma {:induction false} DigitRunIsMaximal(s: string)
    ensures AllDigits(s[..DigitRun(s)])
    ensures DigitRun(s) < |s| ==> !IsDigit(s[DigitRun(s)])
    decreases |s|
  {
    if |s| > 0 && IsDigit(s[0]) {
      DigitRunIsMaximal(s[1..]);
      var n := DigitRun(s);
      forall i | 0 <= i < n ensures IsDigit(s[..n][i]) {
        if i > 0 {
          assert s[..n][i] == s[1..][..n - 1][i - 1];
        }
      }
    }
  }

  /** `int(...)` / `parseInt(..., 10)` of a run of decimal digits. */
  function DigitsValue(ds: string): nat
    requires AllDigits(ds)
    decreases |ds|
  {
    if |ds| == 0 then 0
    else 10 * DigitsValue(ds[..|ds| - 1]) + (ds[|ds| - 1] as int - '0' as int)
  }

  /** Reading back the decimal rendering of an id gives the id: the parser
      understands the numbers that player names and prompts are written with. */
  lemma {:induction false} DigitsValueOfNatToString(n: nat)
    ensures DigitsValue(NatToString(n)) == n
    decreases n
  {
    if n >= 10 {
      var s := NatToString(n);
      assert s[..|s| - 1] == NatToString(n / 10);
      DigitsValueOfNatToString(n / 10);
    }
  }

  /** The pattern `lit \s* (\d+)` tried at position `p` of `s`. */
  function MatchAt(lit: string, s: string, p: nat): (r: Option<nat>)
    requires p <= |s|
    ensures r.Some? ==> p + |lit| <= |s| && s[p..p + |lit|] == lit
  {
    if p + |lit| <= |s| && s[p..p + |lit|] == lit then
      NumberAt(s, p + |lit| + SpaceRun(s[p + |lit|..]))
    else None
  }

  /** `(\d+)` at position `w`: the value of the greedy digit run there, and
      nothing when no digit follows. */
  function NumberAt(s: string, w: nat): (r: Option<nat>)
    requires w <= |s|
  {
    var d := DigitRun(s[w..]);
    DigitsAt(s, w);
    if d == 0 then None else Some(DigitsValue(s[w..w + d]))
  }

  /** `lit \s* (\d+)` matches at `p` reading `x`: the literal, `k`
      whitespace characters, then a run of `d >= 1` digits that no further
      digit follows, whose value is `x`. */
  predicate MatchesAs(lit: string, s: string, p: nat, k: nat, d: nat, x: nat) {
    var w := p + |lit| + k;
    && w + d <= |s| && s[p..p + |lit|] == lit
    && (forall i :: p + |lit| <= i < w ==> IsSpace(s[i]))
    && 1 <= d && AllDigits(s[w..w + d])
    && (w + d < |s| ==> !IsDigit(s[w + d]))
    && x == DigitsValue(s[w..w + d])
  }

  /** What a match at `p` is, stated without the greedy runs: the pattern
      reads `x` at `p` exactly when some whitespace count and digit count
      make the text match as `x`.  The digit run is maximal because `\d+`
      is greedy, and the whitespace run is forced because a digit is not
      whitespace. */
  lemma MatchAtIff(lit: string, s: string, p: nat, x: nat)
    requires p <= |s|
    ensures MatchAt(lit, s, p) == Some(x) <==> exists k: nat, d: nat :: MatchesAs(lit, s, p, k, d, x)
  {
    if MatchAt(lit, s, p) == Some(x) {
      MatchIsShaped(lit, s, p, x);
    }
    if k: nat, d: nat :| MatchesAs(lit, s, p, k, d, x) {
      ShapeIsMatch(lit, s, p, k, d, x);
    }
  }

  lemma MatchIsShaped(lit: string, s: string, p: nat, x: nat)
    requires p <= |s| && MatchAt(lit, s, p) == Some(x)
    ensures MatchesAs(lit, s, p, SpaceRun(s[p + |lit|..]), DigitRun(s[p + |lit| + SpaceRun(s[p + |lit|..])..]), x)
  {
    MatchValue(lit, s, p);
    var k := SpaceRun(s[p + |lit|..]);
    RunsShaped(lit, s, p, k, DigitRun(s[p + |lit| + k..]), x);
  }

  /** The greedy runs after a literal found at `p` have the shape of a match
      reading their value. */
  lemma RunsShaped(lit: string, s: string, p: nat, k: nat, d: nat, x: nat)
    requires p + |lit| <= |s| && s[p..p + |lit|] == lit
    requires k == SpaceRun(s[p + |lit|..]) && p + |lit| + k <= |s| && d == DigitRun(s[p + |lit| + k..])
    requires 1 <= d && p + |lit| + k + d <= |s| && AllDigits(s[p + |lit| + k..p + |lit| + k + d])
    requires x == DigitsValue(s[p + |lit| + k..p + |lit| + k + d])
    ensures MatchesAs(lit, s, p, k, d, x)
  {
    SpacesAt(s, p + |lit|);
    DigitsAt(s, p + |lit| + k);
  }

  /** A match reads the digit run after the literal and its whitespace. */
  lemma MatchValue(lit: string, s: string, p: nat)
    requires p <= |s| && MatchAt(lit, s, p).Some?
    ensures var w := p + |lit| + SpaceRun(s[p + |lit|..]);
            var d := DigitRun(s[w..]);
            d >= 1 && w + d <= |s| && AllDigits(s[w..w + d])
            && MatchAt(lit, s, p) == Some(DigitsValue(s[w..w + d]))
  {
    var w := p + |lit| + SpaceRun(s[p + |lit|..]);
    assert MatchAt(lit, s, p) == NumberAt(s, w);
    NumberValue(s, w);
  }

  lemma NumberValue(s: string, w: nat)
    requires w <= |s| && NumberAt(s, w).Some?
    ensures var d := DigitRun(s[w..]);
            d >= 1 && w + d <= |s| && AllDigits(s[w..w + d])
            && NumberAt(s, w) == Some(DigitsValue(s[w..w + d]))
  {
    DigitsAt(s, w);
  }

  /** The whitespace run after position `a`, in the coordinates of `s`. */
  lemma SpacesAt(s: string, a: nat)
    requires a <= |s|
    ensures a + SpaceRun(s[a..]) <= |s|
    ensures forall i :: a <= i < a + SpaceRun(s[a..]) ==> IsSpace(s[i])
  {
    var t := s[a..];
    SpaceRunIsMaximal(t);
    forall i | a <= i < a + SpaceRun(t) ensures IsSpace(s[i]) {
      assert t[i - a] == s[i];
    }
  }

  /** The digit run after position `w`, in the coordinates of `s`. */
  lemma DigitsAt(s: string, w: nat)
    requires w <= |s|
    ensures w + DigitRun(s[w..]) <= |s|
    ensures AllDigits(s[w..w + DigitRun(s[w..])])
    ensures w + DigitRun(s[w..]) < |s| ==> !IsDigit(s[w + DigitRun(s[w..])])
  {
    var d := DigitRun(s[w..]);
    DigitRunIsMaximal(s[w..]);
    assert s[w..][..d] == s[w..w + d];
    if w + d < |s| {
      assert s[w..][d] == s[w + d];
    }
  }

  lemma ShapeIsMatch(lit: string, s: string, p: nat, k: nat, d: nat, x: nat)
    requires MatchesAs(lit, s, p, k, d, x)
    ensures MatchAt(lit, s, p) == Some(x)
  {
    var t := s[p + |lit|..];
    var w := p + |lit| + k;
    forall i | 0 <= i < k ensures IsSpace(t[i]) {
      assert t[i] == s[p + |lit| + i];
    }
    assert t[k] == s[w];
    assert IsDigit(s[w..w + d][0]);
    SpaceRunExact(t, k);
    var u := s[w..];
    SuffixPrefix(s, w, d);
    if d < |u| {
      assert u[d] == s[w + d];
    }
    DigitRunExact(u, d);
  }

  lemma {:induction false} SpaceRunExact(t: string, k: nat)
    requires k < |t| && (forall i :: 0 <= i < k ==> IsSpace(t[i])) && !IsSpace(t[k])
    ensures SpaceRun(t) == k
    decreases k
  {
    if k > 0 {
      SpaceRunExact(t[1..], k - 1);
    }
  }

  lemma {:induction false} DigitRunExact(t: string, d: nat)
    requires d <= |t| && AllDigits(t[..d]) && (d < |t| ==> !IsDigit(t[d]))
    ensures DigitRun(t) == d
    decreases d
  {
    if d > 0 {
      assert IsDigit(t[..d][0]);
      assert t[1..][..d - 1] == t[..d][1..];
      DigitRunExact(t[1..], d - 1);
    }
  }

  /** No match of the pattern starts in positions `p` up to, excluding, `q`. */
  predicate NoMatchBetween(lit: string, s: string, p: nat, q: nat)
    requires q <= |s| + 1
  {
    forall q' :: p <= q' < q ==> MatchAt(lit, s, q').None?
  }

  /** Leftmost position from `p` on where the pattern matches (the scan that
      `re.search` and `String.prototype.match` perform). */
  function FindFrom(lit: string, s: string, p: nat): (r: Option<nat>)
    requires p <= |s|
    ensures r.Some? ==> p <= r.value <= |s| && MatchAt(lit, s, r.value).Some?
                        && NoMatchBetween(lit, s, p, r.value)
    ensures r.None? ==> NoMatchBetween(lit, s, p, |s| + 1)
    decreases |s| - p
  {
    if MatchAt(lit, s, p).Some? then Some(p)
    else if p == |s| then None
    else
      var r := FindFrom(lit, s, p + 1);
      assert r.Some? ==> NoMatchBetween(lit, s, p, r.value);
      r
  }

  /** `re.search` / `String.prototype.match`: the id captured by the
      leftmost match, and nothing when the pattern matches nowhere. */
  function Search(lit: string, s: string): (r: Option<nat>)
    ensures r.None? <==> NoMatchBetween(lit, s, 0, |s| + 1)
    ensures r.Some? ==> exists q :: 0 <= q <= |s| && NoMatchBetween(lit, s, 0, q) && r == MatchAt(lit, s, q)
  {
    match FindFrom(lit, s, 0)
    case Some(q) => MatchAt(lit, s, q)
    case None => None
  }

  /** How the loosest pattern chooses the sentence it inspects. */
  datatype SentenceRule =
    | FinalSegment        // app.py: the text after the last `。`
    | PenultimateSegment  // server.js: the segment before the last `。`, `！` or `?`

  predicate IsStop(rule: SentenceRule, c: char) {
    match rule
    case FinalSegment => c == '。'
    case PenultimateSegment => c == '。' || c == '！' || c == '?'
  }

  /** `split` on the rule's stop characters: the segments between them. */
  function Split(rule: SentenceRule, s: string): (parts: seq<string>)
    ensures |parts| >= 1
  {
    if |s| == 0 then [""]
    else
      var rest := Split(rule, s[1..]);
      if IsStop(rule, s[0]) then [""] + rest
      else [[s[0]] + rest[0]] + rest[1..]
  }

  /** No segment of the split contains a stop character. */
  lemma {:induction false} SplitSegmentsHaveNoStop(rule: SentenceRule, s: string)
    ensures forall i :: 0 <= i < |Split(rule, s)| ==> NoStop(rule, Split(rule, s)[i])
    decreases |s|
  {
    if |s| > 0 {
      SplitSegmentsHaveNoStop(rule, s[1..]);
      var rest := Split(rule, s[1..]);
      if !IsStop(rule, s[0]) {
        assert NoStop(rule, rest[0]);
        var first := [s[0]] + rest[0];
        assert forall j :: 1 <= j < |first| ==> first[j] == rest[0][j - 1];
        assert NoStop(rule, first);
        assert Split(rule, s)[1..] == rest[1..];
      } else {
        assert Split(rule, s)[1..] == rest;
      }
    }
  }

  /** Splitting loses only the stop characters: gluing the segments back with
      the stops that separated them gives the text back. */
  function Unsplit(parts: seq<string>, stops: seq<char>): string
    requires |stops| + 1 == |parts|
    decreases |stops|
  {
    if |stops| == 0 then parts[0] else parts[0] + [stops[0]] + Unsplit(parts[1..], stops[1..])
  }

  function Stops(rule: SentenceRule, s: string): (r: seq<char>)
    ensures forall i :: 0 <= i < |r| ==> IsStop(rule, r[i])
  {
    if |s| == 0 then []
    else if IsStop(rule, s[0]) then [s[0]] + Stops(rule, s[1..])
    else Stops(rule, s[1..])
  }

  lemma {:induction false} SplitRoundTrip(rule: SentenceRule, s: string)
    ensures |Stops(rule, s)| + 1 == |Split(rule, s)|
    ensures Unsplit(Split(rule, s), Stops(rule, s)) == s
  {
    if |s| > 0 {
      SplitRoundTrip(rule, s[1..]);
      var rest := Split(rule, s[1..]);
      var stops := Stops(rule, s[1..]);
      if IsStop(rule, s[0]) {
        assert ([""] + rest)[1..] == rest;
      } else {
        var parts := [[s[0]] + rest[0]] + rest[1..];
        if |stops| > 0 {
          assert parts[1..] == rest[1..];
        }
        assert s == [s[0]] + s[1..];
      }
    }
  }

  /** A text that ends with a stop character splits into a last segment that is empty. */
  lemma {:induction false} SplitAfterFinalStop(rule: SentenceRule, s: string)
    requires |s| > 0 && IsStop(rule, s[|s| - 1])
    ensures Split(rule, s)[|Split(rule, s)| - 1] == ""
  {
    if |s| > 1 {
      SplitAfterFinalStop(rule, s[1..]);
    }
  }

  /** One step of `Split` on a text whose first character is not a stop. */
  lemma SplitStep(rule: SentenceRule, s: string, rest: seq<string>)
    requires |s| > 0 && !IsStop(rule, s[0]) && Split(rule, s[1..]) == rest
    ensures Split(rule, s) == [[s[0]] + rest[0]] + rest[1..]
  {
  }

  /** The sentence the loosest pattern looks at: one of the segments, so
      it holds no stop character. */
  function LastSentence(rule: SentenceRule, text: string): (r: string)
    ensures r in Split(rule, text)
    ensures NoStop(rule, r)
  {
    var parts := Split(rule, text);
    SplitSegmentsHaveNoStop(rule, text);
    match rule
    case FinalSegment => parts[|parts| - 1]
    case PenultimateSegment =>
      if |parts| >= 2 && parts[|parts| - 2] != "" then parts[|parts| - 2] else parts[0]
  }

  /** `t` holds no stop character of the rule. */
  predicate NoStop(rule: SentenceRule, t: string) {
    forall j :: 0 <= j < |t| ==> !IsStop(rule, t[j])
  }

  /** `k` is where the text after the last stop begins: 0, or just past a
      stop, with no stop from there on. */
  predicate AfterLastStop(rule: SentenceRule, text: string, k: nat) {
    k <= |text| && (k == 0 || IsStop(rule, text[k - 1])) && NoStop(rule, text[k..])
  }

  /** `f` is the first stop of the text, or its length when it has none. */
  predicate FirstStopAt(rule: SentenceRule, text: string, f: nat) {
    f <= |text| && NoStop(rule, text[..f]) && (f < |text| ==> IsStop(rule, text[f]))
  }

  /** `text[a..b]` is the sentence the last stop, at `b`, closes: it starts
      at the beginning or just past the stop before. */
  predicate ClosedByLastStop(rule: SentenceRule, text: string, a: nat, b: nat) {
    a <= b < |text| && IsStop(rule, text[b]) && NoStop(rule, text[b + 1..])
    && NoStop(rule, text[a..b]) && (a == 0 || IsStop(rule, text[a - 1]))
  }

  /** Every text has a last stop position, 0 when it has no stop. */
  lemma {:induction false} AfterLastStopExists(rule: SentenceRule, text: string)
    ensures exists k :: AfterLastStop(rule, text, k)
    decreases |text|
  {
    if |text| == 0 {
      assert AfterLastStop(rule, text, 0);
    } else if IsStop(rule, text[|text| - 1]) {
      assert AfterLastStop(rule, text, |text|);
    } else {
      var init := text[..|text| - 1];
      AfterLastStopExists(rule, init);
      var k: nat :| AfterLastStop(rule, init, k);
      forall j | 0 <= j < |text[k..]| ensures !IsStop(rule, text[k..][j]) {
        if k + j < |init| {
          assert text[k..][j] == init[k..][j];
        }
      }
      assert AfterLastStop(rule, text, k);
    }
  }

  /** A text whose last stop is at `b` has a sentence that stop closes. */
  lemma ClosedByLastStopExists(rule: SentenceRule, text: string, b: nat)
    requires AfterLastStop(rule, text, b + 1)
    ensures exists a :: ClosedByLastStop(rule, text, a, b)
  {
    var k := b + 1;
    AfterLastStopExists(rule, text[..b]);
    var a: nat :| AfterLastStop(rule, text[..b], a);
    assert text[..b][a..] == text[a..b];
    if a > 0 {
      assert text[..b][a - 1] == text[a - 1];
    }
    assert text[b + 1..] == text[k..];
    assert ClosedByLastStop(rule, text, a, b);
  }

  /** Every text has a first stop position, its length when it has no stop. */
  lemma {:induction false} FirstStopExists(rule: SentenceRule, text: string)
    ensures exists f :: FirstStopAt(rule, text, f)
    decreases |text|
  {
    if |text| == 0 || IsStop(rule, text[0]) {
      assert FirstStopAt(rule, text, 0);
    } else {
      FirstStopExists(rule, text[1..]);
      var f: nat :| FirstStopAt(rule, text[1..], f);
      var pre := text[..f + 1];
      forall j | 0 <= j < |pre| ensures !IsStop(rule, pre[j]) {
        if j > 0 {
          assert pre[j] == text[1..][..f][j - 1];
        }
      }
      if f + 1 < |text| {
        assert text[f + 1] == text[1..][f];
      }
      assert FirstStopAt(rule, text, f + 1);
    }
  }

  /** Text without a stop is a single segment. */
  lemma {:induction false} SplitWithoutStop(rule: SentenceRule, s: string)
    requires NoStop(rule, s)
    ensures Split(rule, s) == [s]
    decreases |s|
  {
    if |s| > 0 {
      assert NoStop(rule, s[1..]) by {
        forall j | 0 <= j < |s| - 1 ensures !IsStop(rule, s[1..][j]) {
          assert s[1..][j] == s[j + 1];
        }
      }
      SplitWithoutStop(rule, s[1..]);
      assert [s[0]] + s[1..] == s;
    }
  }

  /** Splitting at a stop splits the text on either side of it. */
  lemma {:induction false} SplitAtStop(rule: SentenceRule, s: string, b: nat)
    requires b < |s| && IsStop(rule, s[b])
    ensures Split(rule, s) == Split(rule, s[..b]) + Split(rule, s[b + 1..])
    decreases b
  {
    if b > 0 {
      var t := s[1..];
      assert t[b - 1] == s[b];
      SplitAtStop(rule, t, b - 1);
      assert t[..b - 1] == s[..b][1..] && t[b..] == s[b + 1..];
      SplitFront(rule, s, b);
    }
  }

  /** One step of `SplitAtStop`: the first character joins or precedes the
      split of the rest, on both sides of the equation. */
  lemma SplitFront(rule: SentenceRule, s: string, b: nat)
    requires 0 < b < |s|
    requires Split(rule, s[1..]) == Split(rule, s[..b][1..]) + Split(rule, s[b + 1..])
    ensures Split(rule, s) == Split(rule, s[..b]) + Split(rule, s[b + 1..])
  {
    assert s[..b][0] == s[0];
    if IsStop(rule, s[0]) {
      SplitFrontStop(rule, s, b);
    } else {
      SplitFrontJoin(rule, s, b);
    }
  }

  lemma SplitFrontStop(rule: SentenceRule, s: string, b: nat)
    requires 0 < b < |s| && IsStop(rule, s[0]) && s[..b][0] == s[0]
    requires Split(rule, s[1..]) == Split(rule, s[..b][1..]) + Split(rule, s[b + 1..])
    ensures Split(rule, s) == Split(rule, s[..b]) + Split(rule, s[b + 1..])
  {
    SplitStopStep(rule, s);
    SplitStopStep(rule, s[..b]);
    ConsAssoc(Split(rule, s), Split(rule, s[1..]), Split(rule, s[..b]),
              Split(rule, s[..b][1..]), Split(rule, s[b + 1..]));
  }

  lemma ConsAssoc(all: seq<string>, rest: seq<string>, front: seq<string>, head: seq<string>, tail: seq<string>)
    requires all == [""] + rest && rest == head + tail && front == [""] + head
    ensures all == front + tail
  {
  }

  /** One step of `Split` on a text whose first character is a stop. */
  lemma SplitStopStep(rule: SentenceRule, s: string)
    requires |s| > 0 && IsStop(rule, s[0])
    ensures Split(rule, s) == [""] + Split(rule, s[1..])
  {
  }

  lemma SplitFrontJoin(rule: SentenceRule, s: string, b: nat)
    requires 0 < b < |s| && !IsStop(rule, s[0]) && s[..b][0] == s[0]
    requires Split(rule, s[1..]) == Split(rule, s[..b][1..]) + Split(rule, s[b + 1..])
    ensures Split(rule, s) == Split(rule, s[..b]) + Split(rule, s[b + 1..])
  {
    var head := Split(rule, s[..b][1..]);
    var tail := Split(rule, s[b + 1..]);
    SplitStep(rule, s, head + tail);
    SplitStep(rule, s[..b], head);
    JoinFirst(s[0], head, tail);
  }

  lemma JoinFirst(c: char, head: seq<string>, tail: seq<string>)
    requires |head| >= 1
    ensures [[c] + (head + tail)[0]] + (head + tail)[1..] == ([[c] + head[0]] + head[1..]) + tail
  {
    assert (head + tail)[1..] == head[1..] + tail;
  }

  /** The first segment is the text before the first stop. */
  lemma FirstSegment(rule: SentenceRule, text: string, f: nat)
    requires FirstStopAt(rule, text, f)
    ensures Split(rule, text)[0] == text[..f]
  {
    if f < |text| {
      SplitAtStop(rule, text, f);
    } else {
      assert text[..f] == text;
    }
    SplitWithoutStop(rule, text[..f]);
  }

  /** app.py's sentence, `text.split('。')[-1]`, is the text after the last `。`. */
  lemma FinalSentenceAt(text: string, k: nat)
    requires AfterLastStop(FinalSegment, text, k)
    ensures LastSentence(FinalSegment, text) == text[k..]
  {
    SplitWithoutStop(FinalSegment, text[k..]);
    if k > 0 {
      SplitAtStop(FinalSegment, text, k - 1);
    } else {
      assert text[k..] == text;
    }
  }

  /** server.js's sentence on a text without a stop is the whole text. */
  lemma PenultimateWithoutStop(text: string)
    requires NoStop(PenultimateSegment, text)
    ensures LastSentence(PenultimateSegment, text) == text
  {
    SplitWithoutStop(PenultimateSegment, text);
  }

  /** server.js's sentence, `sentences[len - 2] || sentences[0]`, on a text
      with a stop: the sentence the last stop closes when it is not empty,
      otherwise the text before the first stop. */
  lemma PenultimateSentenceAt(text: string, a: nat, b: nat, f: nat)
    requires ClosedByLastStop(PenultimateSegment, text, a, b)
    requires FirstStopAt(PenultimateSegment, text, f)
    ensures LastSentence(PenultimateSegment, text) == if a < b then text[a..b] else text[..f]
  {
    var rule := PenultimateSegment;
    SplitAtStop(rule, text, b);
    SplitWithoutStop(rule, text[b + 1..]);
    var front := Split(rule, text[..b]);
    assert text[..b][a..] == text[a..b];
    SplitWithoutStop(rule, text[a..b]);
    if a > 0 {
      SplitAtStop(rule, text[..b], a - 1);
    } else {
      assert text[..b] == text[a..b];
    }
    assert front[|front| - 1] == text[a..b];
    FirstSegment(rule, text, f);
  }

  /** Pattern number `k` (0 is the most specific) applied to the text. */
  function Pattern(rule: SentenceRule, text: string, k: nat): Option<nat>
    requires k < 4
  {
    if k == 0 then Search(VotedForPlayer, text)
    else if k == 1 then Search(GaveToPlayer, text)
    else if k == 2 then Search(VotePlayer, text)
    else Search(PlayerMention, LastSentence(rule, text))
  }

  /** The cascade: the id captured by the first pattern that matches. */
  function Cascade(rule: SentenceRule, text: string): (r: Option<nat>)
    ensures r.None? <==> forall k :: 0 <= k < 4 ==> Pattern(rule, text, k).None?
    ensures forall k :: 0 <= k < 4 && Pattern(rule, text, k).Some?
                        && (forall j :: 0 <= j < k ==> Pattern(rule, text, j).None?)
                        ==> r == Pattern(rule, text, k)
  {
    var m0 := Pattern(rule, text, 0);
    if m0.Some? then m0
    else
      var m1 := Pattern(rule, text, 1);
      if m1.Some? then m1
      else
        var m2 := Pattern(rule, text, 2);
        if m2.Some? then m2 else Pattern(rule, text, 3)
  }

  /** The legal targets: the active ids other than the voter, in order. */
  function Targets(voter: nat, ids: seq<nat>): (ts: seq<nat>)
    ensures forall x :: x in ts <==> x in ids && x != voter
    ensures |ts| <= |ids|
  {
    if |ids| == 0 then []
    else (if ids[0] != voter then [ids[0]] else []) + Targets(voter, ids[1..])
  }

  /** `random.choice(possible_targets)`, the choice given as `pick`. */
  function Fallback(ts: seq<nat>, pick: nat): (r: nat)
    requires |ts| > 0
    ensures r in ts
  {
    ts[pick % |ts|]
  }

  /** Every legal target is a possible fallback. */
  lemma FallbackReachesAll(ts: seq<nat>, x: nat)
    requires x in ts
    ensures exists pick :: Fallback(ts, pick) == x
  {
    var i :| 0 <= i < |ts| && ts[i] == x;
    assert Fallback(ts, i) == x;
  }

  function ParseVote(rule: SentenceRule, text: string, voter: nat, ids: seq<nat>, pick: nat): (r: Option<nat>)
    ensures r.None? <==> forall x :: x in ids ==> x == voter
    ensures r.Some? ==> r.value in ids && r.value != voter
  {
    var ts := Targets(voter, ids);
    if |ts| == 0 then None
    else
      assert ts[0] in ts;
      match Cascade(rule, text)
      case Some(x) => if x in ts then Some(x) else Some(Fallback(ts, pick))
      case None => Some(Fallback(ts, pick))
  }

  /** The first matching pattern decides: a legal id there is the vote, an
      illegal one sends the parser to the fallback even when a looser pattern
      would have found a legal id. */
  lemma FirstMatchDecides(rule: SentenceRule, text: string, voter: nat, ids: seq<nat>, pick: nat, k: nat)
    requires k < 4 && Pattern(rule, text, k).Some?
    requires forall j :: 0 <= j < k ==> Pattern(rule, text, j).None?
    requires exists x :: x in ids && x != voter
    ensures var x := Pattern(rule, text, k).value;
            var ts := Targets(voter, ids);
            ParseVote(rule, text, voter, ids, pick)
              == if x in ids && x != voter then Some(x) else Some(Fallback(ts, pick))
  {
  }

  /** Nothing matches: the vote is the fallback choice among the legal targets. */
  lemma NoMatchFallsBack(rule: SentenceRule, text: string, voter: nat, ids: seq<nat>, pick: nat)
    requires forall k :: 0 <= k < 4 ==> Pattern(rule, text, k).None?
    requires exists x :: x in ids && x != voter
    ensures ParseVote(rule, text, voter, ids, pick) == Some(Fallback(Targets(voter, ids), pick))
  {
  }

  /** In app.py the loosest pattern reads only what follows the last `。`, so
      it never fires on a text that ends with `。`. */
  lemma FinalSegmentSilentAfterStop(text: string)
    requires |text| > 0 && text[|text| - 1] == '。'
    ensures Pattern(FinalSegment, text, 3) == None
  {
    SplitAfterFinalStop(FinalSegment, text);
    assert LastSentence(FinalSegment, text) == "";
  }

  /** The two sentence rules disagree on a one-sentence vote that ends with `。`:
      server.js reads the id, app.py falls back to its random choice. */
  lemma SentenceRulesDisagree()
    ensures ParseVote(PenultimateSegment, "玩家2。", 1, [1, 2, 3], 1) == Some(2)
    ensures ParseVote(FinalSegment, "玩家2。", 1, [1, 2, 3], 1) == Some(3)
  {
    ExamplePenultimateReads();
    ExampleFinalFallsBack();
  }

  lemma ExamplePenultimateReads()
    ensures ParseVote(PenultimateSegment, "玩家2。", 1, [1, 2, 3], 1) == Some(2)
  {
    ExampleStrictPatternsMiss(PenultimateSegment);
    ExamplePenultimateSentence();
    ExampleMention();
    ExampleTargets();
    FirstMatchDecides(PenultimateSegment, "玩家2。", 1, [1, 2, 3], 1, 3);
  }

  lemma ExampleFinalFallsBack()
    ensures ParseVote(FinalSegment, "玩家2。", 1, [1, 2, 3], 1) == Some(3)
  {
    FinalSegmentSilentAfterStop("玩家2。");
    ExampleStrictPatternsMiss(FinalSegment);
    ExampleTargets();
    NoMatchFallsBack(FinalSegment, "玩家2。", 1, [1, 2, 3], 1);
  }

  lemma ExampleTargets()
    ensures 2 in [1, 2, 3] && Targets(1, [1, 2, 3]) == [2, 3] && Fallback([2, 3], 1) == 3
  {
    assert Targets(1, [1, 2, 3]) == [2, 3];
  }

  lemma ExamplePenultimateSentence()
    ensures LastSentence(PenultimateSegment, "玩家2。") == "玩家2"
  {
    var js := PenultimateSegment;
    var text := "玩家2。";
    assert Split(js, "") == [""];
    assert "。"[1..] == "" && Split(js, "。") == ["", ""];
    SplitStep(js, "2。", ["", ""]);
    assert ['2'] + "" == "2";
    assert "家2。"[1..] == "2。";
    SplitStep(js, "家2。", ["2", ""]);
    assert ['家'] + "2" == "家2";
    assert text[1..] == "家2。";
    SplitStep(js, text, ["家2", ""]);
    assert ['玩'] + "家2" == "玩家2";
  }

  lemma ExampleMention()
    ensures Search(PlayerMention, "玩家2") == Some(2)
  {
    var line := "玩家2";
    assert line[0..2] == PlayerMention;
    assert line[2..] == "2" && SpaceRun("2") == 0 && DigitRun("2") == 1;
    assert line[2..3] == "2" && DigitsValue("2") == 2;
    assert MatchAt(PlayerMention, line, 0) == Some(2);
  }

  lemma ExampleStrictPatternsMiss(rule: SentenceRule)
    ensures forall k :: 0 <= k < 3 ==> Pattern(rule, "玩家2。", k).None?
  {
    var text := "玩家2。";
    forall k | 0 <= k < 3 ensures Pattern(rule, text, k).None? {
      var lit := if k == 0 then VotedForPlayer else if k == 1 then GaveToPlayer else VotePlayer;
      assert lit[0] == '投';
      forall q | 0 <= q <= |text| ensures MatchAt(lit, text, q).None? {
      }
    }
  }
}
