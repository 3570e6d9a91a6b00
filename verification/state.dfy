/** The game record and its initialisation: a word pair is drawn from the
    catalogue, a coin decides which word the civilians hold, the word list
    with the requested multiplicities is shuffled and dealt one word per
    player, and everyone starts active. */
module State {
  import opened Basics
  import opened Roster
  import opened Events

  datatype Game = Game(
    words: seq<string>,
    undercoverWord: string,
    civilianWord: string,
    players: seq<Player>,
    currentRound: nat,
    discussion: seq<Entry>,
    votes: map<nat, Option<nat>>,
    gameOver: bool,
    winner: Option<Role>,
    summary: Option<Summary>)

  /** The fixed catalogue of similar-but-different word pairs. */
  const WordPairs: seq<(string, string)> := [
    ("牛奶", "豆浆"), ("画家", "作家"), ("手机", "相机"), ("包子", "馒头"),
    ("薯条", "薯片"), ("毛巾", "手帕"), ("太阳", "月亮")]

  lemma CatalogueWordsDistinct()
    ensures forall i :: 0 <= i < |WordPairs| ==> WordPairs[i].0 != WordPairs[i].1
  {
    forall i | 0 <= i < |WordPairs| ensures WordPairs[i].0 != WordPairs[i].1 {
      assert WordPairs[i].0[1] != WordPairs[i].1[1] || WordPairs[i].0[0] != WordPairs[i].1[0];
    }
  }

  /** The random choices initialisation makes: the pair (an index reduced
      modulo the catalogue size), the coin flip, and for each shuffle step
      `i` a draw reduced modulo `i + 1`. */
  datatype Choices = Choices(pairIndex: nat, civilianFirst: bool, draw: nat -> nat)

  /** `[w] * k`. */
  function Repeat(w: string, k: nat): (r: seq<string>)
    ensures |r| == k && forall i :: 0 <= i < k ==> r[i] == w
  {
    if k == 0 then [] else [w] + Repeat(w, k - 1)
  }

  lemma {:induction false} RepeatCounts(w: string, k: nat, v: string)
    ensures multiset(Repeat(w, k))[v] == if v == w then k else 0
  {
    if k > 0 {
      RepeatCounts(w, k - 1, v);
      assert Repeat(w, k) == [w] + Repeat(w, k - 1);
    }
  }

  function Swap(ws: seq<string>, i: nat, j: nat): (r: seq<string>)
    requires i < |ws| && j < |ws|
    ensures |r| == |ws| && multiset(r) == multiset(ws)
  {
    ws[i := ws[j]][j := ws[i]]
  }

  /** The Fisher–Yates loop from index `i` down to 1: swap position `i` with
      a drawn position `j <= i`. */
  function ShuffleDown(ws: seq<string>, i: nat, draw: nat -> nat): (r: seq<string>)
    requires i < |ws|
    ensures |r| == |ws| && multiset(r) == multiset(ws)
    decreases i
  {
    if i == 0 then ws
    else ShuffleDown(Swap(ws, i, draw(i) % (i + 1)), i - 1, draw)
  }

  /** The shuffle is a permutation of the words. */
  function Shuffle(ws: seq<string>, draw: nat -> nat): (r: seq<string>)
    ensures |r| == |ws| && multiset(r) == multiset(ws)
  {
    if |ws| == 0 then ws else ShuffleDown(ws, |ws| - 1, draw)
  }

  function MakePlayer(id: nat, word: string, undercoverWord: string): Player {
    var isUndercover := word == undercoverWord;
    Player(id, PlayerName(id), RoleOf(isUndercover), isUndercover, word, true)
  }

  /** The players dealt one word each; ids run from `first` upwards. */
  function Deal(words: seq<string>, undercoverWord: string, first: nat): (ps: seq<Player>)
    ensures |ps| == |words|
    ensures forall i :: 0 <= i < |ps| ==> ps[i] == MakePlayer(first + i, words[i], undercoverWord)
    decreases |words|
  {
    if |words| == 0 then []
    else [MakePlayer(first, words[0], undercoverWord)] + Deal(words[1..], undercoverWord, first + 1)
  }

  /** A roster dealt from `words` has as many undercover players as the words
      hold copies of the undercover word. */
  lemma {:induction false} UndercoverCountOfDeal(ps: seq<Player>, words: seq<string>, uw: string)
    requires |ps| == |words|
    requires forall i :: 0 <= i < |ps| ==> (ps[i].isUndercover <==> words[i] == uw)
    ensures |UndercoverPlayers(ps)| == multiset(words)[uw]
  {
    if |ps| > 0 {
      UndercoverCountOfDeal(ps[1..], words[1..], uw);
      assert words == [words[0]] + words[1..];
    }
  }

  /** The catalogue pair at the drawn index, ordered by the coin: the
      civilian word first, the undercover word second. */
  function PickWords(ch: Choices): (w: (string, string))
    ensures w.0 != w.1
    ensures var pair := WordPairs[ch.pairIndex % |WordPairs|];
            {w.0, w.1} == {pair.0, pair.1}
            && (ch.civilianFirst ==> w.0 == pair.0)
            && (!ch.civilianFirst ==> w.0 == pair.1)
  {
    var pair := WordPairs[ch.pairIndex % |WordPairs|];
    CatalogueWordsDistinct();
    if ch.civilianFirst then (pair.0, pair.1) else (pair.1, pair.0)
  }

  /** The shape of a dealt roster: ids 1..n in order, everyone active and
      named after their id, roles that agree with the words. */
  lemma DealShape(words: seq<string>, uw: string)
    ensures var ps := Deal(words, uw, 1);
            && |ps| == |words| && IdsInOrder(ps)
            && (forall i :: 0 <= i < |ps| ==> ps[i].active && ps[i].name == PlayerName(i + 1))
            && (forall i :: 0 <= i < |ps| ==> ps[i].word == words[i])
            && (forall i :: 0 <= i < |ps| ==> (ps[i].isUndercover <==> ps[i].word == uw))
            && (forall i :: 0 <= i < |ps| ==> ps[i].role == RoleOf(ps[i].isUndercover))
  {
  }

  /** A shuffle of `n - u` civilian words and `u` undercover words holds
      only those two words, and `u` copies of the undercover word. */
  lemma ShuffledWords(words: seq<string>, cw: string, uw: string, n: nat, u: nat)
    requires u <= n && cw != uw
    requires multiset(words) == multiset(Repeat(cw, n - u) + Repeat(uw, u))
    ensures forall i :: 0 <= i < |words| ==> words[i] == cw || words[i] == uw
    ensures multiset(words)[uw] == u
  {
    var dealt := Repeat(cw, n - u) + Repeat(uw, u);
    RepeatCounts(cw, n - u, uw);
    RepeatCounts(uw, u, uw);
    forall i | 0 <= i < |words| ensures words[i] == cw || words[i] == uw {
      assert words[i] in multiset(dealt);
      assert words[i] in dealt;
    }
  }

  /** Dealing such a shuffle makes exactly `u` players undercover. */
  lemma DealtCounts(words: seq<string>, uw: string, n: nat, u: nat)
    requires u <= n && |words| == n && multiset(words)[uw] == u
    ensures var ps := Deal(words, uw, 1);
            |UndercoverPlayers(ps)| == u && |CivilianPlayers(ps)| == n - u
  {
    var ps := Deal(words, uw, 1);
    DealShape(words, uw);
    UndercoverCountOfDeal(ps, words, uw);
    SidesPartition(ps);
  }

  /** `initialize_game` / `initializeGame` for `n` players of whom `u` are undercover. */
  function InitializeGame(n: nat, u: nat, ch: Choices): (g: Game)
    requires u <= n
    ensures |g.players| == n && IdsInOrder(g.players)
    ensures forall i :: 0 <= i < n ==> g.players[i].active && g.players[i].name == PlayerName(i + 1)
    ensures forall i :: 0 <= i < n ==> (g.players[i].isUndercover <==> g.players[i].word == g.undercoverWord)
    ensures forall i :: 0 <= i < n ==> g.players[i].role == RoleOf(g.players[i].isUndercover)
    ensures forall i :: 0 <= i < n ==> g.players[i].word == g.undercoverWord || g.players[i].word == g.civilianWord
    ensures |UndercoverPlayers(g.players)| == u && |CivilianPlayers(g.players)| == n - u
    ensures g.undercoverWord != g.civilianWord
    ensures var pair := WordPairs[ch.pairIndex % |WordPairs|];
            {g.undercoverWord, g.civilianWord} == {pair.0, pair.1}
    ensures multiset(g.words) == multiset(Repeat(g.civilianWord, n - u) + Repeat(g.undercoverWord, u))
    ensures g.currentRound == 1 && g.discussion == [] && g.votes == map[]
    ensures !g.gameOver && g.winner == None && g.summary == None
  {
    var (civilianWord, undercoverWord) := PickWords(ch);
    var words := Shuffle(Repeat(civilianWord, n - u) + Repeat(undercoverWord, u), ch.draw);
    DealShape(words, undercoverWord);
    ShuffledWords(words, civilianWord, undercoverWord, n, u);
    DealtCounts(words, undercoverWord, n, u);
    Game(words, undercoverWord, civilianWord, Deal(words, undercoverWord, 1), 1, [], map[], false, None, None)
  }
}
