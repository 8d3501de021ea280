/**
 * The sequential bookkeeping of the server (Server.cpp): the roster of players and
 * the username check that guards it, recording a player's submission, scoring the
 * judge's pick, shuffling the submissions, resetting the round's counters and flags,
 * and picking the winner.  The messages the server sends are the encoders of module
 * Protocol; here the bytes a player sent arrive as an `inbox` and the method returns
 * what it did not read.
 */
module Server {
  import opened Wrappers
  import opened Wire
  import opened Shuffle
  import Protocol
  import Game
  import Player

  /** Pairwise distinct. */
  predicate Distinct<T(==)>(s: seq<T>) {
    forall i, j :: 0 <= i < j < |s| ==> s[i] != s[j]
  }

  /**
   * The usernames of the roster after `acceptConnections` has handled `arrivals`, the
   * usernames of the connections it accepts, in order: it stops once the roster holds
   * `capacity` players, and admits a username only when nobody on the roster has it.
   */
  function Admit(roster: seq<string>, arrivals: seq<string>, capacity: int): seq<string>
    decreases |arrivals|
  {
    if |roster| >= capacity || arrivals == [] then roster
    else if arrivals[0] in roster then Admit(roster, arrivals[1..], capacity)
    else Admit(roster + [arrivals[0]], arrivals[1..], capacity)
  }

  /** One arrival handled while the roster has room: its username joins when it is free. */
  lemma AdmitStep(roster: seq<string>, arrivals: seq<string>, handled: nat, capacity: int)
    requires handled < |arrivals| && |roster| < capacity
    ensures Admit(roster, arrivals[handled..], capacity)
            == Admit(if arrivals[handled] in roster then roster else roster + [arrivals[handled]],
                     arrivals[handled + 1..], capacity)
  {
    assert arrivals[handled..][1..] == arrivals[handled + 1..];
  }

  /** Admission only appends, and only usernames that arrived. */
  lemma {:induction false} AdmitExtends(roster: seq<string>, arrivals: seq<string>, capacity: int)
    ensures roster <= Admit(roster, arrivals, capacity)
    ensures forall k :: |roster| <= k < |Admit(roster, arrivals, capacity)| ==>
              Admit(roster, arrivals, capacity)[k] in arrivals
    decreases |arrivals|
  {
    if |roster| < capacity && arrivals != [] {
      var next := if arrivals[0] in roster then roster else roster + [arrivals[0]];
      AdmitExtends(next, arrivals[1..], capacity);
    }
  }

  /** A roster of distinct usernames stays distinct. */
  lemma {:induction false} AdmitKeepsDistinct(roster: seq<string>, arrivals: seq<string>, capacity: int)
    requires Distinct(roster)
    ensures Distinct(Admit(roster, arrivals, capacity))
    decreases |arrivals|
  {
    if |roster| < capacity && arrivals != [] {
      if arrivals[0] !in roster {
        var next := roster + [arrivals[0]];
        assert forall i :: 0 <= i < |roster| ==> next[i] == roster[i];
        AdmitKeepsDistinct(next, arrivals[1..], capacity);
      } else {
        AdmitKeepsDistinct(roster, arrivals[1..], capacity);
      }
    }
  }

  /** A roster within its capacity never grows past it. */
  lemma {:induction false} AdmitWithinCapacity(roster: seq<string>, arrivals: seq<string>, capacity: int)
    requires |roster| <= capacity
    ensures |Admit(roster, arrivals, capacity)| <= capacity
    decreases |arrivals|
  {
    if |roster| < capacity && arrivals != [] {
      if arrivals[0] !in roster {
        AdmitWithinCapacity(roster + [arrivals[0]], arrivals[1..], capacity);
      } else {
        AdmitWithinCapacity(roster, arrivals[1..], capacity);
      }
    }
  }

  /** A player's used bits after the first `k` played cards were marked. */
  function MarkUsed(bits: seq<bool>, cards: seq<Protocol.Card>, k: nat): (r: seq<bool>)
    requires k <= |cards| && Protocol.IndicesBelow(cards, |bits|)
    ensures |r| == |bits|
  {
    if k == 0 then bits else MarkUsed(bits, cards, k - 1)[cards[k - 1].0 := true]
  }

  /** A bit is set after marking iff it was set before or one of the played cards names its slot. */
  lemma {:induction false} MarkUsedBits(bits: seq<bool>, cards: seq<Protocol.Card>, k: nat, j: nat)
    requires k <= |cards| && Protocol.IndicesBelow(cards, |bits|) && j < |bits|
    ensures MarkUsed(bits, cards, k)[j] <==> bits[j] || exists i :: 0 <= i < k && cards[i].0 == j
  {
    if k > 0 {
      MarkUsedBits(bits, cards, k - 1, j);
      if cards[k - 1].0 != j && !bits[j] && exists i :: 0 <= i < k && cards[i].0 == j {
        var i :| 0 <= i < k && cards[i].0 == j;
        assert i < k - 1;
      }
    }
  }

  class Server {
    const game: Game.Game
    /** The roster, in the order the players joined. */
    var clients: seq<Player.Client>
    /** The submissions of the round: the player's roster index and the texts played. */
    var playerChoices: seq<(int, seq<string>)>
    var tsarChoiceIndex: int

    var doneGenerating: bool
    var dataSentCounter: int
    var receivedAnswerChoicesCounter: int
    var shuffledAnswers: bool
    var sentAnswerChoicesCounter: int
    var receivedTsarChoice: bool
    var sentTsarChoiceCounter: int
    var sentServerConfirmationCounter: int
    var receivedNextRoundConfirmationCounter: int
    var resetFlags: bool

    /**
     * Each roster entry is its own player object, and no two of them are the same
     * player under `operator==`: the usernames on the roster are unique.
     */
    predicate Valid()
      reads this, clients
    {
      Distinct(clients) && forall i, j :: 0 <= i < j < |clients| ==> !clients[i].Equals(clients[j])
    }

    function Usernames(): (names: seq<string>)
      reads this, clients
      ensures |names| == |clients|
      ensures forall i :: 0 <= i < |clients| ==> names[i] == clients[i].username
    {
      seq(|clients|, i reads this, clients requires 0 <= i < |clients| => clients[i].username)
    }

    /** No two roster players are equal under `operator==` exactly when the roster's usernames are distinct. */
    lemma UniquePlayersIffDistinctUsernames()
      ensures (forall i, j :: 0 <= i < j < |clients| ==> !clients[i].Equals(clients[j]))
              <==> Distinct(Usernames())
    {
    }

    function Scores(): (scores: seq<int>)
      reads this, clients
      ensures |scores| == |clients|
      ensures forall i :: 0 <= i < |clients| ==> scores[i] == clients[i].score
    {
      seq(|clients|, i reads this, clients requires 0 <= i < |clients| => clients[i].score)
    }

    /**
     * The settings and the network are not modelled: the server starts with the game
     * it loaded, no players and no submissions, and the counters and flags its
     * initializer list names cleared; the others are left as they are in the source,
     * unset.
     */
    constructor (game: Game.Game)
      ensures this.game == game && clients == [] && playerChoices == []
      ensures !doneGenerating && dataSentCounter == 0 && receivedAnswerChoicesCounter == 0
      ensures !shuffledAnswers && sentTsarChoiceCounter == 0 && sentServerConfirmationCounter == 0
      ensures !resetFlags
      ensures Valid()
    {
      this.game := game;
      clients := [];
      playerChoices := [];
      doneGenerating := false;
      dataSentCounter := 0;
      receivedAnswerChoicesCounter := 0;
      shuffledAnswers := false;
      sentTsarChoiceCounter := 0;
      sentServerConfirmationCounter := 0;
      resetFlags := false;
    }

    /**
     * `validUsername`: scans the roster and stops at the first player with the same
     * username.  The verdict it also sends back to the connection is the result.
     */
    method ValidUsername(client: Player.Client) returns (valid: bool)
      ensures valid <==> forall i :: 0 <= i < |clients| ==> clients[i].username != client.username
    {
      valid := true;
      var i := 0;
      while i < |clients| && valid
        invariant 0 <= i <= |clients|
        invariant valid <==> forall k :: 0 <= k < i ==> clients[k].username != client.username
      {
        if clients[i].username == client.username {
          valid := false;
        }
        i := i + 1;
      }
    }

    /**
     * One accepted connection of `acceptConnections`: a new player carrying the
     * username the connection sent, pushed onto the roster when `validUsername`
     * finds nobody on it with that username.
     */
    method AcceptOne(username: string) returns (admitted: bool)
      requires Distinct(clients)
      modifies this`clients
      ensures Distinct(clients)
      ensures admitted <==> username !in old(Usernames())
      ensures Usernames() == if admitted then old(Usernames()) + [username] else old(Usernames())
      ensures old(clients) <= clients && |clients| <= |old(clients)| + 1
      ensures forall i :: |old(clients)| <= i < |clients| ==> fresh(clients[i]) && clients[i].score == 0
    {
      ghost var names := Usernames();
      var client := new Player.Client();
      client.SetUsername(username);
      assert Usernames() == names;
      admitted := ValidUsername(client);
      assert admitted <==> username !in names;
      if admitted {
        clients := clients + [client];
        assert Usernames() == names + [username];
      }
    }

    /**
     * The roster growth of `acceptConnections`: each accepted connection becomes a new
     * player carrying the username it sent, and joins the roster when that username
     * is free.  The source waits for connections until the roster is full; here the
     * connections are `arrivals`, and the method also stops when they run out,
     * returning how many it handled.
     */
    method AcceptConnections(arrivals: seq<string>) returns (handled: nat)
      requires Valid()
      modifies this`clients
      ensures Valid()
      ensures handled <= |arrivals|
      ensures |clients| < game.numOfPlayers ==> handled == |arrivals|
      ensures Usernames() == Admit(old(Usernames()), arrivals, game.numOfPlayers)
      ensures old(clients) <= clients
      ensures forall i :: |old(clients)| <= i < |clients| ==> fresh(clients[i]) && clients[i].score == 0
    {
      ghost var roster0 := Usernames();
      UniquePlayersIffDistinctUsernames();
      handled := 0;
      while |clients| < game.numOfPlayers && handled < |arrivals|
        invariant handled <= |arrivals|
        invariant Distinct(clients)
        invariant old(clients) <= clients
        invariant forall i :: |old(clients)| <= i < |clients| ==> fresh(clients[i]) && clients[i].score == 0
        invariant Admit(Usernames(), arrivals[handled..], game.numOfPlayers)
                  == Admit(roster0, arrivals, game.numOfPlayers)
        decreases |arrivals| - handled
      {
        AdmitStep(Usernames(), arrivals, handled, game.numOfPlayers);
        var _ := AcceptOne(arrivals[handled]);
        handled := handled + 1;
      }
      AdmitKeepsDistinct(roster0, arrivals, game.numOfPlayers);
      UniquePlayersIffDistinctUsernames();
    }

    /**
     * `receiveAnswerChoice`: for each blank of the question, reads a slot index and
     * marks that slot of the player's hand used, and reads the card's text; then
     * appends the player's submission.  A connection fault ends the receiving thread
     * before anything is recorded.  The source writes the bit without a bounds check,
     * so the indices the player sends must be slots of the hand.
     */
    method ReceiveAnswerChoice(clientIndex: nat, inbox: seq<byte>) returns (r: Result<seq<byte>, Fault>)
      requires game.Valid() && clientIndex < game.numOfPlayers
      requires Protocol.DecodeChoice(inbox, game.question.numOfBlanks).Ok? ==>
                 Protocol.IndicesBelow(Protocol.DecodeChoice(inbox, game.question.numOfBlanks).value.0, game.numOfAnswers)
      modifies game`usedAnswers, this`playerChoices
      ensures game.Valid()
      ensures Protocol.DecodeChoice(inbox, game.question.numOfBlanks).Err? ==>
                r.Err? && game.usedAnswers == old(game.usedAnswers) && playerChoices == old(playerChoices)
      ensures Protocol.DecodeChoice(inbox, game.question.numOfBlanks).Ok? ==>
                var (cards, rest) := Protocol.DecodeChoice(inbox, game.question.numOfBlanks).value;
                r == Ok(rest)
                && playerChoices == old(playerChoices) + [(clientIndex as int, Protocol.Texts(cards))]
                && (forall p :: 0 <= p < game.numOfPlayers ==>
                      game.usedAnswers[p] == if p == clientIndex
                                             then MarkUsed(old(game.usedAnswers[p]), cards, |cards|)
                                             else old(game.usedAnswers[p]))
    {
      var decoded := Protocol.DecodeChoice(inbox, game.question.numOfBlanks);
      if decoded.Err? {
        return Err(decoded.error);
      }
      var (cards, rest) := decoded.value;
      ghost var bits0 := game.usedAnswers;
      var answers: seq<string> := [];
      var i := 0;
      while i < |cards|
        invariant i <= |cards| && game.Valid() && playerChoices == old(playerChoices)
        invariant |answers| == i && forall k :: 0 <= k < i ==> answers[k] == cards[k].1
        invariant forall p :: 0 <= p < game.numOfPlayers ==>
                    game.usedAnswers[p] == if p == clientIndex then MarkUsed(bits0[p], cards, i) else bits0[p]
      {
        game.SetUsedAnswer(clientIndex, cards[i].0);
        answers := answers + [cards[i].1];
        i := i + 1;
      }
      assert answers == Protocol.Texts(cards);
      playerChoices := playerChoices + [(clientIndex as int, answers)];
      r := Ok(rest);
    }

    /**
     * `receiveTsarChoice`: reads the index of the submission the judge picked and gives
     * one point to the player who made it.  The source indexes both lists without a
     * check, so the pick must be a submission and its player on the roster.
     */
    method ReceiveTsarChoice(inbox: seq<byte>) returns (r: Result<seq<byte>, Fault>)
      requires Valid()
      requires DecodeInt32(inbox).Ok? ==>
                 0 <= DecodeInt32(inbox).value.0 < |playerChoices|
                 && 0 <= playerChoices[DecodeInt32(inbox).value.0].0 < |clients|
      modifies this`tsarChoiceIndex, clients
      ensures Valid() && clients == old(clients) && Usernames() == old(Usernames())
      ensures |inbox| < 4 ==> r == Err(PeerClosed) && tsarChoiceIndex == old(tsarChoiceIndex) && Scores() == old(Scores())
      ensures |inbox| >= 4 ==>
                var winner := playerChoices[DecodeInt32(inbox).value.0].0;
                r == Ok(inbox[4..]) && tsarChoiceIndex == DecodeInt32(inbox).value.0
                && Scores() == old(Scores())[winner := old(Scores())[winner] + 1]
    {
      var decoded := DecodeInt32(inbox);
      if decoded.Err? {
        return Err(decoded.error);
      }
      tsarChoiceIndex := decoded.value.0;
      CreditWinner(playerChoices[tsarChoiceIndex].0);
      r := Ok(decoded.value.1);
    }

    /** The winning player's `incrementScore`: one more point for them, nothing else on the roster changes. */
    method CreditWinner(winner: int)
      requires Valid() && 0 <= winner < |clients|
      modifies clients
      ensures Valid() && Usernames() == old(Usernames())
      ensures Scores() == old(Scores())[winner := old(Scores())[winner] + 1]
    {
      ghost var names := Usernames();
      UniquePlayersIffDistinctUsernames();
      clients[winner].IncrementScore();
      assert forall i :: 0 <= i < |clients| ==> clients[i].username == names[i];
      UniquePlayersIffDistinctUsernames();
    }

    /** The shuffle at the end of the submissions: `random_shuffle` over whole (player, texts) pairs. */
    method ShufflePlayerChoices(swaps: seq<Swap>)
      requires ValidSwaps(swaps, |playerChoices|)
      modifies this`playerChoices
      ensures playerChoices == ApplySwaps(old(playerChoices), swaps)
      ensures multiset(playerChoices) == multiset(old(playerChoices))
    {
      playerChoices := ApplySwaps(playerChoices, swaps);
    }

    /** `resetFlags`: every counter back to 0, every flag cleared, no submissions. */
    method ResetFlags()
      modifies this`doneGenerating, this`dataSentCounter, this`receivedAnswerChoicesCounter,
               this`shuffledAnswers, this`sentAnswerChoicesCounter, this`receivedTsarChoice,
               this`sentTsarChoiceCounter, this`sentServerConfirmationCounter,
               this`receivedNextRoundConfirmationCounter, this`resetFlags, this`playerChoices
      ensures !doneGenerating && dataSentCounter == 0 && receivedAnswerChoicesCounter == 0
      ensures !shuffledAnswers && sentAnswerChoicesCounter == 0 && !receivedTsarChoice
      ensures sentTsarChoiceCounter == 0 && sentServerConfirmationCounter == 0
      ensures receivedNextRoundConfirmationCounter == 0 && !resetFlags && playerChoices == []
    {
      doneGenerating := false;
      dataSentCounter := 0;
      receivedAnswerChoicesCounter := 0;
      shuffledAnswers := false;
      sentAnswerChoicesCounter := 0;
      receivedTsarChoice := false;
      sentTsarChoiceCounter := 0;
      sentServerConfirmationCounter := 0;
      receivedNextRoundConfirmationCounter := 0;
      resetFlags := false;
      playerChoices := [];
    }

    /**
     * The announced winner: `max_element` with a less-than on scores, which is the
     * first player holding the highest score.  The roster is never empty at the end
     * of a game (dereferencing the end of an empty roster is undefined).
     */
    method Winner() returns (w: nat)
      requires |clients| > 0
      ensures w < |clients|
      ensures forall i :: 0 <= i < |clients| ==> clients[i].score <= clients[w].score
      ensures forall i :: 0 <= i < w ==> clients[i].score < clients[w].score
    {
      w := 0;
      var i := 1;
      while i < |clients|
        invariant 1 <= i <= |clients| && w < i
        invariant forall k :: 0 <= k < i ==> clients[k].score <= clients[w].score
        invariant forall k :: 0 <= k < w ==> clients[k].score < clients[w].score
      {
        if clients[w].score < clients[i].score {
          w := i;
        }
        i := i + 1;
      }
    }
  }

  /** Shuffling keeps every submission whole: each entry is one of the submissions received, player and texts together. */
  lemma ShuffleKeepsSubmissions(playerChoices: seq<(int, seq<string>)>, swaps: seq<Swap>, k: nat)
    requires ValidSwaps(swaps, |playerChoices|) && k < |playerChoices|
    ensures exists j :: 0 <= j < |playerChoices| && ApplySwaps(playerChoices, swaps)[k] == playerChoices[j]
  {
    ShuffledElementIsOriginal(playerChoices, swaps, k);
  }
}
