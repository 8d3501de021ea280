/**
 * The player's program (Client.cpp): the round state it keeps from what the server
 * sends, and the console input rules for picking cards and, as the judge, a winning
 * submission.  The bytes from the server arrive as an `inbox`; every receive returns
 * the bytes it did not read, or the connection fault that stops it.  The lines the
 * player types are a sequence `inputs`; when they run out while the program still
 * waits for a valid line, the result is None (the program would keep waiting).
 */
module Client {
  import opened Wrappers
  import opened Wire
  import Protocol
  import LineIo

  /** `size_t`'s largest value: what `size() - 1` gives on an empty vector. */
  const SIZE_MAX: int := 0xFFFF_FFFF_FFFF_FFFF

  /** `choice[0]`: on an empty string, the terminating '\0'. */
  function FirstChar(s: string): char {
    if s == [] then '\0' else s[0]
  }

  /** The value of a `char` in arithmetic: `char` is signed, so bytes from 0x80 up are negative. */
  function CharCode(c: char): int {
    if 0x80 <= c as int < 0x100 then c as int - 0x100 else c as int
  }

  /** `choice[0] - '0'`. */
  function FirstDigit(choice: string): int {
    CharCode(FirstChar(choice)) - '0' as int
  }

  /**
   * The first check of both input loops.  As written it rejects only a line that is
   * longer or shorter than one character AND does not start with a digit; the
   * corrected check rejects a line that is not exactly one digit.
   */
  predicate DigitCheck(choice: string, corrected: bool) {
    if corrected then |choice| == 1 && LineIo.IsDigit(FirstChar(choice))
    else |choice| == 1 || LineIo.IsDigit(FirstChar(choice))
  }

  /** A card pick is accepted: the digit check, a position 1..hand size, and not picked already. */
  predicate CardInputAccepted(choice: string, handSize: nat, selected: seq<string>, corrected: bool) {
    DigitCheck(choice, corrected) && 1 <= FirstDigit(choice) <= handSize && choice !in selected
  }

  /** The position of the first accepted line at or after `from`. */
  function NextCardInput(inputs: seq<string>, from: nat, handSize: nat, selected: seq<string>, corrected: bool)
    : (r: Option<nat>)
    requires from <= |inputs|
    ensures r.Some? ==> from <= r.value < |inputs| && CardInputAccepted(inputs[r.value], handSize, selected, corrected)
    ensures r.Some? ==> forall k :: from <= k < r.value ==> !CardInputAccepted(inputs[k], handSize, selected, corrected)
    ensures r.None? ==> forall k :: from <= k < |inputs| ==> !CardInputAccepted(inputs[k], handSize, selected, corrected)
    decreases |inputs| - from
  {
    if from == |inputs| then None
    else if CardInputAccepted(inputs[from], handSize, selected, corrected) then Some(from)
    else NextCardInput(inputs, from + 1, handSize, selected, corrected)
  }

  /**
   * The pick for the remaining `blanks` blanks, starting at line `from`: the
   * concatenated accepted lines and the position after the last one.  As written the
   * list of picks made is empty at every check, since the source creates it afresh
   * for each blank; corrected, it holds the picks for the earlier blanks.
   */
  function CardChoices(inputs: seq<string>, from: nat, blanks: nat, handSize: nat, selected: seq<string>,
                       corrected: bool): (r: Option<(string, nat)>)
    requires from <= |inputs|
    ensures r.Some? ==> r.value.1 <= |inputs|
    decreases blanks
  {
    if blanks == 0 then Some(([], from))
    else
      match NextCardInput(inputs, from, handSize, if corrected then selected else [], corrected)
      case None => None
      case Some(k) =>
        match CardChoices(inputs, k + 1, blanks - 1, handSize, if corrected then selected + [inputs[k]] else selected,
                          corrected)
        case None => None
        case Some((rest, next)) => Some((inputs[k] + rest, next))
  }

  function Prepend(s: string, r: Option<(string, nat)>): Option<(string, nat)> {
    match r
    case None => None
    case Some((t, n)) => Some((s + t, n))
  }
  lemma PrependNothing(r: Option<(string, nat)>)
    ensures Prepend([], r) == r
  {
    if r.Some? {
      assert [] + r.value.0 == r.value.0;
    }
  }

  /** One blank of the as-written card picking: the next accepted line, then the remaining blanks. */
  lemma CardChoicesStep(inputs: seq<string>, from: nat, blanks: nat, handSize: nat, prefix: string, next: Option<nat>)
    requires from <= |inputs| && blanks > 0
    requires next == NextCardInput(inputs, from, handSize, [], false)
    ensures next.None? ==> Prepend(prefix, CardChoices(inputs, from, blanks, handSize, [], false)).None?
    ensures next.Some? ==>
              Prepend(prefix, CardChoices(inputs, from, blanks, handSize, [], false))
              == Prepend(prefix + inputs[next.value], CardChoices(inputs, next.value + 1, blanks - 1, handSize, [], false))
  {
    if next.Some? {
      var k := next.value;
      match CardChoices(inputs, k + 1, blanks - 1, handSize, [], false) {
        case None =>
        case Some((t, n)) => assert prefix + (inputs[k] + t) == prefix + inputs[k] + t;
      }
    }
  }

  /** Every pick the as-written rules accept starts with a digit naming a card of the hand. */
  lemma AcceptedPicksStartInHand(inputs: seq<string>, from: nat, blanks: nat, handSize: nat,
                                 selected: seq<string>, k: nat)
    requires from <= k < |inputs|
    requires NextCardInput(inputs, from, handSize, selected, false) == Some(k)
    ensures 1 <= FirstDigit(inputs[k]) <= handSize
    ensures |inputs[k]| == 1 ==> 0 <= Protocol.CardIndex(inputs[k][0]) < handSize
  {
  }

  /**
   * With the corrected rules every pick is one character, the picks name distinct
   * cards of the hand, and there is one per blank: exactly what `sendChoice` needs.
   */
  lemma {:induction false} CorrectedPicksAreSendable(inputs: seq<string>, from: nat, blanks: nat, handSize: nat,
                                                     selected: seq<string>)
    requires from <= |inputs|
    requires CardChoices(inputs, from, blanks, handSize, selected, true).Some?
    ensures var s := CardChoices(inputs, from, blanks, handSize, selected, true).value.0;
            |s| == blanks
            && (forall i :: 0 <= i < |s| ==> 0 <= Protocol.CardIndex(s[i]) < handSize && [s[i]] !in selected)
            && (forall i, j :: 0 <= i < j < |s| ==> s[i] != s[j])
    decreases blanks
  {
    if blanks > 0 {
      var k := NextCardInput(inputs, from, handSize, selected, true).value;
      var c := inputs[k];
      CorrectedPicksAreSendable(inputs, k + 1, blanks - 1, handSize, selected + [c]);
      var rest := CardChoices(inputs, k + 1, blanks - 1, handSize, selected + [c], true).value.0;
      var s := c + rest;
      assert c == [c[0]];
      assert forall i :: 1 <= i < |s| ==> s[i] == rest[i - 1];
      forall i | 1 <= i < |s|
        ensures [s[i]] != c && [s[i]] !in selected
      {
        assert [rest[i - 1]] !in selected + [c];
      }
    }
  }

  /** The `&&` check lets "1a" through: with one card and two blanks, the choice sent is "1a1", whose second character names slot 48. */
  lemma MultiCharacterPickAsWritten()
    ensures CardChoices(["1a", "1"], 0, 2, 1, [], false) == Some(("1a1", 2))
    ensures Protocol.CardIndex("1a1"[1]) == 48
    ensures CardChoices(["1a", "1"], 0, 2, 1, [], true) == None
  {
    var inputs := ["1a", "1"];
    assert CardInputAccepted(inputs[0], 1, [], false) && CardInputAccepted(inputs[1], 1, [], false);
    assert NextCardInput(inputs, 0, 1, [], false) == Some(0);
    assert NextCardInput(inputs, 1, 1, [], false) == Some(1);
    assert CardChoices(inputs, 2, 0, 1, [], false) == Some(([], 2));
    assert inputs[1] + [] == "1";
    assert CardChoices(inputs, 1, 1, 1, [], false) == Some(("1", 2));
    assert "1a" + "1" == "1a1";
    assert !CardInputAccepted(inputs[0], 1, [], true) && CardInputAccepted(inputs[1], 1, [], true);
    assert NextCardInput(inputs, 0, 1, [], true) == Some(1);
    assert !CardInputAccepted(inputs[1], 1, ["1"], true);
    assert NextCardInput(inputs, 2, 1, ["1"], true) == None;
    assert NextCardInput(inputs, 1, 1, ["1"], true) == None;
  }

  /** The list of picks made is empty at every check, so the same card fills two blanks. */
  lemma SameCardTwiceAsWritten()
    ensures CardChoices(["1", "1"], 0, 2, 1, [], false) == Some(("11", 2))
    ensures CardChoices(["1", "1", "2"], 0, 2, 2, [], true) == Some(("12", 3))
  {
    var twice := ["1", "1"];
    assert CardInputAccepted(twice[0], 1, [], false) && CardInputAccepted(twice[1], 1, [], false);
    assert NextCardInput(twice, 0, 1, [], false) == Some(0);
    assert NextCardInput(twice, 1, 1, [], false) == Some(1);
    assert CardChoices(twice, 2, 0, 1, [], false) == Some(([], 2));
    assert twice[1] + [] == "1";
    assert CardChoices(twice, 1, 1, 1, [], false) == Some(("1", 2));
    assert "1" + "1" == "11";
    var three := ["1", "1", "2"];
    assert CardInputAccepted(three[0], 2, [], true);
    assert !CardInputAccepted(three[1], 2, ["1"], true) && CardInputAccepted(three[2], 2, ["1"], true);
    assert NextCardInput(three, 0, 2, [], true) == Some(0);
    assert NextCardInput(three, 1, 2, ["1"], true) == Some(2);
    assert CardChoices(three, 3, 0, 2, ["1", "2"], true) == Some(([], 3));
    assert three[2] + [] == "2";
    assert CardChoices(three, 1, 1, 2, ["1"], true) == Some(("2", 3));
    assert "1" + "2" == "12";
  }

  /**
   * The judge's pick is accepted: the digit check, then a first digit from 1 to
   * `size() - 1` compared as `size_t`, so that with an empty player list any digit
   * from 1 passes.
   */
  predicate JudgeInputAccepted(choice: string, numOfPlayers: nat, corrected: bool) {
    DigitCheck(choice, corrected)
    && 1 <= FirstDigit(choice)
    && FirstDigit(choice) <= (if numOfPlayers == 0 then SIZE_MAX else numOfPlayers - 1)
  }

  function NextJudgeInput(inputs: seq<string>, from: nat, numOfPlayers: nat, corrected: bool): (r: Option<nat>)
    requires from <= |inputs|
    ensures r.Some? ==> from <= r.value < |inputs| && JudgeInputAccepted(inputs[r.value], numOfPlayers, corrected)
    ensures r.Some? ==> forall k :: from <= k < r.value ==> !JudgeInputAccepted(inputs[k], numOfPlayers, corrected)
    ensures r.None? ==> forall k :: from <= k < |inputs| ==> !JudgeInputAccepted(inputs[k], numOfPlayers, corrected)
    decreases |inputs| - from
  {
    if from == |inputs| then None
    else if JudgeInputAccepted(inputs[from], numOfPlayers, corrected) then Some(from)
    else NextJudgeInput(inputs, from + 1, numOfPlayers, corrected)
  }

  /**
   * A single character that is not a digit passes the `&&` check too, and its code
   * is compared with the players: among eleven players ':' passes, and `atoi` sends
   * it as -1.
   */
  lemma NonDigitJudgePickAsWritten()
    ensures JudgeInputAccepted(":", 11, false) && LineIo.Atoi(":") - 1 == -1
    ensures !JudgeInputAccepted(":", 11, true)
  {
    assert LineIo.HasNoNumber(":");
    LineIo.AtoiOfNoNumber(":");
  }

  /** With the corrected check every accepted pick is sent as a submission index in range. */
  lemma CorrectedJudgePickInRange(choice: string, numOfPlayers: nat)
    requires numOfPlayers >= 1 && JudgeInputAccepted(choice, numOfPlayers, true)
    ensures 0 <= LineIo.Atoi(choice) - 1 < numOfPlayers - 1
  {
    assert LineIo.AllDigits(choice);
    LineIo.AtoiOfDigits(choice);
  }

  /** The `&&` check lets "12" through among three players: `atoi` then sends 11, and there are two submissions. */
  lemma MultiDigitJudgePickAsWritten()
    ensures JudgeInputAccepted("12", 3, false) && LineIo.Atoi("12") - 1 == 11
    ensures !JudgeInputAccepted("12", 3, true)
  {
    var twelve := "12";
    assert LineIo.AllDigits(twelve);
    LineIo.AtoiOfDigits(twelve);
    assert twelve[..1] == "1";
    assert LineIo.DigitsValue(twelve) == 10 * LineIo.DigitsValue("1") + 2;
  }

  /** `resize(n)`: keeps the first `n` strings, or pads with empty ones. */
  function Resized(s: seq<string>, n: nat): (r: seq<string>)
    ensures |r| == n
    ensures forall i :: 0 <= i < n ==> r[i] == if i < |s| then s[i] else ""
  {
    if n <= |s| then s[..n] else s + seq(n - |s|, _ => "")
  }

  /** The hand after the first `k` received cards were stored, each at the slot sent with it. */
  function Placed(hand: seq<string>, cards: seq<Protocol.Card>, k: nat): (r: seq<string>)
    requires k <= |cards| && Protocol.IndicesBelow(cards, |hand|)
    ensures |r| == |hand|
  {
    if k == 0 then hand else Placed(hand, cards, k - 1)[cards[k - 1].0 := cards[k - 1].1]
  }

  /** A slot no received card names keeps its text. */
  lemma {:induction false} PlacedUntouched(hand: seq<string>, cards: seq<Protocol.Card>, k: nat, j: nat)
    requires k <= |cards| && Protocol.IndicesBelow(cards, |hand|) && j < |hand|
    requires forall i :: 0 <= i < k ==> cards[i].0 != j
    ensures Placed(hand, cards, k)[j] == hand[j]
  {
    if k > 0 {
      PlacedUntouched(hand, cards, k - 1, j);
    }
  }

  /** A slot holds the text of the last received card naming it. */
  lemma {:induction false} PlacedLastWriter(hand: seq<string>, cards: seq<Protocol.Card>, k: nat, j: nat, i: nat)
    requires k <= |cards| && Protocol.IndicesBelow(cards, |hand|) && j < |hand|
    requires i < k && cards[i].0 == j && forall i' :: i < i' < k ==> cards[i'].0 != j
    ensures Placed(hand, cards, k)[j] == cards[i].1
  {
    if i < k - 1 {
      PlacedLastWriter(hand, cards, k - 1, j, i);
    }
  }

  /** A slot no received card names is unchanged; otherwise it holds the text of the last card naming it. */
  lemma PlacedSlot(hand: seq<string>, cards: seq<Protocol.Card>, k: nat, j: nat)
    requires k <= |cards| && Protocol.IndicesBelow(cards, |hand|) && j < |hand|
    ensures (forall i :: 0 <= i < k ==> cards[i].0 != j) ==> Placed(hand, cards, k)[j] == hand[j]
    ensures forall i :: 0 <= i < k && cards[i].0 == j && (forall i' :: i < i' < k ==> cards[i'].0 != j) ==>
              Placed(hand, cards, k)[j] == cards[i].1
  {
    if forall i :: 0 <= i < k ==> cards[i].0 != j {
      PlacedUntouched(hand, cards, k, j);
    }
    forall i | 0 <= i < k && cards[i].0 == j && (forall i' :: i < i' < k ==> cards[i'].0 != j)
      ensures Placed(hand, cards, k)[j] == cards[i].1
    {
      PlacedLastWriter(hand, cards, k, j, i);
    }
  }

  /** A whole hand sent with every card at its own slot replaces the hand. */
  lemma OwnSlotsReplaceHand(hand: seq<string>, cards: seq<Protocol.Card>)
    requires |cards| == |hand| && forall i :: 0 <= i < |cards| ==> cards[i].0 == i
    ensures Placed(hand, cards, |cards|) == Protocol.Texts(cards)
  {
    forall j | 0 <= j < |hand|
      ensures Placed(hand, cards, |cards|)[j] == cards[j].1
    {
      PlacedSlot(hand, cards, |cards|, j);
    }
  }

  class Client {
    var username: string
    /** Each player's score and username, in roster order. */
    var playerList: seq<(int, string)>
    /** The hand: the text of each card slot. */
    var answers: seq<string>
    /** The submissions shown to the judge: one list of texts per submission. */
    var answerChoices: seq<seq<string>>
    var question: string
    var questionNumOfBlanks: int
    var tsarChoiceIndex: int
    var winnerIndex: int

    var doneReceivingData: bool
    var sentChoice: bool
    var receivedChoices: bool
    var sentTsarChoice: bool
    var receivedTsarChoice: bool
    var sentConfirmation: bool
    var receivedConfirmation: bool
    var flagsReset: bool

    /** Settings and network are not modelled; the initializer list clears every flag. */
    constructor ()
      ensures playerList == [] && answers == [] && answerChoices == []
      ensures !doneReceivingData && !sentChoice && !receivedChoices && !sentTsarChoice
      ensures !receivedTsarChoice && !sentConfirmation && !receivedConfirmation && !flagsReset
    {
      playerList := [];
      answers := [];
      answerChoices := [];
      doneReceivingData := false;
      sentChoice := false;
      receivedChoices := false;
      sentTsarChoice := false;
      receivedTsarChoice := false;
      sentConfirmation := false;
      receivedConfirmation := false;
      flagsReset := false;
    }

    /** `setUsername`: the name this player will send; nothing else changes. */
    method SetUsername(username: string)
      modifies this`username
      ensures this.username == username
    {
      this.username := username;
    }

    /**
     * `receivePlayerList`: the list gets one entry per username sent, each with score 0.
     * A negative count makes `resize` throw; a fault leaves the list as it was.
     */
    method ReceivePlayerList(inbox: seq<byte>) returns (r: Result<seq<byte>, Fault>)
      modifies this`playerList
      ensures Protocol.DecodePlayerList(inbox).Err? ==>
                r == Err(Protocol.DecodePlayerList(inbox).error) && playerList == old(playerList)
      ensures Protocol.DecodePlayerList(inbox).Ok? ==>
                var (names, rest) := Protocol.DecodePlayerList(inbox).value;
                r == Ok(rest) && |playerList| == |names|
                && forall i :: 0 <= i < |names| ==> playerList[i] == (0, names[i])
    {
      var decoded := Protocol.DecodePlayerList(inbox);
      if decoded.Err? {
        return Err(decoded.error);
      }
      var (names, rest) := decoded.value;
      var list: seq<(int, string)> := [];
      var i := 0;
      while i < |names|
        invariant i <= |names| && |list| == i
        invariant forall k :: 0 <= k < i ==> list[k] == (0, names[k])
      {
        list := list + [(0, names[i])];
        i := i + 1;
      }
      playerList := list;
      r := Ok(rest);
    }

    /** `receiveNumOfAnswers`: the hand is resized to the number sent; a negative number makes `resize` throw. */
    method ReceiveNumOfAnswers(inbox: seq<byte>) returns (r: Result<seq<byte>, Fault>)
      modifies this`answers
      ensures |inbox| < 4 ==> r == Err(PeerClosed) && answers == old(answers)
      ensures |inbox| >= 4 && DecodeInt32(inbox).value.0 < 0 ==>
                r == Err(BadLength(DecodeInt32(inbox).value.0)) && answers == old(answers)
      ensures |inbox| >= 4 && DecodeInt32(inbox).value.0 >= 0 ==>
                r == Ok(inbox[4..]) && answers == Resized(old(answers), DecodeInt32(inbox).value.0)
    {
      var decoded := DecodeInt32(inbox);
      if decoded.Err? {
        return Err(decoded.error);
      }
      var (n, rest) := decoded.value;
      if n < 0 {
        return Err(BadLength(n));
      }
      answers := Resized(answers, n);
      r := Ok(rest);
    }

    /** `receiveQuestion`: the question's text, then its number of blanks. */
    method ReceiveQuestion(inbox: seq<byte>) returns (r: Result<seq<byte>, Fault>)
      modifies this`question, this`questionNumOfBlanks
      ensures Protocol.DecodeQuestion(inbox).Err? ==>
                r.Err? && question == old(question) && questionNumOfBlanks == old(questionNumOfBlanks)
      ensures Protocol.DecodeQuestion(inbox).Ok? ==>
                var (q, rest) := Protocol.DecodeQuestion(inbox).value;
                r == Ok(rest) && question == q.text && questionNumOfBlanks == q.numOfBlanks
    {
      var decoded := Protocol.DecodeQuestion(inbox);
      if decoded.Err? {
        return Err(decoded.error);
      }
      var (q, rest) := decoded.value;
      question := q.text;
      questionNumOfBlanks := q.numOfBlanks;
      r := Ok(rest);
    }

    /**
     * `receiveAnswers`: each card sent is stored at the slot sent with it; other slots
     * keep their text.  The source stores without a bounds check, so the slots must be
     * slots of the hand.
     */
    method ReceiveAnswers(inbox: seq<byte>) returns (r: Result<seq<byte>, Fault>)
      requires Protocol.DecodeAnswers(inbox).Ok? ==> Protocol.IndicesBelow(Protocol.DecodeAnswers(inbox).value.0, |answers|)
      modifies this`answers
      ensures Protocol.DecodeAnswers(inbox).Err? ==> r.Err? && answers == old(answers)
      ensures Protocol.DecodeAnswers(inbox).Ok? ==>
                var (cards, rest) := Protocol.DecodeAnswers(inbox).value;
                r == Ok(rest) && answers == Placed(old(answers), cards, |cards|)
    {
      var decoded := Protocol.DecodeAnswers(inbox);
      if decoded.Err? {
        return Err(decoded.error);
      }
      var (cards, rest) := decoded.value;
      var i := 0;
      while i < |cards|
        invariant i <= |cards| && answers == Placed(old(answers), cards, i)
      {
        answers := answers[cards[i].0 := cards[i].1];
        i := i + 1;
      }
      r := Ok(rest);
    }

    /**
     * `receiveAnswerChoices`: appends every submission sent, each read as
     * `questionNumOfBlanks` texts (none when that is negative).
     */
    method ReceiveAnswerChoices(inbox: seq<byte>) returns (r: Result<seq<byte>, Fault>)
      modifies this`answerChoices
      ensures Protocol.DecodeAnswerChoices(inbox, questionNumOfBlanks).Err? ==>
                r.Err? && answerChoices == old(answerChoices)
      ensures Protocol.DecodeAnswerChoices(inbox, questionNumOfBlanks).Ok? ==>
                var (submissions, rest) := Protocol.DecodeAnswerChoices(inbox, questionNumOfBlanks).value;
                r == Ok(rest) && answerChoices == old(answerChoices) + submissions
    {
      var decoded := Protocol.DecodeAnswerChoices(inbox, questionNumOfBlanks);
      if decoded.Err? {
        return Err(decoded.error);
      }
      var (submissions, rest) := decoded.value;
      var i := 0;
      while i < |submissions|
        invariant i <= |submissions| && answerChoices == old(answerChoices) + submissions[..i]
      {
        assert submissions[..i + 1] == submissions[..i] + [submissions[i]];
        answerChoices := answerChoices + [submissions[i]];
        i := i + 1;
      }
      assert submissions[..i] == submissions;
      r := Ok(rest);
    }

    /**
     * `receiveTsarChoice`: reads the winner's index and gives that player one point,
     * then reads the index of the winning submission.  The source indexes the list
     * without a check, so the winner must be on it.  The point is given before the
     * second read, so it stays given when that read fails.
     */
    method ReceiveTsarChoice(inbox: seq<byte>) returns (r: Result<seq<byte>, Fault>)
      requires |inbox| >= 4 ==> 0 <= DecodeInt32(inbox).value.0 < |playerList|
      modifies this`winnerIndex, this`playerList, this`tsarChoiceIndex
      ensures |inbox| < 4 ==> r == Err(PeerClosed) && playerList == old(playerList)
                              && winnerIndex == old(winnerIndex) && tsarChoiceIndex == old(tsarChoiceIndex)
      ensures |inbox| >= 4 ==>
                var w := DecodeInt32(inbox).value.0;
                winnerIndex == w && playerList == old(playerList)[w := (old(playerList[w].0) + 1, old(playerList[w].1))]
      ensures 4 <= |inbox| < 8 ==> r == Err(PeerClosed) && tsarChoiceIndex == old(tsarChoiceIndex)
      ensures |inbox| >= 8 ==> r == Ok(inbox[8..]) && tsarChoiceIndex == DecodeInt32(inbox[4..]).value.0
    {
      var first := DecodeInt32(inbox);
      if first.Err? {
        return Err(first.error);
      }
      winnerIndex := first.value.0;
      playerList := playerList[winnerIndex := (playerList[winnerIndex].0 + 1, playerList[winnerIndex].1)];
      var second := DecodeInt32(first.value.1);
      if second.Err? {
        return Err(second.error);
      }
      tsarChoiceIndex := second.value.0;
      r := Ok(second.value.1);
    }

    /**
     * The card-picking loop of `send`: for each blank of the question, lines are read
     * until one is accepted, and the accepted lines are concatenated into the choice
     * passed to `sendChoice`.  Returns that choice and the number of lines read.
     */
    method ReadCardChoices(inputs: seq<string>) returns (r: Option<(string, nat)>)
      ensures r == CardChoices(inputs, 0, Protocol.Max0(questionNumOfBlanks), |answers|, [], false)
    {
      var blanks := Protocol.Max0(questionNumOfBlanks);
      var handSize := |answers|;
      ghost var goal := CardChoices(inputs, 0, blanks, handSize, [], false);
      var finalChoice: string := [];
      var k: nat := 0;
      var j := 0;
      PrependNothing(goal);
      while j < blanks
        invariant j <= blanks && k <= |inputs|
        invariant goal == Prepend(finalChoice, CardChoices(inputs, k, blanks - j, handSize, [], false))
      {
        var pick := ReadCardPick(inputs, k);
        CardChoicesStep(inputs, k, blanks - j, handSize, finalChoice, pick);
        if pick.None? {
          r := None;
          return;
        }
        finalChoice := finalChoice + inputs[pick.value];
        k := pick.value + 1;
        j := j + 1;
      }
      assert CardChoices(inputs, k, 0, handSize, [], false) == Some(([], k));
      assert Prepend(finalChoice, Some(([], k))) == Some((finalChoice, k)) by {
        assert finalChoice + [] == finalChoice;
      }
      r := Some((finalChoice, k));
    }

    /**
     * The inner loop of the card picking: lines are read from `from` on until one is
     * accepted; the list of picks it checks against starts empty for every blank.
     * Returns the position of the accepted line.
     */
    method ReadCardPick(inputs: seq<string>, from: nat) returns (r: Option<nat>)
      requires from <= |inputs|
      ensures r == NextCardInput(inputs, from, |answers|, [], false)
    {
      var validInput := false;
      var selectedAnswers: seq<string> := [];
      var k := from;
      while !validInput
        invariant from <= k <= |inputs|
        invariant !validInput ==> selectedAnswers == []
                                  && NextCardInput(inputs, from, |answers|, [], false)
                                     == NextCardInput(inputs, k, |answers|, [], false)
        invariant validInput ==> k > from && NextCardInput(inputs, from, |answers|, [], false) == Some(k - 1)
        decreases |inputs| - k
      {
        if k == |inputs| {
          return None;
        }
        var choice := inputs[k];
        k := k + 1;
        if |choice| != 1 && !LineIo.IsDigit(FirstChar(choice)) {
        } else if FirstDigit(choice) < 1 || FirstDigit(choice) > |answers| {
        } else if choice in selectedAnswers {
        } else {
          selectedAnswers := selectedAnswers + [choice];
          validInput := true;
        }
      }
      r := Some(k - 1);
    }

    /**
     * The judge's loop of `send`: lines are read until one is accepted; that line is
     * passed to `sendTsarChoice`.  Returns it and the number of lines read.
     */
    method ReadTsarChoice(inputs: seq<string>) returns (r: Option<(string, nat)>)
      ensures NextJudgeInput(inputs, 0, |playerList|, false).None? ==> r.None?
      ensures NextJudgeInput(inputs, 0, |playerList|, false).Some? ==>
                var k: nat := NextJudgeInput(inputs, 0, |playerList|, false).value;
                r == Some((inputs[k], (k + 1) as nat))
    {
      var validInput := false;
      var choice: string := [];
      var k := 0;
      while !validInput
        invariant k <= |inputs|
        invariant !validInput ==> NextJudgeInput(inputs, 0, |playerList|, false)
                                  == NextJudgeInput(inputs, k, |playerList|, false)
        invariant validInput ==> k > 0 && NextJudgeInput(inputs, 0, |playerList|, false) == Some(k - 1)
                                 && choice == inputs[k - 1]
        decreases |inputs| - k
      {
        if k == |inputs| {
          return None;
        }
        choice := inputs[k];
        k := k + 1;
        if |choice| != 1 && !LineIo.IsDigit(FirstChar(choice)) {
        } else if FirstDigit(choice) < 1
                  || FirstDigit(choice) > (if |playerList| == 0 then SIZE_MAX else |playerList| - 1) {
        } else {
          validInput := true;
        }
      }
      r := Some((choice, k));
    }

    /** `resetFlags`: every flag of the round cleared and the submissions forgotten. */
    method ResetFlags()
      modifies this`doneReceivingData, this`sentChoice, this`receivedChoices, this`sentTsarChoice,
               this`receivedTsarChoice, this`flagsReset, this`sentConfirmation, this`receivedConfirmation,
               this`answerChoices
      ensures !doneReceivingData && !sentChoice && !receivedChoices && !sentTsarChoice
      ensures !receivedTsarChoice && !flagsReset && !sentConfirmation && !receivedConfirmation
      ensures answerChoices == []
    {
      doneReceivingData := false;
      sentChoice := false;
      receivedChoices := false;
      sentTsarChoice := false;
      receivedTsarChoice := false;
      flagsReset := false;
      sentConfirmation := false;
      receivedConfirmation := false;
      answerChoices := [];
    }
  }
}
