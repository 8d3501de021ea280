/**
 * The messages of a round, as the server's `send*` functions (Server.cpp) and the
 * client's `send*` functions (Client.cpp) lay them out, and the `receive*` functions
 * on the other end that read them back.  Each is a pure function from values to
 * bytes, or from bytes to values and the bytes left over.
 */
module Protocol {
  import opened Wrappers
  import opened Wire
  import Question
  import LineIo

  predicate AllFrameable(ss: seq<string>) {
    forall i :: 0 <= i < |ss| ==> IsFrameable(ss[i])
  }

  /** Strings one after another, each with its length prefix. */
  function EncodeStrings(ss: seq<string>): (r: seq<byte>)
    requires AllFrameable(ss)
    ensures |r| >= 4 * |ss|
  {
    if ss == [] then [] else EncodeString(ss[0]) + EncodeStrings(ss[1..])
  }

  /** Reads `n` length-prefixed strings. */
  function DecodeStrings(b: seq<byte>, n: nat): (r: Result<(seq<string>, seq<byte>), Fault>)
    ensures r.Ok? ==> |r.value.0| == n && AllFrameable(r.value.0) && |r.value.1| <= |b|
    decreases n
  {
    if n == 0 then Ok(([], b))
    else
      match DecodeString(b)
      case Err(f) => Err(f)
      case Ok((s, rest)) =>
        match DecodeStrings(rest, n - 1)
        case Err(f) => Err(f)
        case Ok((ss, rest')) => Ok(([s] + ss, rest'))
  }

  /** One string read, then the others: the first step of DecodeStrings. */
  lemma DecodeStringsCons(b: seq<byte>, ss: seq<string>, tail: seq<byte>, rest: seq<byte>)
    requires ss != [] && DecodeString(b) == Ok((ss[0], tail))
    requires DecodeStrings(tail, |ss| - 1) == Ok((ss[1..], rest))
    ensures DecodeStrings(b, |ss|) == Ok((ss, rest))
  {
    assert [ss[0]] + ss[1..] == ss;
  }

  /** The first string's encoding, then the others'. */
  lemma EncodeStringsCons(ss: seq<string>, rest: seq<byte>)
    requires AllFrameable(ss) && ss != []
    ensures IsFrameable(ss[0]) && AllFrameable(ss[1..])
    ensures EncodeStrings(ss) + rest == EncodeString(ss[0]) + (EncodeStrings(ss[1..]) + rest)
  {
  }

  /** The inductive step: the first string read back, then the others as the smaller case says. */
  lemma DecodeEncodeStringsStep(ss: seq<string>, rest: seq<byte>)
    requires AllFrameable(ss) && ss != []
    requires DecodeStrings(EncodeStrings(ss[1..]) + rest, |ss| - 1) == Ok((ss[1..], rest))
    ensures DecodeStrings(EncodeStrings(ss) + rest, |ss|) == Ok((ss, rest))
  {
    EncodeStringsCons(ss, rest);
    var tail := EncodeStrings(ss[1..]) + rest;
    DecodeEncodeString(ss[0], tail);
    DecodeStringsCons(EncodeStrings(ss) + rest, ss, tail, rest);
  }

  lemma {:induction false} DecodeEncodeStrings(ss: seq<string>, rest: seq<byte>)
    requires AllFrameable(ss)
    ensures DecodeStrings(EncodeStrings(ss) + rest, |ss|) == Ok((ss, rest))
    decreases |ss|
  {
    if ss != [] {
      DecodeEncodeStrings(ss[1..], rest);
      DecodeEncodeStringsStep(ss, rest);
    } else {
      assert EncodeStrings(ss) + rest == rest;
    }
  }

  /** A hand slot or a played card as sent: its index, then its text. */
  type Card = (int, string)

  predicate AllSendable(cards: seq<Card>) {
    forall i :: 0 <= i < |cards| ==> IsInt32(cards[i].0) && IsFrameable(cards[i].1)
  }

  function EncodeCards(cards: seq<Card>): (r: seq<byte>)
    requires AllSendable(cards)
    ensures |r| >= 8 * |cards|
  {
    if cards == [] then [] else EncodeCard(cards[0]) + EncodeCards(cards[1..])
  }

  /** The cards of a submission in the order the player sent them, without their slot indices. */
  function Texts(cards: seq<Card>): (texts: seq<string>)
    ensures |texts| == |cards| && forall i :: 0 <= i < |cards| ==> texts[i] == cards[i].1
  {
    seq(|cards|, i requires 0 <= i < |cards| => cards[i].1)
  }

  predicate IndicesBelow(cards: seq<Card>, n: int) {
    forall i :: 0 <= i < |cards| ==> 0 <= cards[i].0 < n
  }

  /** One card: its index, then its text. */
  function EncodeCard(card: Card): (r: seq<byte>)
    requires IsInt32(card.0) && IsFrameable(card.1)
    ensures |r| == 8 + |card.1|
  {
    EncodeInt32(card.0) + EncodeString(card.1)
  }

  function DecodeCard(b: seq<byte>): (r: Result<(Card, seq<byte>), Fault>)
    ensures r.Ok? ==> IsInt32(r.value.0.0) && IsFrameable(r.value.0.1) && |r.value.1| <= |b| - 8
  {
    match DecodeInt32(b)
    case Err(f) => Err(f)
    case Ok((index, afterIndex)) =>
      match DecodeString(afterIndex)
      case Err(f) => Err(f)
      case Ok((text, rest)) =>
        Ok(((index, text), rest))
  }

  lemma DecodeEncodeCard(card: Card, rest: seq<byte>)
    requires IsInt32(card.0) && IsFrameable(card.1)
    ensures DecodeCard(EncodeCard(card) + rest) == Ok((card, rest))
  {
    assert EncodeCard(card) + rest == EncodeInt32(card.0) + (EncodeString(card.1) + rest);
    DecodeEncodeInt32(card.0, EncodeString(card.1) + rest);
    DecodeEncodeString(card.1, rest);
  }

  /** Reads `n` (index, text) pairs. */
  function DecodeCards(b: seq<byte>, n: nat): (r: Result<(seq<Card>, seq<byte>), Fault>)
    ensures r.Ok? ==> |r.value.0| == n && AllSendable(r.value.0) && |r.value.1| <= |b|
    decreases n
  {
    if n == 0 then Ok(([], b))
    else
      match DecodeCard(b)
      case Err(f) => Err(f)
      case Ok((card, rest)) =>
        match DecodeCards(rest, n - 1)
        case Err(f) => Err(f)
        case Ok((cards, rest')) => Ok(([card] + cards, rest'))
  }

  /** One card read, then the others: the first step of DecodeCards. */
  lemma DecodeCardsCons(b: seq<byte>, cards: seq<Card>, tail: seq<byte>, rest: seq<byte>)
    requires cards != [] && DecodeCard(b) == Ok((cards[0], tail))
    requires DecodeCards(tail, |cards| - 1) == Ok((cards[1..], rest))
    ensures DecodeCards(b, |cards|) == Ok((cards, rest))
  {
    assert [cards[0]] + cards[1..] == cards;
  }

  /** The first card's encoding, then the others'. */
  lemma EncodeCardsCons(cards: seq<Card>, rest: seq<byte>)
    requires AllSendable(cards) && cards != []
    ensures IsInt32(cards[0].0) && IsFrameable(cards[0].1) && AllSendable(cards[1..])
    ensures EncodeCards(cards) + rest == EncodeCard(cards[0]) + (EncodeCards(cards[1..]) + rest)
  {
  }

  /** Bytes that start with one card's encoding decode to that card, then whatever the bytes after it hold. */
  lemma DecodeCardsAfter(b: seq<byte>, cards: seq<Card>, tail: seq<byte>, rest: seq<byte>)
    requires cards != [] && IsInt32(cards[0].0) && IsFrameable(cards[0].1)
    requires b == EncodeCard(cards[0]) + tail
    requires DecodeCards(tail, |cards| - 1) == Ok((cards[1..], rest))
    ensures DecodeCards(b, |cards|) == Ok((cards, rest))
  {
    DecodeEncodeCard(cards[0], tail);
    DecodeCardsCons(b, cards, tail, rest);
  }

  /** The inductive step: the first card read back, then the others as the smaller case says. */
  lemma DecodeEncodeCardsStep(cards: seq<Card>, rest: seq<byte>)
    requires AllSendable(cards) && cards != []
    requires DecodeCards(EncodeCards(cards[1..]) + rest, |cards| - 1) == Ok((cards[1..], rest))
    ensures DecodeCards(EncodeCards(cards) + rest, |cards|) == Ok((cards, rest))
  {
    EncodeCardsCons(cards, rest);
    DecodeCardsAfter(EncodeCards(cards) + rest, cards, EncodeCards(cards[1..]) + rest, rest);
  }

  lemma {:induction false} DecodeEncodeCards(cards: seq<Card>, rest: seq<byte>)
    requires AllSendable(cards)
    ensures DecodeCards(EncodeCards(cards) + rest, |cards|) == Ok((cards, rest))
    decreases |cards|
  {
    if cards != [] {
      DecodeEncodeCards(cards[1..], rest);
      DecodeEncodeCardsStep(cards, rest);
    } else {
      assert EncodeCards(cards) + rest == rest;
    }
  }

  // ---- sendPlayerList / receivePlayerList ----

  /** `sendPlayerList`: the number of players, then every username in roster order. */
  function EncodePlayerList(usernames: seq<string>): (r: seq<byte>)
    requires |usernames| <= INT32_MAX && AllFrameable(usernames)
    ensures |r| >= 4 && r[..4] == EncodeInt32(|usernames|)
  {
    EncodeInt32(|usernames|) + EncodeStrings(usernames)
  }

  /**
   * `receivePlayerList`'s reading: a count, then that many usernames.  A negative
   * count makes `resize` throw.
   */
  function DecodePlayerList(b: seq<byte>): (r: Result<(seq<string>, seq<byte>), Fault>)
    ensures DecodeInt32(b).Ok? && DecodeInt32(b).value.0 < 0 ==> r == Err(BadLength(DecodeInt32(b).value.0))
    ensures r.Ok? ==> |b| >= 4 && |r.value.0| == DecodeInt32(b).value.0
  {
    match DecodeInt32(b)
    case Err(f) => Err(f)
    case Ok((count, rest)) =>
      if count < 0 then Err(BadLength(count)) else DecodeStrings(rest, count)
  }

  /** The client reads exactly the usernames the server sent, in order. */
  lemma DecodeEncodePlayerList(usernames: seq<string>, rest: seq<byte>)
    requires |usernames| <= INT32_MAX && AllFrameable(usernames)
    ensures DecodePlayerList(EncodePlayerList(usernames) + rest) == Ok((usernames, rest))
  {
    assert EncodePlayerList(usernames) + rest == EncodeInt32(|usernames|) + (EncodeStrings(usernames) + rest);
    DecodeEncodeInt32(|usernames|, EncodeStrings(usernames) + rest);
    DecodeEncodeStrings(usernames, rest);
  }

  // ---- sendQuestion / receiveQuestion ----

  /** `sendQuestion`: the question text with its length prefix, then the number of blanks. */
  function EncodeQuestion(q: Question.Question): (r: seq<byte>)
    requires IsFrameable(q.text) && IsInt32(q.numOfBlanks)
    ensures |r| == |q.text| + 8
  {
    EncodeString(q.text) + EncodeInt32(q.numOfBlanks)
  }

  /** `receiveQuestion`'s reading: a string, then an `int`. */
  function DecodeQuestion(b: seq<byte>): (r: Result<(Question.Question, seq<byte>), Fault>)
    ensures r.Ok? ==> IsFrameable(r.value.0.text) && IsInt32(r.value.0.numOfBlanks)
    ensures r.Ok? ==> |r.value.1| == |b| - |r.value.0.text| - 8
  {
    match DecodeString(b)
    case Err(f) => Err(f)
    case Ok((text, rest)) =>
      match DecodeInt32(rest)
      case Err(f) => Err(f)
      case Ok((numOfBlanks, rest')) => Ok((Question.Question(text, numOfBlanks), rest'))
  }

  lemma DecodeEncodeQuestion(q: Question.Question, rest: seq<byte>)
    requires IsFrameable(q.text) && IsInt32(q.numOfBlanks)
    ensures DecodeQuestion(EncodeQuestion(q) + rest) == Ok((q, rest))
  {
    assert EncodeQuestion(q) + rest == EncodeString(q.text) + (EncodeInt32(q.numOfBlanks) + rest);
    DecodeEncodeString(q.text, EncodeInt32(q.numOfBlanks) + rest);
    DecodeEncodeInt32(q.numOfBlanks, rest);
  }

  // ---- sendAnswers / receiveAnswers ----

  /** `sendAnswers`: the number of slots of the player's hand, then each slot's index and text. */
  function EncodeAnswers(hand: seq<Card>): (r: seq<byte>)
    requires |hand| <= INT32_MAX && AllSendable(hand)
    ensures |r| >= 4 && r[..4] == EncodeInt32(|hand|)
  {
    EncodeInt32(|hand|) + EncodeCards(hand)
  }

  /** `receiveAnswers`' reading: a count, then that many (index, text) pairs; a negative count reads none. */
  function DecodeAnswers(b: seq<byte>): (r: Result<(seq<Card>, seq<byte>), Fault>)
    ensures r.Ok? ==> |b| >= 4
    ensures r.Ok? ==> |r.value.0| == (if DecodeInt32(b).value.0 < 0 then 0 else DecodeInt32(b).value.0)
  {
    match DecodeInt32(b)
    case Err(f) => Err(f)
    case Ok((count, rest)) => DecodeCards(rest, if count < 0 then 0 else count)
  }

  lemma DecodeEncodeAnswers(hand: seq<Card>, rest: seq<byte>)
    requires |hand| <= INT32_MAX && AllSendable(hand)
    ensures DecodeAnswers(EncodeAnswers(hand) + rest) == Ok((hand, rest))
  {
    assert EncodeAnswers(hand) + rest == EncodeInt32(|hand|) + (EncodeCards(hand) + rest);
    DecodeEncodeInt32(|hand|, EncodeCards(hand) + rest);
    DecodeEncodeCards(hand, rest);
  }

  // ---- sendAnswerChoices / receiveAnswerChoices ----

  function Max0(n: int): nat {
    if n < 0 then 0 else n
  }

  /** The submission `(player, texts)` has at least `blanks` texts, all sendable. */
  predicate SubmissionSendable(submission: (int, seq<string>), blanks: nat) {
    |submission.1| >= blanks && AllFrameable(submission.1[..blanks])
  }

  /** The first `blanks` texts of every submission, in list order. */
  function EncodeSubmissions(submissions: seq<(int, seq<string>)>, blanks: nat): (r: seq<byte>)
    requires forall i :: 0 <= i < |submissions| ==> SubmissionSendable(submissions[i], blanks)
  {
    if submissions == [] then []
    else
      assert SubmissionSendable(submissions[0], blanks);
      EncodeStrings(submissions[0].1[..blanks]) + EncodeSubmissions(submissions[1..], blanks)
  }

  /**
   * `sendAnswerChoices`: the count |clients| - 1 (one submission per player but the
   * judge), then for each of the first `count` submissions its first `numOfBlanks`
   * texts.  The source indexes the list without checking, so it must be long enough.
   */
  function EncodeAnswerChoices(numOfClients: int, numOfBlanks: int, playerChoices: seq<(int, seq<string>)>)
    : (r: seq<byte>)
    requires 1 <= numOfClients && numOfClients - 1 <= |playerChoices| && IsInt32(numOfClients - 1)
    requires forall i :: 0 <= i < numOfClients - 1 ==> SubmissionSendable(playerChoices[i], Max0(numOfBlanks))
    ensures |r| >= 4 && r[..4] == EncodeInt32(numOfClients - 1)
  {
    EncodeInt32(numOfClients - 1) + EncodeSubmissions(playerChoices[..numOfClients - 1], Max0(numOfBlanks))
  }

  /** Reads `n` submissions of `blanks` strings each. */
  function DecodeSubmissions(b: seq<byte>, n: nat, blanks: nat): (r: Result<(seq<seq<string>>, seq<byte>), Fault>)
    ensures r.Ok? ==> |r.value.0| == n && |r.value.1| <= |b|
    ensures r.Ok? ==> forall i :: 0 <= i < n ==> |r.value.0[i]| == blanks
    decreases n
  {
    if n == 0 then Ok(([], b))
    else
      match DecodeStrings(b, blanks)
      case Err(f) => Err(f)
      case Ok((texts, rest)) =>
        match DecodeSubmissions(rest, n - 1, blanks)
        case Err(f) => Err(f)
        case Ok((more, rest')) => Ok(([texts] + more, rest'))
  }

  /** `receiveAnswerChoices`' reading, for a question of `numOfBlanks` blanks. */
  function DecodeAnswerChoices(b: seq<byte>, numOfBlanks: int): (r: Result<(seq<seq<string>>, seq<byte>), Fault>)
    ensures r.Ok? ==> |b| >= 4 && |r.value.0| == Max0(DecodeInt32(b).value.0)
    ensures r.Ok? ==> forall i :: 0 <= i < |r.value.0| ==> |r.value.0[i]| == Max0(numOfBlanks)
  {
    match DecodeInt32(b)
    case Err(f) => Err(f)
    case Ok((count, rest)) => DecodeSubmissions(rest, Max0(count), Max0(numOfBlanks))
  }

  /** The texts the judge is shown: the first `blanks` texts of each of the first `count` submissions. */
  function SubmittedTexts(submissions: seq<(int, seq<string>)>, blanks: nat): (r: seq<seq<string>>)
    requires forall i :: 0 <= i < |submissions| ==> |submissions[i].1| >= blanks
    ensures |r| == |submissions|
  {
    if submissions == [] then [] else [submissions[0].1[..blanks]] + SubmittedTexts(submissions[1..], blanks)
  }

  lemma {:induction false} DecodeEncodeSubmissions(submissions: seq<(int, seq<string>)>, blanks: nat, rest: seq<byte>)
    requires forall i :: 0 <= i < |submissions| ==> SubmissionSendable(submissions[i], blanks)
    ensures DecodeSubmissions(EncodeSubmissions(submissions, blanks) + rest, |submissions|, blanks)
            == Ok((SubmittedTexts(submissions, blanks), rest))
    decreases |submissions|
  {
    if submissions != [] {
      var texts := submissions[0].1[..blanks];
      var tail := EncodeSubmissions(submissions[1..], blanks) + rest;
      assert EncodeSubmissions(submissions, blanks) + rest == EncodeStrings(texts) + tail;
      DecodeEncodeStrings(texts, tail);
      DecodeEncodeSubmissions(submissions[1..], blanks, rest);
      assert DecodeSubmissions(EncodeSubmissions(submissions, blanks) + rest, |submissions|, blanks)
          == Ok(([texts] + SubmittedTexts(submissions[1..], blanks), rest));
    } else {
      assert EncodeSubmissions(submissions, blanks) + rest == rest;
    }
  }

  /**
   * Every player's client reads back, in the server's (shuffled) list order, the
   * texts of the `|clients| - 1` submissions, `numOfBlanks` each.
   */
  lemma DecodeEncodeAnswerChoices(numOfClients: int, numOfBlanks: int, playerChoices: seq<(int, seq<string>)>,
                                  rest: seq<byte>)
    requires 1 <= numOfClients && numOfClients - 1 <= |playerChoices| && IsInt32(numOfClients - 1)
    requires forall i :: 0 <= i < numOfClients - 1 ==> SubmissionSendable(playerChoices[i], Max0(numOfBlanks))
    ensures DecodeAnswerChoices(EncodeAnswerChoices(numOfClients, numOfBlanks, playerChoices) + rest, numOfBlanks)
            == Ok((SubmittedTexts(playerChoices[..numOfClients - 1], Max0(numOfBlanks)), rest))
  {
    var submitted := playerChoices[..numOfClients - 1];
    var body := EncodeSubmissions(submitted, Max0(numOfBlanks));
    assert EncodeAnswerChoices(numOfClients, numOfBlanks, playerChoices) + rest
        == EncodeInt32(numOfClients - 1) + (body + rest);
    DecodeEncodeInt32(numOfClients - 1, body + rest);
    DecodeEncodeSubmissions(submitted, Max0(numOfBlanks), rest);
  }

  // ---- sendTsarChoice / receiveTsarChoice ----

  /** `sendTsarChoice`: the winning player's index, then the index of the chosen submission. */
  function EncodeTsarChoice(winnerIndex: int, tsarChoiceIndex: int): (r: seq<byte>)
    requires IsInt32(winnerIndex) && IsInt32(tsarChoiceIndex)
    ensures |r| == 8
  {
    EncodeInt32(winnerIndex) + EncodeInt32(tsarChoiceIndex)
  }

  function DecodeTsarChoice(b: seq<byte>): (r: Result<((int, int), seq<byte>), Fault>)
    ensures r.Ok? <==> |b| >= 8
    ensures r.Ok? ==> r.value.1 == b[8..]
  {
    match DecodeInt32(b)
    case Err(f) => Err(f)
    case Ok((winnerIndex, rest)) =>
      match DecodeInt32(rest)
      case Err(f) => Err(f)
      case Ok((tsarChoiceIndex, rest')) => Ok(((winnerIndex, tsarChoiceIndex), rest'))
  }

  lemma DecodeEncodeTsarChoice(winnerIndex: int, tsarChoiceIndex: int, rest: seq<byte>)
    requires IsInt32(winnerIndex) && IsInt32(tsarChoiceIndex)
    ensures DecodeTsarChoice(EncodeTsarChoice(winnerIndex, tsarChoiceIndex) + rest)
            == Ok(((winnerIndex, tsarChoiceIndex), rest))
  {
    assert EncodeTsarChoice(winnerIndex, tsarChoiceIndex) + rest
        == EncodeInt32(winnerIndex) + (EncodeInt32(tsarChoiceIndex) + rest);
    DecodeEncodeInt32(winnerIndex, EncodeInt32(tsarChoiceIndex) + rest);
    DecodeEncodeInt32(tsarChoiceIndex, rest);
  }

  // ---- the client's sendChoice / the server's receiveAnswerChoice ----

  /** The hand position a typed character names: `'1'` is the first card. */
  function CardIndex(c: char): int {
    c as int - '0' as int - 1
  }

  /** The cards `sendChoice` sends: for each of the first `numOfBlanks` characters, its position and that card's text. */
  function ChosenCards(choice: string, hand: seq<string>, numOfBlanks: nat): (r: seq<Card>)
    requires numOfBlanks <= |choice|
    requires forall i :: 0 <= i < numOfBlanks ==> 0 <= CardIndex(choice[i]) < |hand|
    ensures |r| == numOfBlanks
    ensures forall i :: 0 <= i < numOfBlanks ==> r[i] == (CardIndex(choice[i]), hand[CardIndex(choice[i])])
  {
    seq(numOfBlanks, i requires 0 <= i < numOfBlanks => (CardIndex(choice[i]), hand[CardIndex(choice[i])]))
  }

  /**
   * `sendChoice(choice)`: one (index, text) pair per blank.  The source reads a
   * character and a card for each blank without checking, so both must exist.
   */
  function EncodeChoice(choice: string, hand: seq<string>, numOfBlanks: nat): (r: seq<byte>)
    requires numOfBlanks <= |choice|
    requires forall i :: 0 <= i < numOfBlanks ==> 0 <= CardIndex(choice[i]) < |hand|
    requires |hand| <= INT32_MAX && AllFrameable(hand)
    ensures |r| >= 8 * numOfBlanks
  {
    EncodeCards(ChosenCards(choice, hand, numOfBlanks))
  }

  /** `receiveAnswerChoice`'s reading: one (index, text) pair per blank. */
  function DecodeChoice(b: seq<byte>, numOfBlanks: int): (r: Result<(seq<Card>, seq<byte>), Fault>)
    ensures r.Ok? ==> |r.value.0| == Max0(numOfBlanks)
  {
    DecodeCards(b, Max0(numOfBlanks))
  }

  /** The server reads back, blank by blank, the hand position and the text of each chosen card. */
  lemma DecodeEncodeChoice(choice: string, hand: seq<string>, numOfBlanks: nat, rest: seq<byte>)
    requires numOfBlanks <= |choice|
    requires forall i :: 0 <= i < numOfBlanks ==> 0 <= CardIndex(choice[i]) < |hand|
    requires |hand| <= INT32_MAX && AllFrameable(hand)
    ensures DecodeChoice(EncodeChoice(choice, hand, numOfBlanks) + rest, numOfBlanks)
            == Ok((ChosenCards(choice, hand, numOfBlanks), rest))
  {
    var cards := ChosenCards(choice, hand, numOfBlanks);
    assert AllSendable(cards);
    DecodeEncodeCards(cards, rest);
  }

  // ---- the client's sendTsarChoice / the server's receiveTsarChoice ----

  /** `sendTsarChoice(choice)`: the typed number, through `atoi`, less one. */
  function EncodeTsarPick(choice: string): (r: seq<byte>)
    requires IsInt32(LineIo.Atoi(choice) - 1)
    ensures |r| == 4
  {
    EncodeInt32(LineIo.Atoi(choice) - 1)
  }

  /** The server reads the judge's pick as the typed number less one. */
  lemma DecodeEncodeTsarPick(choice: string, rest: seq<byte>)
    requires IsInt32(LineIo.Atoi(choice) - 1)
    ensures DecodeInt32(EncodeTsarPick(choice) + rest) == Ok((LineIo.Atoi(choice) - 1, rest))
  {
    DecodeEncodeInt32(LineIo.Atoi(choice) - 1, rest);
  }
}
