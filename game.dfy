/**
 * The server's round data (Game.cpp): every player's hand of numbered answer slots,
 * a "used" bit per slot, the judge ("tsar") and the question of the round.  A round
 * deals a question, then refills the used slots of every player but the judge from
 * the answer deck.
 */
module Game {
  import opened Question
  import opened AnswerRepository
  import opened QuestionRepository

  /** A hand slot: the slot's own index and the answer text in it. */
  type Slot = (int, string)

  /** The number of set bits among the first `k`. */
  function CountTrue(bits: seq<bool>, k: nat): (n: nat)
    requires k <= |bits|
    ensures n <= k
  {
    if k == 0 then 0 else CountTrue(bits, k - 1) + (if bits[k - 1] then 1 else 0)
  }

  /** The number of set bits of a row. */
  function SetBits(bits: seq<bool>): nat {
    CountTrue(bits, |bits|)
  }

  lemma {:induction false} CountTrueMonotone(bits: seq<bool>, j: nat, k: nat)
    requires j <= k <= |bits|
    ensures CountTrue(bits, j) <= CountTrue(bits, k)
    decreases k
  {
    if j < k {
      CountTrueMonotone(bits, j, k - 1);
    }
  }

  /** The row of `n` cleared bits. */
  function Falses(n: nat): (bits: seq<bool>)
    ensures |bits| == n && forall i :: 0 <= i < n ==> !bits[i]
  {
    if n == 0 then [] else Falses(n - 1) + [false]
  }

  /**
   * The first `k` slots of a hand after `generateAnswer`, given the deck and the
   * position of its cursor: slot by slot, a used slot receives the next card, tagged
   * with the slot's own index; every other slot keeps what it held.
   */
  function Redeal(row: seq<Slot>, used: seq<bool>, deck: seq<string>, start: nat, k: nat): (r: seq<Slot>)
    requires |row| == |used| && k <= |row| && start + CountTrue(used, k) <= |deck|
    ensures |r| == k
  {
    if k == 0 then []
    else
      Redeal(row, used, deck, start, k - 1)
      + [if used[k - 1] then (k - 1, deck[start + CountTrue(used, k - 1)]) else row[k - 1]]
  }

  /** The whole hand after `generateAnswer`. */
  function RedealHand(row: seq<Slot>, used: seq<bool>, deck: seq<string>, start: nat): (r: seq<Slot>)
    requires |row| == |used| && start + SetBits(used) <= |deck|
    ensures |r| == |row|
  {
    Redeal(row, used, deck, start, |row|)
  }

  /**
   * A redeal rewrites exactly the used slots: a slot whose bit was clear keeps its
   * content, and a redealt slot is tagged with its own index and holds the deck's
   * card at the cursor plus the number of used slots before it.
   */
  lemma {:induction false} RedealSlots(row: seq<Slot>, used: seq<bool>, deck: seq<string>, start: nat, k: nat)
    requires |row| == |used| && k <= |row| && start + CountTrue(used, k) <= |deck|
    ensures forall i :: 0 <= i < k && !used[i] ==> Redeal(row, used, deck, start, k)[i] == row[i]
    ensures forall i :: 0 <= i < k && used[i] ==>
              start + CountTrue(used, i) < |deck|
              && Redeal(row, used, deck, start, k)[i] == (i, deck[start + CountTrue(used, i)])
    decreases k
  {
    if k > 0 {
      RedealSlots(row, used, deck, start, k - 1);
    }
  }

  /**
   * Every card dealt to a hand comes from the `SetBits(used)` cards after the cursor,
   * and two different redealt slots receive cards from two different deck positions:
   * no card is dealt twice.
   */
  lemma {:induction false} RedealDrawsDistinctCards(used: seq<bool>, i: nat, j: nat)
    requires i < j <= |used| && used[i]
    ensures CountTrue(used, i) < CountTrue(used, j) <= SetBits(used)
    decreases j - i
  {
    CountTrueMonotone(used, j, |used|);
    if i + 1 < j {
      RedealDrawsDistinctCards(used, i, j - 1);
    }
  }

  /** Cards drawn for the players before `n`, leaving out the judge. */
  function DrawsBefore(used: seq<seq<bool>>, tsar: int, n: nat): nat
    requires n <= |used|
  {
    if n == 0 then 0
    else DrawsBefore(used, tsar, n - 1) + (if n - 1 == tsar then 0 else SetBits(used[n - 1]))
  }

  lemma {:induction false} DrawsBeforeMonotone(used: seq<seq<bool>>, tsar: int, m: nat, n: nat)
    requires m <= n <= |used|
    ensures DrawsBefore(used, tsar, m) <= DrawsBefore(used, tsar, n)
    decreases n
  {
    if m < n {
      DrawsBeforeMonotone(used, tsar, m, n - 1);
    }
  }

  /**
   * Across players: the cards of a round are dealt in player order, so every card a
   * player before `q` draws lies before the first card `q` draws, and two redealt
   * slots of two different players never receive the same deck position.
   */
  lemma NoCardDealtTwice(bits: seq<seq<bool>>, tsar: int, p: nat, i: nat, q: nat, j: nat)
    requires p < q < |bits| && p != tsar
    requires i < |bits[p]| && bits[p][i] && j <= |bits[q]|
    ensures DrawsBefore(bits, tsar, p) + CountTrue(bits[p], i) < DrawsBefore(bits, tsar, q) + CountTrue(bits[q], j)
  {
    RedealDrawsDistinctCards(bits[p], i, |bits[p]|);
    DrawsBeforeMonotone(bits, tsar, p + 1, q);
  }

  /**
   * Player `p`'s hand after a round with judge `tsar`, given the hands and bits before
   * it and the deck with its cursor at `start`: the judge's hand as it was, every
   * other player's redealt from the cards left after the players before it.
   */
  function HandAfterRound(rows: seq<seq<Slot>>, bits: seq<seq<bool>>, deck: seq<string>, start: nat,
                          tsar: int, p: nat): (r: seq<Slot>)
    requires p < |rows| == |bits| && |rows[p]| == |bits[p]|
    requires start + DrawsBefore(bits, tsar, |bits|) <= |deck|
    ensures |r| == |rows[p]|
  {
    if p == tsar then rows[p]
    else
      DrawsBeforeMonotone(bits, tsar, p + 1, |bits|);
      RedealHand(rows[p], bits[p], deck, start + DrawsBefore(bits, tsar, p))
  }

  /**
   * The round's starting point: a bit row per hand, each as long as its hand, and
   * enough cards after the cursor for every player but the judge.
   */
  ghost predicate RoundShape(rows0: seq<seq<Slot>>, bits0: seq<seq<bool>>, deck: seq<string>, start: nat, tsar: int) {
    |rows0| == |bits0| && (forall p :: 0 <= p < |rows0| ==> |rows0[p]| == |bits0[p]|)
    && start + DrawsBefore(bits0, tsar, |bits0|) <= |deck|
  }

  /** The hands once the players before `i` are handled, one player at a time. */
  ghost function DealtRows(rows0: seq<seq<Slot>>, bits0: seq<seq<bool>>, deck: seq<string>, start: nat, tsar: int,
                           i: nat): (rows: seq<seq<Slot>>)
    requires RoundShape(rows0, bits0, deck, start, tsar) && i <= |rows0|
    ensures |rows| == |rows0|
  {
    if i == 0 then rows0
    else DealtRows(rows0, bits0, deck, start, tsar, i - 1)[i - 1 := HandAfterRound(rows0, bits0, deck, start, tsar, i - 1)]
  }

  /** The bit rows once the players before `i` are handled: cleared, but the judge's. */
  ghost function ClearedBits(bits0: seq<seq<bool>>, tsar: int, n: nat, i: nat): (bits: seq<seq<bool>>)
    requires i <= |bits0|
    ensures |bits| == |bits0|
  {
    if i == 0 then bits0
    else ClearedBits(bits0, tsar, n, i - 1)[i - 1 := if i - 1 == tsar then bits0[i - 1] else Falses(n)]
  }

  /** Player `p`'s hand after the players before `i` are handled: redealt when `p < i`, as it was otherwise. */
  lemma {:induction false} DealtRowsAt(rows0: seq<seq<Slot>>, bits0: seq<seq<bool>>, deck: seq<string>, start: nat,
                                       tsar: int, i: nat, p: nat)
    requires RoundShape(rows0, bits0, deck, start, tsar) && i <= |rows0| && p < |rows0|
    ensures DealtRows(rows0, bits0, deck, start, tsar, i)[p]
            == if p < i then HandAfterRound(rows0, bits0, deck, start, tsar, p) else rows0[p]
    decreases i
  {
    if i > 0 {
      DealtRowsAt(rows0, bits0, deck, start, tsar, i - 1, p);
    }
  }

  /** Player `p`'s bits after the players before `i` are handled. */
  lemma {:induction false} ClearedBitsAt(bits0: seq<seq<bool>>, tsar: int, n: nat, i: nat, p: nat)
    requires i <= |bits0| && p < |bits0|
    ensures ClearedBits(bits0, tsar, n, i)[p] == if p < i && p != tsar then Falses(n) else bits0[p]
    decreases i
  {
    if i > 0 {
      ClearedBitsAt(bits0, tsar, n, i - 1, p);
    }
  }

  /**
   * The state of `generateData`'s loop once the players before `i` are handled: their
   * hands are redealt and their bits cleared (the judge's left alone), the later
   * players are untouched, and the deck's cursor has moved past the cards they drew.
   */
  ghost predicate RoundProgress(rows: seq<seq<Slot>>, bits: seq<seq<bool>>, counter: nat, rows0: seq<seq<Slot>>,
                                bits0: seq<seq<bool>>, deck: seq<string>, start: nat, tsar: int, n: nat, i: nat)
  {
    RoundShape(rows0, bits0, deck, start, tsar)
    && i <= |rows0|
    && counter == start + DrawsBefore(bits0, tsar, i)
    && rows == DealtRows(rows0, bits0, deck, start, tsar, i)
    && bits == ClearedBits(bits0, tsar, n, i)
  }

  /** Redealing player `i`, not the judge, from the cursor moves the loop on by one player. */
  lemma DealNext(rows: seq<seq<Slot>>, bits: seq<seq<bool>>, counter: nat, rows0: seq<seq<Slot>>,
                 bits0: seq<seq<bool>>, deck: seq<string>, start: nat, tsar: int, n: nat, i: nat)
    requires i < |rows0| && i != tsar
    requires RoundProgress(rows, bits, counter, rows0, bits0, deck, start, tsar, n, i)
    ensures rows[i] == rows0[i] && bits[i] == bits0[i]
    ensures counter + SetBits(bits0[i]) <= |deck|
    ensures RoundProgress(rows[i := RedealHand(rows0[i], bits0[i], deck, counter)], bits[i := Falses(n)],
                          counter + SetBits(bits0[i]), rows0, bits0, deck, start, tsar, n, i + 1)
  {
    DealtRowsAt(rows0, bits0, deck, start, tsar, i, i);
    ClearedBitsAt(bits0, tsar, n, i, i);
    DrawsBeforeMonotone(bits0, tsar, i + 1, |bits0|);
    assert HandAfterRound(rows0, bits0, deck, start, tsar, i) == RedealHand(rows0[i], bits0[i], deck, counter);
  }

  /** Skipping the judge moves the loop on by one player. */
  lemma SkipJudge(rows: seq<seq<Slot>>, bits: seq<seq<bool>>, counter: nat, rows0: seq<seq<Slot>>,
                  bits0: seq<seq<bool>>, deck: seq<string>, start: nat, tsar: int, n: nat, i: nat)
    requires i < |rows0| && i == tsar
    requires RoundProgress(rows, bits, counter, rows0, bits0, deck, start, tsar, n, i)
    ensures RoundProgress(rows, bits, counter, rows0, bits0, deck, start, tsar, n, i + 1)
  {
    DealtRowsAt(rows0, bits0, deck, start, tsar, i, i);
    ClearedBitsAt(bits0, tsar, n, i, i);
    assert rows[i := HandAfterRound(rows0, bits0, deck, start, tsar, i)] == rows;
    assert bits[i := bits0[i]] == bits;
  }

  /** When every player is handled, each hand and bit row is as the round leaves it. */
  lemma RoundDone(rows: seq<seq<Slot>>, bits: seq<seq<bool>>, counter: nat, rows0: seq<seq<Slot>>,
                  bits0: seq<seq<bool>>, deck: seq<string>, start: nat, tsar: int, n: nat)
    requires RoundProgress(rows, bits, counter, rows0, bits0, deck, start, tsar, n, |rows0|)
    ensures counter == start + DrawsBefore(bits0, tsar, |bits0|)
    ensures forall p :: 0 <= p < |rows0| ==> rows[p] == HandAfterRound(rows0, bits0, deck, start, tsar, p)
    ensures forall p :: 0 <= p < |rows0| ==> bits[p] == if p == tsar then bits0[p] else Falses(n)
  {
    forall p | 0 <= p < |rows0|
      ensures rows[p] == HandAfterRound(rows0, bits0, deck, start, tsar, p)
      ensures bits[p] == if p == tsar then bits0[p] else Falses(n)
    {
      DealtRowsAt(rows0, bits0, deck, start, tsar, |rows0|, p);
      ClearedBitsAt(bits0, tsar, n, |rows0|, p);
    }
  }

  /** Replacing the element just after the prefix `a`. */
  /** One more slot of the redeal: a used slot takes the next card, a clear one is kept. */
  lemma RedealNext(row0: seq<Slot>, used0: seq<bool>, deck: seq<string>, start: nat, i: nat, row: seq<Slot>)
    requires |row0| == |used0| && i < |row0| && start + CountTrue(used0, i + 1) <= |deck|
    requires row == Redeal(row0, used0, deck, start, i) + row0[i..]
    ensures used0[i] ==> row[i := (i, deck[start + CountTrue(used0, i)])]
                         == Redeal(row0, used0, deck, start, i + 1) + row0[i + 1..]
    ensures !used0[i] ==> row == Redeal(row0, used0, deck, start, i + 1) + row0[i + 1..]
  {
    CountTrueMonotone(used0, i, i + 1);
    var prefix := Redeal(row0, used0, deck, start, i);
    var slot := Redeal(row0, used0, deck, start, i + 1)[i];
    assert Redeal(row0, used0, deck, start, i + 1) == prefix + [slot];
    AppendStep(prefix, row0[i..], slot);
    KeepStep(prefix, row0[i..]);
  }

  /** One more bit of the redeal cleared. */
  lemma FalsesNext(used0: seq<bool>, i: nat, bits: seq<bool>)
    requires i < |used0| && bits == Falses(i) + used0[i..]
    ensures bits[i] == used0[i]
    ensures used0[i] ==> bits[i := false] == Falses(i + 1) + used0[i + 1..]
    ensures !used0[i] ==> bits == Falses(i + 1) + used0[i + 1..]
  {
    AppendStep(Falses(i), used0[i..], false);
    KeepStep(Falses(i), used0[i..]);
  }

  lemma AppendStep<T>(a: seq<T>, b: seq<T>, x: T)
    requires b != []
    ensures (a + b)[|a| := x] == a + [x] + b[1..]
  {
    assert b == [b[0]] + b[1..];
  }

  /** Splitting off the element just after the prefix `a`. */
  lemma KeepStep<T>(a: seq<T>, b: seq<T>)
    requires b != []
    ensures a + b == a + [b[0]] + b[1..]
  {
  }

  class Game {
    const answerRepository: AnswerRepository
    const questionRepository: QuestionRepository
    const numOfPlayers: nat
    const numOfAnswers: nat
    const numOfRounds: int
    /** `answers[p][i]`: slot i of player p. */
    var answers: seq<seq<Slot>>
    /** `usedAnswers[p][i]`: slot i of player p was played and must be refilled. */
    var usedAnswers: seq<seq<bool>>
    var tsarIndex: int
    var question: Question

    /** Both tables have a row per player and a slot per answer. */
    predicate Valid()
      reads this
    {
      |answers| == numOfPlayers && |usedAnswers| == numOfPlayers
      && (forall p :: 0 <= p < numOfPlayers ==> |answers[p]| == numOfAnswers)
      && (forall p :: 0 <= p < numOfPlayers ==> |usedAnswers[p]| == numOfAnswers)
    }

    /**
     * Stores the repositories and the sizes, then gives every player `numOfAnswers`
     * empty slots, all marked used so that the first round fills them all.  The
     * judge and the question are left unset, as in the source.  (Negative sizes make
     * `resize` throw, so sizes are natural numbers.)
     */
    constructor (answerRepository: AnswerRepository, questionRepository: QuestionRepository,
                 numOfPlayers: nat, numOfAnswers: nat, numOfRounds: int)
      ensures this.answerRepository == answerRepository
      ensures this.questionRepository == questionRepository
      ensures this.numOfPlayers == numOfPlayers && this.numOfAnswers == numOfAnswers
      ensures this.numOfRounds == numOfRounds
      ensures Valid()
      ensures forall p, i :: 0 <= p < numOfPlayers && 0 <= i < numOfAnswers ==>
                answers[p][i] == (0, "") && usedAnswers[p][i]
    {
      this.answerRepository := answerRepository;
      this.questionRepository := questionRepository;
      this.numOfPlayers := numOfPlayers;
      this.numOfAnswers := numOfAnswers;
      this.numOfRounds := numOfRounds;
      var emptyRow: seq<Slot> := [];
      var fullRow: seq<bool> := [];
      while |emptyRow| < numOfAnswers
        invariant |emptyRow| == |fullRow| <= numOfAnswers
        invariant forall i :: 0 <= i < |emptyRow| ==> emptyRow[i] == (0, "") && fullRow[i]
      {
        emptyRow := emptyRow + [(0, "")];
        fullRow := fullRow + [true];
      }
      var rows: seq<seq<Slot>> := [];
      var bits: seq<seq<bool>> := [];
      while |rows| < numOfPlayers
        invariant |rows| == |bits| <= numOfPlayers
        invariant forall p :: 0 <= p < |rows| ==> rows[p] == emptyRow && bits[p] == fullRow
      {
        rows := rows + [emptyRow];
        bits := bits + [fullRow];
      }
      answers := rows;
      usedAnswers := bits;
    }

    /** The judge of the round is always player 0: the random choice is commented out. */
    method GenerateTsarIndex()
      modifies this`tsarIndex
      ensures tsarIndex == 0
    {
      tsarIndex := 0;
    }

    /** The round's question is the next one of the question deck. */
    method GenerateQuestion()
      requires questionRepository.counter < |questionRepository.questions|
      modifies this`question, questionRepository`counter
      ensures question == questionRepository.questions[old(questionRepository.counter)]
      ensures questionRepository.counter == old(questionRepository.counter) + 1
    {
      question := questionRepository.GetQuestion();
    }

    /**
     * The loop of `generateAnswer` on one hand: every used slot, in slot order, takes
     * the next card of the answer deck and its bit is cleared.
     */
    method RefillHand(row0: seq<Slot>, used0: seq<bool>) returns (row: seq<Slot>, bits: seq<bool>)
      requires |row0| == |used0|
      requires answerRepository.counter + SetBits(used0) <= |answerRepository.answers|
      modifies answerRepository`counter
      ensures row == RedealHand(row0, used0, answerRepository.answers, old(answerRepository.counter))
      ensures bits == Falses(|used0|)
      ensures answerRepository.counter == old(answerRepository.counter) + SetBits(used0)
    {
      ghost var start := answerRepository.counter;
      ghost var deck := answerRepository.answers;
      row, bits := row0, used0;
      var i := 0;
      while i < |used0|
        invariant 0 <= i <= |used0|
        invariant answerRepository.answers == deck
        invariant start + CountTrue(used0, i) <= |deck|
        invariant answerRepository.counter == start + CountTrue(used0, i)
        invariant row == Redeal(row0, used0, deck, start, i) + row0[i..]
        invariant bits == Falses(i) + used0[i..]
      {
        CountTrueMonotone(used0, i + 1, |used0|);
        RedealNext(row0, used0, deck, start, i, row);
        FalsesNext(used0, i, bits);
        if bits[i] {
          var answer := answerRepository.GetAnswer();
          assert answer == deck[start + CountTrue(used0, i)];
          row := row[i := (i, answer)];
          bits := bits[i := false];
        }
        i := i + 1;
      }
      assert row0[i..] == [] && used0[i..] == [];
    }

    /**
     * Refills player `playerIndex`'s used slots, in slot order, from the answer deck,
     * and clears all their bits.  The deck must hold enough cards: the repository
     * does not check.
     */
    method GenerateAnswer(playerIndex: nat)
      requires Valid() && playerIndex < numOfPlayers
      requires answerRepository.counter + SetBits(usedAnswers[playerIndex]) <= |answerRepository.answers|
      modifies this`answers, this`usedAnswers, answerRepository`counter
      ensures Valid()
      ensures answers == old(answers)[playerIndex := RedealHand(old(answers[playerIndex]),
                old(usedAnswers[playerIndex]), answerRepository.answers, old(answerRepository.counter))]
      ensures usedAnswers == old(usedAnswers)[playerIndex := Falses(numOfAnswers)]
      ensures answerRepository.counter == old(answerRepository.counter) + SetBits(old(usedAnswers[playerIndex]))
    {
      var row, bits := RefillHand(answers[playerIndex], usedAnswers[playerIndex]);
      answers := answers[playerIndex := row];
      usedAnswers := usedAnswers[playerIndex := bits];
    }

    /** The loop of `generateData`: a redeal for every player but the judge, in player order. */
    method GenerateAnswers()
      requires Valid()
      requires answerRepository.counter + DrawsBefore(usedAnswers, tsarIndex, numOfPlayers) <= |answerRepository.answers|
      modifies this`answers, this`usedAnswers, answerRepository`counter
      ensures Valid()
      ensures answerRepository.counter
              == old(answerRepository.counter) + DrawsBefore(old(usedAnswers), tsarIndex, numOfPlayers)
      ensures forall p :: 0 <= p < numOfPlayers ==>
                answers[p] == HandAfterRound(old(answers), old(usedAnswers), answerRepository.answers,
                                             old(answerRepository.counter), tsarIndex, p)
      ensures forall p :: 0 <= p < numOfPlayers ==>
                usedAnswers[p] == if p == tsarIndex then old(usedAnswers[p]) else Falses(numOfAnswers)
    {
      ghost var start := answerRepository.counter;
      ghost var deck := answerRepository.answers;
      ghost var rows0 := answers;
      ghost var bits0 := usedAnswers;
      var tsar := tsarIndex;
      var i := 0;
      while i < numOfPlayers
        invariant 0 <= i <= numOfPlayers
        invariant Valid()
        invariant answerRepository.answers == deck
        invariant RoundProgress(answers, usedAnswers, answerRepository.counter, rows0, bits0, deck, start, tsar,
                                numOfAnswers, i)
      {
        if i != tsar {
          DealNext(answers, usedAnswers, answerRepository.counter, rows0, bits0, deck, start, tsar, numOfAnswers, i);
          GenerateAnswer(i);
        } else {
          SkipJudge(answers, usedAnswers, answerRepository.counter, rows0, bits0, deck, start, tsar, numOfAnswers, i);
        }
        i := i + 1;
      }
      RoundDone(answers, usedAnswers, answerRepository.counter, rows0, bits0, deck, start, tsar, numOfAnswers);
    }

    /**
     * A round's data: judge 0, the next question, and a redeal for every other
     * player; the judge's hand and bits are left as they were.
     */
    method GenerateData()
      requires Valid()
      requires questionRepository.counter < |questionRepository.questions|
      requires answerRepository.counter + DrawsBefore(usedAnswers, 0, numOfPlayers) <= |answerRepository.answers|
      modifies this`answers, this`usedAnswers, this`tsarIndex, this`question
      modifies answerRepository`counter, questionRepository`counter
      ensures Valid() && tsarIndex == 0
      ensures question == questionRepository.questions[old(questionRepository.counter)]
      ensures questionRepository.counter == old(questionRepository.counter) + 1
      ensures answerRepository.counter
              == old(answerRepository.counter) + DrawsBefore(old(usedAnswers), 0, numOfPlayers)
      ensures forall p :: 0 <= p < numOfPlayers ==>
                answers[p] == HandAfterRound(old(answers), old(usedAnswers), answerRepository.answers,
                                             old(answerRepository.counter), 0, p)
      ensures forall p :: 0 <= p < numOfPlayers ==>
                usedAnswers[p] == if p == 0 then old(usedAnswers[p]) else Falses(numOfAnswers)
    {
      GenerateTsarIndex();
      GenerateQuestion();
      GenerateAnswers();
    }

    /** Marks slot `answerIndex` of player `playerIndex` as played; nothing else changes. */
    method SetUsedAnswer(playerIndex: nat, answerIndex: nat)
      requires Valid() && playerIndex < numOfPlayers && answerIndex < numOfAnswers
      modifies this`usedAnswers
      ensures Valid()
      ensures usedAnswers == old(usedAnswers)[playerIndex := old(usedAnswers[playerIndex])[answerIndex := true]]
    {
      usedAnswers := usedAnswers[playerIndex := usedAnswers[playerIndex][answerIndex := true]];
    }
  }
}
