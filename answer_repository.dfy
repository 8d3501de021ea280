/**
 * The answer cards (AnswerRepository.cpp): the lines of the answer file, shuffled
 * once, handed out in order by a cursor.  Reading the file is not modelled: the
 * constructor takes the lines it would have read, and the shuffle's choices.
 */
module AnswerRepository {
  import opened Shuffle

  class AnswerRepository {
    var answers: seq<string>
    var counter: nat

    /** The lines, shuffled; the cursor at the first of them. */
    constructor (lines: seq<string>, swaps: seq<Swap>)
      requires ValidSwaps(swaps, |lines|)
      ensures answers == ApplySwaps(lines, swaps)
      ensures multiset(answers) == multiset(lines)
      ensures counter == 0
    {
      answers := ApplySwaps(lines, swaps);
      counter := 0;
    }

    /**
     * The card under the cursor; the cursor moves on by one.  There is no bounds check
     * in the source, so the caller must not run past the last card.
     */
    method GetAnswer() returns (answer: string)
      requires counter < |answers|
      modifies this`counter
      ensures answer == answers[old(counter)]
      ensures counter == old(counter) + 1
    {
      answer := answers[counter];
      counter := counter + 1;
    }
  }
}
