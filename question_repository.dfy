/**
 * The question cards (QuestionRepository.cpp): the questions parsed from the question
 * file, shuffled once, handed out in order by a cursor.  The constructor takes the
 * parsed questions and the shuffle's choices.
 */
module QuestionRepository {
  import opened Shuffle
  import opened Question

  class QuestionRepository {
    var questions: seq<Question>
    var counter: nat

    /** The questions, shuffled; the cursor at the first of them. */
    constructor (parsed: seq<Question>, swaps: seq<Swap>)
      requires ValidSwaps(swaps, |parsed|)
      ensures questions == ApplySwaps(parsed, swaps)
      ensures multiset(questions) == multiset(parsed)
      ensures counter == 0
    {
      questions := ApplySwaps(parsed, swaps);
      counter := 0;
    }

    /** The question under the cursor; the cursor moves on by one.  No bounds check in the source. */
    method GetQuestion() returns (question: Question)
      requires counter < |questions|
      modifies this`counter
      ensures question == questions[old(counter)]
      ensures counter == old(counter) + 1
    {
      question := questions[counter];
      counter := counter + 1;
    }
  }
}
