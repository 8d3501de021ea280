/**
 * A question card of the older revision (Question.h): a line of text and the number
 * of blanks it has, read and written as two lines.
 */
module Question {
  import LineIo

  /** The two-argument constructor stores the text and the blank count as given. */
  datatype Question = Question(text: string, numOfBlanks: int)

  /** `stream << question`: the text, a newline, the blank count in decimal, a newline. */
  function Print(q: Question): string {
    LineIo.WriteTextAndCount(q.text, q.numOfBlanks)
  }

  /** `stream >> question` on a stream holding `input`: the text line, then the count line through `atoi`. */
  function Parse(input: string): (r: LineIo.Extraction<Question>)
    ensures '\n' !in r.value.text
    ensures r.good <==> |input| >= 2 && '\n' in input[..|input| - 1]
    ensures r.good ==> exists line :: '\n' !in line && r.value.numOfBlanks == LineIo.Atoi(line)
                         && (input == r.value.text + "\n" + line + "\n" + r.rest
                             || (input == r.value.text + "\n" + line && r.rest == []))
  {
    LineIo.ReadTextAndCountShape(input);
    var e := LineIo.ReadTextAndCount(input);
    LineIo.Extraction(Question(e.value.0, e.value.1), e.rest, e.good)
  }

  /** Reading a printed question gives it back, and the rest of the stream, when its text is one line. */
  lemma ParsePrint(q: Question, rest: string)
    requires '\n' !in q.text
    ensures Parse(Print(q) + rest) == LineIo.Extraction(q, rest, true)
  {
    LineIo.ReadWrittenTextAndCount(q.text, q.numOfBlanks, rest);
  }

  /** A blank-count line without a number, an empty one included, gives no blanks. */
  lemma ParseNonNumericBlanks(text: string, line: string, rest: string)
    requires '\n' !in text && '\n' !in line && LineIo.HasNoNumber(line)
    ensures Parse(text + "\n" + line + "\n" + rest)
            == LineIo.Extraction(Question(text, 0), rest, true)
  {
    LineIo.ReadNonNumericCount(text, line, rest);
  }
}
