/** A statement card (StatementCard.h): one line of text, read and written as that line. */
module StatementCard {
  import opened Wrappers
  import LineIo

  /** The one-argument constructor stores the text unchanged. */
  datatype StatementCard = StatementCard(text: string)

  /** `stream << card`: the text and one newline. */
  function Print(c: StatementCard): string {
    c.text + "\n"
  }

  /**
   * `stream >> card`: one `getline`.  It fails only on an empty stream; otherwise it
   * consumes exactly one line, up to and including its newline or to the end of
   * the stream, and stores that line without the newline.
   */
  function Parse(input: string): (r: LineIo.Extraction<StatementCard>)
    ensures r.good <==> input != []
    ensures r.good ==> '\n' !in r.value.text
    ensures r.good ==> input == r.value.text + "\n" + r.rest
                       || (input == r.value.text && r.rest == [])
  {
    match LineIo.GetLine(input, '\n')
    case None => LineIo.Extraction(StatementCard(""), [], false)
    case Some((line, rest)) => LineIo.Extraction(StatementCard(line), rest, true)
  }

  /** Reading a printed card gives it back, and the rest of the stream, when its text is one line. */
  lemma ParsePrint(c: StatementCard, rest: string)
    requires '\n' !in c.text
    ensures Parse(Print(c) + rest) == LineIo.Extraction(c, rest, true)
  {
    assert Print(c) + rest == c.text + ['\n'] + rest;
    LineIo.GetLineOfWritten(c.text, '\n', rest);
  }
}
